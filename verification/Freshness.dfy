/** Advertisement lifetime against broadcast period: does a listener's cache entry lapse between
    two broadcasts it hears? Times are in milliseconds from the creation of the ticker. */
module Freshness {

  const SECOND: nat := 1000

  /** A broadcast period in seconds whose double is a 64-bit number. */
  type Period = n: nat | 1 <= n < 0x8000_0000_0000_0000 witness 1

  /** `cache_max_age` of `SSDPManager::new`, in seconds. */
  function CacheMaxAge(period: Period): nat
  {
    if period < 20 then 20 else period * 2
  }

  /** One attempt: it takes some time to fetch the description and send, and the broadcast, if it
      succeeds, goes out at the end of it. */
  datatype Attempt = Attempt(ok: bool, took: nat)

  function Max(a: nat, b: nat): nat { if a < b then b else a }

  /** When the attempt after `run` starts: tick `n` is due at `n` periods, the first at once. */
  function Next(run: seq<Attempt>, period: nat): nat
  {
    if run == [] then 0
    else
      var n := |run| - 1;
      Max(Next(run[..n], period) + run[n].took, n * period)
  }

  /** When attempt `k` ends. */
  function Finish(run: seq<Attempt>, k: nat, period: nat): nat
    requires k < |run|
  {
    Next(run[..k], period) + run[k].took
  }

  /** When listeners hear a broadcast. */
  function Heard(run: seq<Attempt>, period: nat): seq<nat>
  {
    if run == [] then []
    else
      var n := |run| - 1;
      Heard(run[..n], period) + if run[n].ok then [Finish(run, n, period)] else []
  }

  /** `broadcast_task` over the attempts of `run`: send, go on whatever the result, wait for the
      ticker, whose deadlines are fixed. */
  method BroadcastTask(run: seq<Attempt>, period: nat) returns (heard: seq<nat>)
    requires 0 < period
    ensures heard == Heard(run, period)
  {
    var now, deadline := 0, 0;
    heard := [];
    for i := 0 to |run|
      invariant now == Next(run[..i], period) && deadline == i * period
      invariant heard == Heard(run[..i], period)
    {
      assert run[..i + 1][..i] == run[..i];
      now := now + run[i].took;
      if run[i].ok {
        heard := heard + [now];
      }
      now := Max(now, deadline);
      deadline := deadline + period;
      OneMorePeriod(i, period);
    }
    assert run[..|run|] == run;
  }

  lemma OneMorePeriod(i: nat, period: nat)
    ensures (i + 1) * period == i * period + period
  {
  }

  // ----- Freshness -----

  /** No entry learnt from one broadcast lapses before the next one is heard. */
  predicate NeverLapses(heard: seq<nat>, maxAge: nat)
  {
    forall i :: 0 < i < |heard| ==> heard[i] <= heard[i - 1] + maxAge
  }

  /** One of the attempts `a` to `a + j` succeeds. */
  predicate Succeeds(run: seq<Attempt>, a: nat, j: nat)
    requires a + j < |run|
  {
    exists k :: a <= k <= a + j && run[k].ok
  }

  /** No more than `j` attempts in a row fail. */
  predicate FailsAtMost(run: seq<Attempt>, j: nat)
  {
    forall a: nat :: a < |run| - j ==> Succeeds(run, a, j)
  }

  /** No attempt takes longer than `limit`. */
  predicate TakesAtMost(run: seq<Attempt>, limit: nat)
  {
    forall k :: 0 <= k < |run| ==> run[k].took <= limit
  }

  /** The longest possible silence: one period, then `j` failed attempts that each cost a period or
      their own duration, whichever is longer, then the successful attempt itself. */
  function WorstGap(period: nat, j: nat, limit: nat): nat
  {
    period + j * Max(period, limit) + limit
  }

  lemma Scale(a: nat, b: nat, p: nat)
    requires a <= b
    ensures a * p <= b * p && p * a <= p * b
  {
  }

  /** The latest start of an attempt that comes `steps + 1` places after one that ended at `finish`. */
  function LatestStart(finish: nat, period: nat, steps: nat, m: nat): nat { finish + period + steps * m }

  /** The attempt after `run` starts no later than this after the end of attempt `a`. */
  lemma {:induction false} StartBound(run: seq<Attempt>, a: nat, period: nat, limit: nat)
    requires a < |run| && TakesAtMost(run, limit)
    ensures Next(run, period) <= LatestStart(Finish(run, a, period), period, |run| - 1 - a, Max(period, limit))
    decreases |run|
  {
    hide LatestStart, Max;
    var n := |run| - 1;
    OnSchedule(run[..a], period);
    MaxBounds(period, limit);
    if a == n {
      FirstStart(n, Finish(run, n, period), period, Max(period, limit));
    } else {
      var init := run[..n];
      StartBound(init, a, period, limit);
      assert init[..a] == run[..a];
      LaterStart(a, n, Next(init, period), run[n].took, Finish(run, a, period), period, Max(period, limit));
    }
  }

  lemma MaxBounds(a: nat, b: nat)
    ensures a <= Max(a, b) && b <= Max(a, b)
  {
  }

  lemma FirstStart(n: nat, finish: nat, period: nat, m: nat)
    requires n * period <= finish + period
    ensures Max(finish, n * period) <= LatestStart(finish, period, 0, m)
  {
  }

  lemma LaterStart(a: nat, n: nat, start: nat, took: nat, finish: nat, period: nat, m: nat)
    requires a < n && period <= m && took <= m
    requires start <= LatestStart(finish, period, n - 1 - a, m) && a * period <= finish + period
    ensures Max(start + took, n * period) <= LatestStart(finish, period, n - a, m)
  {
    OneMorePeriod(n - 1 - a, m);
    ScheduleGap(a, n, period, m);
  }

  /** The attempt after `run` does not start before its tick. */
  lemma OnSchedule(run: seq<Attempt>, period: nat)
    ensures Next(run, period) + period >= |run| * period
  {
    if run != [] { OneMorePeriod(|run| - 1, period); }
  }

  lemma ScheduleGap(a: nat, n: nat, period: nat, m: nat)
    requires a < n && period <= m
    ensures n * period <= a * period + (n - a) * m
  {
    Scale(period, m, n - a);
    assert n * period == a * period + (n - a) * period;
  }

  /** The last broadcast heard so far and the attempt that made it. */
  lemma {:induction false} LastSuccess(run: seq<Attempt>, period: nat) returns (a: nat)
    requires Heard(run, period) != []
    ensures a < |run| && run[a].ok && (forall k :: a < k < |run| ==> !run[k].ok)
    ensures Heard(run, period)[|Heard(run, period)| - 1] == Finish(run, a, period)
    decreases |run|
  {
    var n := |run| - 1;
    if run[n].ok {
      a := n;
    } else {
      a := LastSuccess(run[..n], period);
      assert run[..n][..a] == run[..a];
    }
  }

  /** With at most `j` failures in a row, no silence is longer than the worst gap. */
  lemma {:induction false} GapsBounded(run: seq<Attempt>, period: nat, j: nat, limit: nat)
    requires FailsAtMost(run, j) && TakesAtMost(run, limit)
    ensures NeverLapses(Heard(run, period), WorstGap(period, j, limit))
    decreases |run|
  {
    if run != [] {
      var n := |run| - 1;
      var init := run[..n];
      forall a: nat | a < |init| - j ensures Succeeds(init, a, j) {
        assert Succeeds(run, a, j);
        var k :| a <= k <= a + j && run[k].ok;
        assert init[k].ok;
      }
      GapsBounded(init, period, j, limit);
      if run[n].ok && Heard(init, period) != [] {
        var a := LastSuccess(init, period);
        assert a + 1 + j < n ==> Succeeds(run, a + 1, j);
        StartBound(init, a, period, limit);
        Scale(n - 1 - a, j, Max(period, limit));
      }
    }
  }

  /** Two instant successes, then `j` failures and a success that take as long as they may. */
  function Worst(j: nat, limit: nat): seq<Attempt> { Failing(j, limit) + [Attempt(true, limit)] }

  function Failing(j: nat, limit: nat): seq<Attempt>
  {
    if j == 0 then [Attempt(true, 0), Attempt(true, 0)] else Failing(j - 1, limit) + [Attempt(false, limit)]
  }

  lemma {:induction false} FailingShape(j: nat, limit: nat)
    ensures |Failing(j, limit)| == j + 2 && TakesAtMost(Failing(j, limit), limit)
    ensures Failing(j, limit)[0].ok && Failing(j, limit)[1].ok
  {
    if j > 0 { FailingShape(j - 1, limit); }
  }

  lemma TwoInstant(run: seq<Attempt>, period: nat)
    requires |run| == 2 && run[0] == run[1] == Attempt(true, 0)
    ensures Next(run, period) == period && Heard(run, period) == [0, 0]
  {
    var one := run[..1];
    assert one[..0] == [];
    assert Next(one, period) == 0 && Heard(one, period) == [] + [0];
    assert Heard(run, period) == [0] + [0];
  }

  lemma AppendAttempt(run: seq<Attempt>, a: Attempt, period: nat)
    ensures Next(run + [a], period) == Max(Next(run, period) + a.took, |run| * period)
    ensures Heard(run + [a], period) == Heard(run, period) + if a.ok then [Next(run, period) + a.took] else []
  {
    assert (run + [a])[..|run|] == run;
  }

  lemma {:induction false} FailingTimes(j: nat, period: nat, limit: nat)
    ensures Next(Failing(j, limit), period) == period + j * Max(period, limit)
    ensures Heard(Failing(j, limit), period) == [0, 0]
  {
    hide Next, Heard, Max;
    if j == 0 {
      TwoInstant(Failing(j, limit), period);
    } else {
      FailingTimes(j - 1, period, limit);
      FailingShape(j - 1, limit);
      AppendAttempt(Failing(j - 1, limit), Attempt(false, limit), period);
      LateAgain(j, period, limit);
    }
  }

  /** One more failed attempt costs a period or its own duration, whichever is longer. */
  lemma LateAgain(j: nat, period: nat, limit: nat)
    requires 0 < j
    ensures var m := Max(period, limit);
            Max(period + (j - 1) * m + limit, (j + 1) * period) == period + j * m
  {
    var m := Max(period, limit);
    OneMorePeriod(j - 1, m);
    OneMorePeriod(j, period);
    Scale(period, m, j);
  }

  lemma WorstCase(j: nat, period: nat, limit: nat)
    ensures FailsAtMost(Worst(j, limit), j) && TakesAtMost(Worst(j, limit), limit)
    ensures Heard(Worst(j, limit), period) == [0, 0, WorstGap(period, j, limit)]
  {
    var w := Worst(j, limit);
    FailingShape(j, limit);
    FailingTimes(j, period, limit);
    AppendAttempt(Failing(j, limit), Attempt(true, limit), period);
    forall a: nat | a < |w| - j ensures Succeeds(w, a, j) {
      assert w[if a <= 1 then a else a + j].ok;
    }
  }

  /** A listener's entry never lapses, in any run with at most `j` failed broadcasts in a row and no
      attempt longer than `limit`, exactly when the worst gap fits in the advertised lifetime. */
  lemma NoLapseIff(period: Period, j: nat, limit: nat)
    ensures (forall run :: FailsAtMost(run, j) && TakesAtMost(run, limit) ==>
               NeverLapses(Heard(run, period * SECOND), CacheMaxAge(period) * SECOND))
       <==> WorstGap(period * SECOND, j, limit) <= CacheMaxAge(period) * SECOND
  {
    if WorstGap(period * SECOND, j, limit) <= CacheMaxAge(period) * SECOND {
      forall run | FailsAtMost(run, j) && TakesAtMost(run, limit)
        ensures NeverLapses(Heard(run, period * SECOND), CacheMaxAge(period) * SECOND)
      {
        GapsBounded(run, period * SECOND, j, limit);
      }
    } else {
      WorstCase(j, period * SECOND, limit);
      var heard := Heard(Worst(j, limit), period * SECOND);
      assert heard[2] > heard[1] + CacheMaxAge(period) * SECOND;
    }
  }

  lemma FewLosses(period: Period, j: nat)
    ensures WorstGap(period * SECOND, j, 0) <= CacheMaxAge(period) * SECOND <==>
            j == 0 || (j == 1 && (period <= 10 || period >= 20)) || (j >= 2 && (j + 1) * period <= 20)
  {
    assert j * (period * SECOND) == j * period * SECOND;
    if j >= 2 {
      Scale(2, j, period);
    }
  }

  /** For instant attempts: no lapse without failures, for any period; one lost broadcast is
      tolerated exactly for periods up to 10 and from 20 on; more only for very short periods. */
  lemma ToleratedLosses(period: Period, j: nat)
    ensures (forall run :: FailsAtMost(run, j) && TakesAtMost(run, 0) ==>
               NeverLapses(Heard(run, period * SECOND), CacheMaxAge(period) * SECOND))
       <==> j == 0 || (j == 1 && (period <= 10 || period >= 20)) || (j >= 2 && (j + 1) * period <= 20)
  {
    NoLapseIff(period, j, 0);
    FewLosses(period, j);
  }

  /** For attempts that take time and do not fail, the margin is one period, or what the minimum
      lifetime leaves. */
  lemma ToleratedDelay(period: Period, limit: nat)
    ensures (forall run :: FailsAtMost(run, 0) && TakesAtMost(run, limit) ==>
               NeverLapses(Heard(run, period * SECOND), CacheMaxAge(period) * SECOND))
       <==> limit <= (if period < 20 then 20 - period else period) * SECOND
  {
    NoLapseIff(period, 0, limit);
  }

  /** From period 20 on, any positive attempt time voids the tolerance of a lost broadcast. */
  lemma ToleratedLossWithDelay(period: Period, limit: nat)
    requires period >= 20
    ensures (forall run :: FailsAtMost(run, 1) && TakesAtMost(run, limit) ==>
               NeverLapses(Heard(run, period * SECOND), CacheMaxAge(period) * SECOND))
       <==> limit == 0
  {
    NoLapseIff(period, 1, limit);
  }
}

/** The connection limiter: the accept loop, its semaphore and the connection handlers, as a
    step system in which any enabled step of any of them may come next. */
module Limiter {
  import opened Bytes

  const MAX_CONCURRENT_CONNECTIONS: nat := 100

  /** The accept loop: waiting for a client; holding a client and waiting for a permit; or
      holding a client and a permit while connecting to the origin. */
  datatype Acceptor = Accepting | Acquiring | Connecting

  /** A connection handler: whether its two copies have ended, and how many of them it has joined
      (client to origin first). */
  datatype Handler = Handler(upEnded: bool, downEnded: bool, joined: nat)

  datatype State = State(free: nat, acceptor: Acceptor, running: map<nat, Handler>, spawned: nat)

  const INITIAL := State(MAX_CONCURRENT_CONNECTIONS, Accepting, map[], 0)

  datatype Event =
    | AcceptFails | Accept | Acquire
    | ConnectFails | ConnectTimesOut | Connect
    | UpEnds(id: nat) | DownEnds(id: nat)
    | JoinUp(id: nat) | JoinDown(id: nat) | Release(id: nat)

  /** The state after `e`, `None` when `e` is not enabled. Handlers are numbered as spawned. */
  function Step(s: State, e: Event): Option<State>
  {
    match e
    case AcceptFails => if s.acceptor.Accepting? then Some(s) else None
    case Accept => if s.acceptor.Accepting? then Some(s.(acceptor := Acquiring)) else None
    case Acquire =>
      if s.acceptor.Acquiring? && s.free > 0 then Some(s.(acceptor := Connecting, free := s.free - 1)) else None
    case ConnectFails => DropPermit(s)
    case ConnectTimesOut => DropPermit(s)
    case Connect =>
      if s.acceptor.Connecting? then
        Some(s.(acceptor := Accepting, running := s.running[s.spawned := Handler(false, false, 0)],
                spawned := s.spawned + 1))
      else None
    case UpEnds(id) =>
      if id in s.running && !s.running[id].upEnded then Some(Update(s, id, s.running[id].(upEnded := true))) else None
    case DownEnds(id) =>
      if id in s.running && !s.running[id].downEnded
      then Some(Update(s, id, s.running[id].(downEnded := true))) else None
    case JoinUp(id) =>
      if id in s.running && s.running[id].joined == 0 && s.running[id].upEnded
      then Some(Update(s, id, s.running[id].(joined := 1))) else None
    case JoinDown(id) =>
      if id in s.running && s.running[id].joined == 1 && s.running[id].downEnded
      then Some(Update(s, id, s.running[id].(joined := 2))) else None
    case Release(id) =>
      if id in s.running && s.running[id].joined == 2
      then Some(s.(running := s.running - {id}, free := s.free + 1)) else None
  }

  function DropPermit(s: State): Option<State>
  {
    if s.acceptor.Connecting? then Some(s.(acceptor := Accepting, free := s.free + 1)) else None
  }

  function Update(s: State, id: nat, h: Handler): State { s.(running := s.running[id := h]) }

  function Run(s: State, events: seq<Event>): Option<State>
    decreases |events|
  {
    if events == [] then Some(s)
    else
      var before := Run(s, events[..|events| - 1]);
      if before.None? then None else Step(before.value, events[|events| - 1])
  }

  // ----- Conservation -----

  function HeldByAcceptor(s: State): nat { if s.acceptor.Connecting? then 1 else 0 }

  function OpenClients(s: State): nat { |s.running| + if s.acceptor.Accepting? then 0 else 1 }

  /** Every permit is free, with a running handler, or with the accept loop. */
  predicate Conserved(s: State)
  {
    s.free + |s.running| + HeldByAcceptor(s) == MAX_CONCURRENT_CONNECTIONS
  }

  predicate IdsInRange(s: State)
  {
    forall id :: id in s.running ==> id < s.spawned
  }

  /** The connections served after `e`. */
  function ServedAfter(s: State, e: Event): set<nat>
  {
    match e
    case Connect => s.running.Keys + {s.spawned}
    case Release(id) => s.running.Keys - {id}
    case _ => s.running.Keys
  }

  lemma StepServes(s: State, e: Event)
    requires Step(s, e).Some?
    ensures Step(s, e).value.running.Keys == ServedAfter(s, e)
  {
  }

  lemma StepConserves(s: State, e: Event)
    requires Conserved(s) && IdsInRange(s) && Step(s, e).Some?
    ensures Conserved(Step(s, e).value)
  {
    StepServes(s, e);
    SizeIsKeys(s.running);
    SizeIsKeys(Step(s, e).value.running);
  }

  lemma StepIds(s: State, e: Event)
    requires IdsInRange(s) && Step(s, e).Some?
    ensures IdsInRange(Step(s, e).value)
  {
    StepServes(s, e);
    forall id | id in Step(s, e).value.running ensures id < Step(s, e).value.spawned {
      assert id in ServedAfter(s, e);
    }
  }

  lemma SizeIsKeys<V>(m: map<nat, V>)
    ensures |m| == |m.Keys|
  {
  }

  lemma RemovedSize<V>(m: map<nat, V>, id: nat)
    requires id in m
    ensures |m - {id}| == |m| - 1
  {
    assert (m - {id}).Keys == m.Keys - {id};
    SizeIsKeys(m);
    SizeIsKeys(m - {id});
  }

  /** In every reachable state permits are conserved, so at most 100 connections are served and at
      most 101 accepted clients are open; the accept loop waits for a permit only when exactly
      100 connections are being served. */
  lemma {:induction false} PermitsConserved(events: seq<Event>)
    requires Run(INITIAL, events).Some?
    ensures var s := Run(INITIAL, events).value;
            && Conserved(s) && IdsInRange(s)
            && |s.running| <= MAX_CONCURRENT_CONNECTIONS
            && OpenClients(s) <= MAX_CONCURRENT_CONNECTIONS + 1
            && (s.acceptor.Acquiring? && Step(s, Acquire).None? <==>
                  s.acceptor.Acquiring? && |s.running| == MAX_CONCURRENT_CONNECTIONS)
    decreases |events|
  {
    if events == [] {
      SizeIsKeys(INITIAL.running);
    } else {
      var init := events[..|events| - 1];
      PermitsConserved(init);
      StepConserves(Run(INITIAL, init).value, events[|events| - 1]);
      StepIds(Run(INITIAL, init).value, events[|events| - 1]);
    }
  }

  // ----- Each permit is returned once, after both copies have ended -----

  function Count(events: seq<Event>, e: Event): nat
    decreases |events|
  {
    if events == [] then 0
    else Count(events[..|events| - 1], e) + if events[|events| - 1] == e then 1 else 0
  }

  function Flag(b: bool): nat { if b then 1 else 0 }

  /** What the past of a run says about connection `id`: how often each of its copies ended and
      how often its permit was returned. */
  datatype Past = Past(up: nat, down: nat, released: nat)

  function PastOf(events: seq<Event>, id: nat): Past
  {
    Past(Count(events, UpEnds(id)), Count(events, DownEnds(id)), Count(events, Release(id)))
  }

  /** The past that state `s` stands for. */
  function Recorded(s: State, id: nat): Past
  {
    if id in s.running then Past(Flag(s.running[id].upEnded), Flag(s.running[id].downEnded), 0)
    else if id < s.spawned then Past(1, 1, 1)
    else Past(0, 0, 0)
  }

  /** A handler joins only what has ended. */
  predicate JoinsEnded(s: State)
  {
    forall id :: id in s.running ==>
      var h := s.running[id];
      h.joined <= 2 && (h.joined >= 1 ==> h.upEnded) && (h.joined == 2 ==> h.downEnded)
  }

  function Bump(p: Past, e: Event, id: nat): Past
  {
    Past(p.up + Flag(e == UpEnds(id)), p.down + Flag(e == DownEnds(id)), p.released + Flag(e == Release(id)))
  }

  lemma StepJoins(s: State, e: Event)
    requires JoinsEnded(s) && Step(s, e).Some?
    ensures JoinsEnded(Step(s, e).value)
  {
  }

  lemma StepRecords(s: State, e: Event, id: nat)
    requires JoinsEnded(s) && IdsInRange(s) && Step(s, e).Some?
    ensures Recorded(Step(s, e).value, id) == Bump(Recorded(s, id), e, id)
  {
    match e
    case AcceptFails => case Accept => case Acquire => case ConnectFails => case ConnectTimesOut =>
    case Connect => case UpEnds(i) => case DownEnds(i) => case JoinUp(i) => case JoinDown(i) =>
    case Release(i) =>
      assert i != id ==> (id in s.running - {i} <==> id in s.running);
  }

  /** For every connection of every run: while it is served, its permit has not been returned, and
      the ends of its copies are as its handler records them; once it is gone, each copy has ended
      exactly once and the permit was returned exactly once. */
  lemma {:induction false} PermitReturnedOnce(events: seq<Event>, id: nat)
    requires Run(INITIAL, events).Some?
    ensures JoinsEnded(Run(INITIAL, events).value)
    ensures PastOf(events, id) == Recorded(Run(INITIAL, events).value, id)
    decreases |events|
  {
    if events != [] {
      var init, e := events[..|events| - 1], events[|events| - 1];
      PermitReturnedOnce(init, id);
      PermitsConserved(init);
      StepJoins(Run(INITIAL, init).value, e);
      StepRecords(Run(INITIAL, init).value, e, id);
    }
  }

  /** The step that returns a permit comes after the ends of both copies. */
  lemma ReleaseAfterBoth(events: seq<Event>, id: nat)
    requires Run(INITIAL, events + [Release(id)]).Some?
    ensures Count(events, UpEnds(id)) == 1 && Count(events, DownEnds(id)) == 1 && Count(events, Release(id)) == 0
  {
    assert (events + [Release(id)])[..|events|] == events;
    PermitReturnedOnce(events, id);
  }

  /** There is no other way out: as long as one of its copies has not ended, a connection keeps
      its permit, however long the run (the stream timeout is never applied). */
  lemma {:induction false} HeldUntilBothEnd(events: seq<Event>, id: nat)
    requires Run(INITIAL, events).Some? && id < Run(INITIAL, events).value.spawned
    requires Count(events, UpEnds(id)) == 0 || Count(events, DownEnds(id)) == 0
    ensures id in Run(INITIAL, events).value.running
  {
    PermitReturnedOnce(events, id);
  }

  /** What a handler can do next depends on its past alone: a copy ends at any time, once; the handler
      joins the ended copies in order, and then returns the permit. */
  lemma HandlerStepsIff(events: seq<Event>, id: nat)
    requires Run(INITIAL, events).Some?
    ensures var s := Run(INITIAL, events).value; var served := id in s.running;
            && (Step(s, UpEnds(id)).Some? <==> served && Count(events, UpEnds(id)) == 0)
            && (Step(s, DownEnds(id)).Some? <==> served && Count(events, DownEnds(id)) == 0)
            && (Step(s, JoinUp(id)).Some? <==>
                  served && Count(events, UpEnds(id)) == 1 && Count(events, JoinUp(id)) == 0)
            && (Step(s, JoinDown(id)).Some? <==>
                  served && Count(events, DownEnds(id)) == 1 && Count(events, JoinUp(id)) == 1
                  && Count(events, JoinDown(id)) == 0)
            && (Step(s, Release(id)).Some? <==> served && Count(events, JoinDown(id)) == 1)
  {
    PermitReturnedOnce(events, id);
    JoinsCounted(events, id);
  }

  /** The number of copies joined is the number of joins. */
  predicate JoinsAre(s: State, id: nat, up: nat, down: nat)
  {
    && down <= up <= 1
    && (id in s.running ==> s.running[id].joined == up + down)
    && (id >= s.spawned ==> up == 0)
  }

  lemma StepJoinsAre(s: State, e: Event, id: nat, up: nat, down: nat)
    requires JoinsEnded(s) && IdsInRange(s) && Step(s, e).Some? && JoinsAre(s, id, up, down)
    ensures JoinsAre(Step(s, e).value, id, up + Flag(e == JoinUp(id)), down + Flag(e == JoinDown(id)))
  {
    match e
    case AcceptFails => case Accept => case Acquire => case ConnectFails => case ConnectTimesOut =>
    case Connect => case UpEnds(i) => case DownEnds(i) => case JoinUp(i) => case JoinDown(i) =>
    case Release(i) =>
  }

  lemma {:induction false} JoinsCounted(events: seq<Event>, id: nat)
    requires Run(INITIAL, events).Some?
    ensures JoinsAre(Run(INITIAL, events).value, id, Count(events, JoinUp(id)), Count(events, JoinDown(id)))
    decreases |events|
  {
    hide Step, JoinsAre;
    if events == [] {
      NoneJoined(id);
    } else {
      var init, e := events[..|events| - 1], events[|events| - 1];
      JoinsCounted(init, id);
      PermitReturnedOnce(init, id);
      PermitsConserved(init);
      StepJoinsAre(Run(INITIAL, init).value, e, id, Count(init, JoinUp(id)), Count(init, JoinDown(id)));
    }
  }

  lemma NoneJoined(id: nat)
    ensures JoinsAre(INITIAL, id, 0, 0)
  {
  }

  // ----- No permit is ever lost -----

  lemma RunSnoc(events: seq<Event>, e: Event)
    requires Run(INITIAL, events).Some?
    ensures Run(INITIAL, events + [e]) == Step(Run(INITIAL, events).value, e)
  {
    assert (events + [e])[..|events|] == events;
  }

  /** Extends a run by a step that is enabled in its last state. */
  lemma Take(events: seq<Event>, e: Event) returns (longer: seq<Event>)
    requires Run(INITIAL, events).Some? && Step(Run(INITIAL, events).value, e).Some?
    ensures events <= longer && Run(INITIAL, longer) == Step(Run(INITIAL, events).value, e)
  {
    longer := events + [e];
    RunSnoc(events, e);
  }

  lemma EndCopies(events: seq<Event>, id: nat) returns (longer: seq<Event>)
    requires Run(INITIAL, events).Some? && id in Run(INITIAL, events).value.running
    ensures events <= longer && Run(INITIAL, longer).Some?
    ensures var s := Run(INITIAL, events).value;
            Run(INITIAL, longer).value == Update(s, id, s.running[id].(upEnded := true, downEnded := true))
  {
    var h := Run(INITIAL, events).value.running[id];
    longer := events;
    if !h.upEnded { longer := Take(longer, UpEnds(id)); }
    if !h.downEnded { longer := Take(longer, DownEnds(id)); }
  }

  lemma JoinCopies(events: seq<Event>, id: nat) returns (longer: seq<Event>)
    requires Run(INITIAL, events).Some? && id in Run(INITIAL, events).value.running
    requires var h := Run(INITIAL, events).value.running[id]; h.upEnded && h.downEnded
    ensures events <= longer && Run(INITIAL, longer).Some?
    ensures var s := Run(INITIAL, events).value;
            Run(INITIAL, longer).value == Update(s, id, s.running[id].(joined := 2))
  {
    PermitReturnedOnce(events, id);
    var h := Run(INITIAL, events).value.running[id];
    longer := events;
    if h.joined == 0 { longer := Take(longer, JoinUp(id)); }
    if h.joined <= 1 { longer := Take(longer, JoinDown(id)); }
  }

  /** A served connection can always be brought to its end without the help of any other. */
  lemma FinishOne(events: seq<Event>, id: nat) returns (longer: seq<Event>)
    requires Run(INITIAL, events).Some? && id in Run(INITIAL, events).value.running
    ensures events <= longer && Run(INITIAL, longer).Some?
    ensures var s, s' := Run(INITIAL, events).value, Run(INITIAL, longer).value;
            s' == s.(running := s.running - {id}, free := s.free + 1)
  {
    var s := Run(INITIAL, events).value;
    longer := EndCopies(events, id);
    longer := JoinCopies(longer, id);
    var ended := Run(INITIAL, longer).value;
    longer := Take(longer, Release(id));
    assert ended.running - {id} == s.running - {id};
  }

  /** From every reachable state some continuation returns all permits: none is ever lost. */
  lemma {:induction false} AllPermitsReturn(events: seq<Event>) returns (longer: seq<Event>)
    requires Run(INITIAL, events).Some?
    ensures events <= longer && Run(INITIAL, longer).Some?
    ensures Run(INITIAL, longer).value.running == map[]
    ensures Run(INITIAL, longer).value.free == MAX_CONCURRENT_CONNECTIONS
    decreases |Run(INITIAL, events).value.running|
  {
    var s := Run(INITIAL, events).value;
    if id :| id in s.running {
      longer := FinishOne(events, id);
      RemovedSize(s.running, id);
      longer := AllPermitsReturn(longer);
    } else {
      longer := events;
      if s.acceptor.Connecting? { longer := Take(longer, ConnectFails); }
      assert s.running == map[];
      PermitsConserved(longer);
      SizeIsKeys(s.running);
    }
  }

  // ----- Every client is taken on -----

  /** One more connection is served, with both copies to go, and all others as before. */
  predicate ServesOneMore(s: State, s': State)
  {
    && s.spawned !in s.running && |s'.running| == |s.running| + 1
    && s'.running == s.running[s.spawned := Handler(false, false, 0)]
  }

  lemma AddedSize<V>(m: map<nat, V>, id: nat, v: V)
    requires id !in m
    ensures |m[id := v]| == |m| + 1
  {
    assert m[id := v].Keys == m.Keys + {id};
    SizeIsKeys(m);
    SizeIsKeys(m[id := v]);
  }

  /** In every reachable state the accept loop can go on with its client: a client is accepted at any
      time, or not; it gets a permit if and only if fewer than 100 are served; and once it has one it
      is served when the origin answers, and dropped alone when that fails or takes too long. */
  lemma ClientTakenOn(events: seq<Event>)
    requires Run(INITIAL, events).Some?
    ensures var s := Run(INITIAL, events).value;
            match s.acceptor
            case Accepting =>
              && Step(s, AcceptFails) == Some(s)
              && Step(s, Accept) == Some(s.(acceptor := Acquiring))
            case Acquiring =>
              && (Step(s, Acquire).Some? <==> |s.running| < 100)
              && (|s.running| < 100 ==> Step(s, Acquire).value.acceptor == Connecting
                                        && Step(s, Acquire).value.running == s.running)
            case Connecting =>
              && |s.running| < 100
              && Step(s, Connect).Some? && Step(s, Connect).value.acceptor == Accepting
              && ServesOneMore(s, Step(s, Connect).value)
              && forall e | e in {ConnectFails, ConnectTimesOut} ::
                   && Step(s, e).Some? && Step(s, e).value.acceptor == Accepting
                   && Step(s, e).value.running == s.running
  {
    PermitsConserved(events);
    var s := Run(INITIAL, events).value;
    AddedSize(s.running, s.spawned, Handler(false, false, 0));
  }

  /** From every reachable state with fewer than 100 served, one more can be served without any ending. */
  lemma OneMoreServed(events: seq<Event>) returns (longer: seq<Event>)
    requires Run(INITIAL, events).Some? && |Run(INITIAL, events).value.running| < 100
    ensures events <= longer && Run(INITIAL, longer).Some?
    ensures ServesOneMore(Run(INITIAL, events).value, Run(INITIAL, longer).value)
    ensures Run(INITIAL, longer).value.acceptor == Accepting
  {
    hide Step;
    longer := events;
    ClientTakenOn(longer);
    if Run(INITIAL, longer).value.acceptor.Accepting? {
      longer := Take(longer, Accept);
      ClientTakenOn(longer);
    }
    if Run(INITIAL, longer).value.acceptor.Acquiring? {
      KeepsSpawned(Run(INITIAL, longer).value, Acquire);
      longer := Take(longer, Acquire);
      ClientTakenOn(longer);
    }
    longer := Take(longer, Connect);
  }

  lemma KeepsSpawned(s: State, e: Event)
    requires Step(s, e).Some? && !e.Connect?
    ensures Step(s, e).value.spawned == s.spawned
  {
  }

  lemma {:induction false} ManyServed(n: nat) returns (events: seq<Event>)
    requires n <= 100
    ensures Run(INITIAL, events).Some? && |Run(INITIAL, events).value.running| == n
    ensures Run(INITIAL, events).value.acceptor == Accepting
  {
    if n == 0 {
      events := [];
      SizeIsKeys(INITIAL.running);
    } else {
      events := ManyServed(n - 1);
      events := OneMoreServed(events);
    }
  }

  /** Some run serves exactly 100 connections with 101 clients open, the last of which waits. */
  lemma HundredServed() returns (events: seq<Event>)
    ensures Run(INITIAL, events).Some?
    ensures var s := Run(INITIAL, events).value;
            |s.running| == 100 && OpenClients(s) == 101 && s.acceptor == Acquiring && Step(s, Acquire).None?
  {
    events := ManyServed(100);
    events := Take(events, Accept);
    PermitsConserved(events);
  }

  // ----- The same in place -----

  /** The events of a schedule that are enabled when their turn comes. */
  function Performed(schedule: seq<Event>): (events: seq<Event>)
    ensures Run(INITIAL, events).Some?
    decreases |schedule|
  {
    if schedule == [] then []
    else
      var events, e := Performed(schedule[..|schedule| - 1]), schedule[|schedule| - 1];
      RunSnoc(events, e);
      if Step(Run(INITIAL, events).value, e).Some? then events + [e] else events
  }

  /** The limiter's state as it is updated, one step of one of its parties at a time. */
  class Listener {
    var free: nat
    var acceptor: Acceptor
    var running: map<nat, Handler>
    var spawned: nat

    ghost function Current(): State
      reads this
    {
      State(free, acceptor, running, spawned)
    }

    constructor ()
      ensures Current() == INITIAL
    {
      free, acceptor, running, spawned := MAX_CONCURRENT_CONNECTIONS, Accepting, map[], 0;
    }

    /** Performs one step, if it is enabled. */
    method Perform(e: Event) returns (enabled: bool)
      modifies this
      ensures enabled <==> Step(old(Current()), e).Some?
      ensures if enabled then Step(old(Current()), e) == Some(Current()) else Current() == old(Current())
    {
      enabled := true;
      match e {
        case AcceptFails => enabled := acceptor.Accepting?;
        case Accept =>
          if acceptor.Accepting? { acceptor := Acquiring; } else { enabled := false; }
        case Acquire =>
          if acceptor.Acquiring? && free > 0 { acceptor, free := Connecting, free - 1; } else { enabled := false; }
        case ConnectFails => enabled := GiveUp();
        case ConnectTimesOut => enabled := GiveUp();
        case Connect =>
          if acceptor.Connecting? {
            running, spawned, acceptor := running[spawned := Handler(false, false, 0)], spawned + 1, Accepting;
          } else {
            enabled := false;
          }
        case UpEnds(id) =>
          enabled := id in running && !running[id].upEnded;
          if enabled { running := running[id := running[id].(upEnded := true)]; }
        case DownEnds(id) =>
          enabled := id in running && !running[id].downEnded;
          if enabled { running := running[id := running[id].(downEnded := true)]; }
        case JoinUp(id) =>
          enabled := id in running && running[id].joined == 0 && running[id].upEnded;
          if enabled { running := running[id := running[id].(joined := 1)]; }
        case JoinDown(id) =>
          enabled := id in running && running[id].joined == 1 && running[id].downEnded;
          if enabled { running := running[id := running[id].(joined := 2)]; }
        case Release(id) =>
          enabled := id in running && running[id].joined == 2;
          if enabled { running, free := running - {id}, free + 1; }
      }
    }

    /** Drops the client and the permit when the origin cannot be reached in time. */
    method GiveUp() returns (held: bool)
      modifies this
      ensures held <==> DropPermit(old(Current())).Some?
      ensures if held then DropPermit(old(Current())) == Some(Current()) else Current() == old(Current())
    {
      held := acceptor.Connecting?;
      if held {
        acceptor, free := Accepting, free + 1;
      }
    }

    /** Performs a schedule from the start, skipping exactly what is not enabled when its turn comes.
        What is performed is a run of the step system, and permits are conserved throughout. */
    method PerformAll(schedule: seq<Event>)
      requires Current() == INITIAL
      modifies this
      ensures Run(INITIAL, Performed(schedule)) == Some(Current())
      ensures Conserved(Current()) && |running| <= MAX_CONCURRENT_CONNECTIONS
    {
      for i := 0 to |schedule|
        invariant Run(INITIAL, Performed(schedule[..i])) == Some(Current())
      {
        assert schedule[..i + 1][..i] == schedule[..i];
        RunSnoc(Performed(schedule[..i]), schedule[i]);
        var _ := Perform(schedule[i]);
      }
      assert schedule[..|schedule|] == schedule;
      PermitsConserved(Performed(schedule));
    }
  }
}

/** URL bases and the substitution of one base for the other in a body. */
module Rewriting {
  import opened Bytes
  import opened Numbers

  // ----- URL bases (TCPProxy::new) -----

  /** Characters that occur in the text of an IPv4 or IPv6 address. */
  predicate IsAddressByte(c: Byte)
  {
    '0' <= c <= '9' || 'a' <= c <= 'f' || c == '.' || c == ':'
  }

  /** An address as its `Display` text (at most 45 characters for IPv6). */
  predicate IsAddress(ip: seq<Byte>)
  {
    0 < |ip| <= 45 && forall i :: 0 <= i < |ip| ==> IsAddressByte(ip[i])
  }

  type Address = ip: seq<Byte> | IsAddress(ip) witness ['0']

  type Port = n: nat | n < 0x1_0000

  datatype SocketAddr = SocketAddr(ip: Address, port: Port)

  /** `format!("http://{}:{}", ip, port)`. */
  function UrlBase(addr: SocketAddr): (base: seq<Byte>)
    ensures base != []
  {
    "http://" + addr.ip + ":" + Print(addr.port, 10)
  }

  /** The shape all arguments about rewriting rest on: the first octet occurs nowhere else. */
  predicate Headed(p: seq<Byte>)
  {
    p != [] && forall i :: 0 < i < |p| ==> p[i] != p[0]
  }

  /** A URL base begins with its only `h` and is at most 102 octets long. */
  lemma UrlBaseShape(addr: SocketAddr)
    ensures Headed(UrlBase(addr)) && UrlBase(addr)[0] == 'h' && |UrlBase(addr)| <= 102
  {
    var digits, base := Print(addr.port, 10), UrlBase(addr);
    PrintLength(addr.port);
    var n := 7 + |addr.ip|;
    assert base[0] == 'h';
    forall i | 0 < i < |base| ensures base[i] != 'h' {
      if i < 7 {
        assert base[i] == "http://"[i];
      } else if i < n {
        assert base[i] == addr.ip[i - 7];
      } else if i == n {
        assert base[i] == ':';
      } else {
        assert base[i] == digits[i - n - 1];
      }
    }
  }

  lemma {:induction false} PrintLength(n: nat)
    ensures |Print(n, 10)| <= 1 + n
    ensures n < 0x1_0000 ==> |Print(n, 10)| <= 5
  {
    if n >= 10 {
      PrintLength(n / 10);
      if n >= 100 { PrintLength(n / 100); assert n / 10 / 10 == n / 100; }
      if n >= 1000 { PrintLength(n / 1000); assert n / 100 / 10 == n / 1000; }
      if n >= 10000 { assert n / 1000 / 10 == n / 10000; }
    }
  }

  // ----- Substitution (str::replace) -----

  /** Leftmost, non-overlapping replacement of `from` by `to`. */
  function Replace(s: seq<Byte>, from: seq<Byte>, to: seq<Byte>): seq<Byte>
    requires from != []
  {
    if s == [] then []
    else if from <= s then to + Replace(s[|from|..], from, to)
    else [s[0]] + Replace(s[1..], from, to)
  }

  /** Number of positions of `s` at which `p` occurs, overlaps included. */
  function Occurrences(s: seq<Byte>, p: seq<Byte>): nat
  {
    if s == [] then 0 else (if p <= s then 1 else 0) + Occurrences(s[1..], p)
  }

  predicate NeitherPrefix(a: seq<Byte>, b: seq<Byte>) { !(a <= b) && !(b <= a) }

  /** Octets that cannot begin `p` carry no occurrence of `p`. */
  lemma {:induction false} SkipHeadless(w: seq<Byte>, s: seq<Byte>, p: seq<Byte>)
    requires p != [] && forall i :: 0 <= i < |w| ==> w[i] != p[0]
    ensures Contains(w + s, p) <==> Contains(s, p)
    ensures Occurrences(w + s, p) == Occurrences(s, p)
  {
    if w == [] {
      assert w + s == s;
    } else {
      assert (w + s)[0] == w[0] && (w + s)[1..] == w[1..] + s;
      SkipHeadless(w[1..], s, p);
    }
  }

  /** An original stretch that `to` cannot begin in is original in the replaced text too:
      a prefix of the output free of `to`'s first octet was a prefix of the input. */
  lemma {:induction false} Peel(w: seq<Byte>, s: seq<Byte>, from: seq<Byte>, to: seq<Byte>)
    requires from != [] && to != []
    requires forall i :: 0 <= i < |w| ==> w[i] != to[0]
    requires w <= Replace(s, from, to)
    ensures w <= s
  {
    assert from <= s ==> Replace(s, from, to)[0] == to[0];
    if w != [] {
      assert Replace(s, from, to)[1..] == Replace(s[1..], from, to);
      Peel(w[1..], s[1..], from, to);
      assert w == [s[0]] + w[1..] && s == [s[0]] + s[1..];
    }
  }

  /** The same for a base `p`: the scan has kept `s[0]`, so the base was there before. */
  lemma PeelBase(p: seq<Byte>, s: seq<Byte>, from: seq<Byte>, to: seq<Byte>)
    requires s != [] && from != [] && to != [] && Headed(p) && p[0] == to[0]
    ensures p <= [s[0]] + Replace(s[1..], from, to) ==> p <= s
  {
    var r := [s[0]] + Replace(s[1..], from, to);
    if p <= r {
      assert r[1..] == Replace(s[1..], from, to);
      Peel(p[1..], s[1..], from, to);
      assert p == [s[0]] + p[1..] && s == [s[0]] + s[1..];
    }
  }

  lemma PrefixOfConcat(p: seq<Byte>, a: seq<Byte>, rest: seq<Byte>)
    requires p <= a + rest
    ensures p <= a || a <= p
  {
    if |p| <= |a| {
      assert p == (a + rest)[..|p|] == a[..|p|];
    } else {
      assert a == (a + rest)[..|a|] == p[..|a|];
    }
  }

  /** Completeness for all bodies: with neither base a prefix of the other, no occurrence survives. */
  lemma {:induction false} ReplaceComplete(s: seq<Byte>, from: seq<Byte>, to: seq<Byte>)
    requires Headed(from) && Headed(to) && from[0] == to[0] && NeitherPrefix(from, to)
    ensures !Contains(Replace(s, from, to), from)
    decreases |s|
  {
    var r := Replace(s, from, to);
    if s == [] {
    } else if from <= s {
      var rest := Replace(s[|from|..], from, to);
      ReplaceComplete(s[|from|..], from, to);
      assert r[1..] == to[1..] + rest;
      SkipHeadless(to[1..], rest, from);
      if from <= to + rest { PrefixOfConcat(from, to, rest); }
    } else {
      ReplaceComplete(s[1..], from, to);
      assert r[1..] == Replace(s[1..], from, to);
      PeelBase(from, s, from, to);
    }
  }

  /** Nothing to replace, nothing replaced. */
  lemma {:induction false} ReplaceAbsent(s: seq<Byte>, from: seq<Byte>, to: seq<Byte>)
    requires from != [] && !Contains(s, from)
    ensures Replace(s, from, to) == s
  {
    if s != [] { ReplaceAbsent(s[1..], from, to); }
  }

  /** A second pass changes nothing. */
  lemma ReplaceIdempotent(s: seq<Byte>, from: seq<Byte>, to: seq<Byte>)
    requires Headed(from) && Headed(to) && from[0] == to[0] && NeitherPrefix(from, to)
    ensures Replace(Replace(s, from, to), from, to) == Replace(s, from, to)
  {
    ReplaceComplete(s, from, to);
    ReplaceAbsent(Replace(s, from, to), from, to);
  }

  /** One step of the scan. */
  lemma ReplaceStep(s: seq<Byte>, from: seq<Byte>, to: seq<Byte>)
    requires from != [] && s != []
    ensures from <= s ==> Replace(s, from, to) == to + Replace(s[|from|..], from, to) && s == from + s[|from|..]
    ensures !(from <= s) ==> Replace(s, from, to) == [s[0]] + Replace(s[1..], from, to) && s == [s[0]] + s[1..]
  {
  }

  lemma {:induction false} ReplaceBySelf(s: seq<Byte>, p: seq<Byte>)
    requires p != []
    ensures Replace(s, p, p) == s
    decreases |s|
  {
    if s != [] {
      ReplaceStep(s, p, p);
      hide Replace;
      ReplaceBySelf(if p <= s then s[|p|..] else s[1..], p);
    }
  }

  /** A second pass changes nothing, for every body, exactly when neither base is a prefix of the
      other or they are the same. */
  lemma ReplaceIdempotentIff(from: seq<Byte>, to: seq<Byte>)
    requires Headed(from) && Headed(to) && from[0] == to[0]
    ensures (forall s :: Replace(Replace(s, from, to), from, to) == Replace(s, from, to))
       <==> NeitherPrefix(from, to) || from == to
  {
    if NeitherPrefix(from, to) || from == to {
      forall s ensures Replace(Replace(s, from, to), from, to) == Replace(s, from, to) {
        if from == to { ReplaceBySelf(s, from); } else { ReplaceIdempotent(s, from, to); }
      }
    } else if from <= to {
      var tail := to[|from|..];
      AppendNothing(from);
      AppendNothing(to);
      ReplaceOnce(from, [], from, to);
      ReplaceOnce(to, tail, from, to);
      assert Replace(Replace(from, from, to), from, to) == to + tail != to;
    } else {
      var tail := from[|to|..];
      AppendNothing(from);
      AppendNothing(to);
      ReplaceOnce(from + tail, tail, from, to);
      ReplaceOnce(from, [], from, to);
      assert Replace(from + tail, from, to) == from && Replace(from, from, to) == to != from;
    }
  }

  /** Rewriting removes the origin base from every body exactly when neither base is a
      prefix of the other. */
  lemma ReplaceCompleteIff(from: seq<Byte>, to: seq<Byte>)
    requires Headed(from) && Headed(to) && from[0] == to[0]
    ensures (forall s :: !Contains(Replace(s, from, to), from)) <==> NeitherPrefix(from, to)
  {
    hide Contains, Replace, LeftBehind, NeitherPrefix;
    if NeitherPrefix(from, to) {
      forall s ensures !Contains(Replace(s, from, to), from) {
        ReplaceComplete(s, from, to);
      }
    } else {
      var s := LeftBehind(from, to);
      LeavesOrigin(from, to);
      assert Contains(Replace(s, from, to), from);
    }
  }

  /** When one base is a prefix of the other, this text keeps the origin base when it is rewritten. */
  function LeftBehind(from: seq<Byte>, to: seq<Byte>): (s: seq<Byte>)
    ensures |from| <= |s| <= 2 * |from| && forall c :: c in s ==> c in from
  {
    if from <= to then from else from + if to <= from then from[|to|..] else []
  }

  lemma LeavesOrigin(from: seq<Byte>, to: seq<Byte>)
    requires Headed(from) && Headed(to) && from[0] == to[0] && !NeitherPrefix(from, to)
    ensures Contains(Replace(LeftBehind(from, to), from, to), from)
  {
    if from <= to {
      ReplaceOnce(from, [], from, to);
      AppendNothing(to);
    } else {
      var tail := from[|to|..];
      ReplaceOnce(from + tail, tail, from, to);
      assert to + tail == from;
    }
  }

  /** One match at the front, none in a remainder that lacks the first octet. */
  lemma ReplaceOnce(s: seq<Byte>, tail: seq<Byte>, from: seq<Byte>, to: seq<Byte>)
    requires from != [] && s == from + tail
    requires forall i :: 0 <= i < |tail| ==> tail[i] != from[0]
    ensures Replace(s, from, to) == to + tail
  {
    SkipHeadless(tail, [], from);
    assert tail + [] == tail && s[|from|..] == tail;
    ReplaceAbsent(tail, from, to);
  }

  /** Every proxy base of the text is the beginning of an origin base there. */
  predicate Covered(s: seq<Byte>, from: seq<Byte>, to: seq<Byte>)
  {
    s == [] || ((to <= s ==> from <= s) && Covered(s[1..], from, to))
  }

  /** The same without the recursion: at every position. */
  lemma {:induction false} CoveredIff(s: seq<Byte>, from: seq<Byte>, to: seq<Byte>)
    requires to != []
    ensures Covered(s, from, to) <==> forall i :: 0 <= i <= |s| && to <= s[i..] ==> from <= s[i..]
  {
    assert s[0..] == s;
    if s != [] {
      CoveredIff(s[1..], from, to);
      forall i | 0 < i <= |s| ensures s[i..] == s[1..][i - 1..] {}
      forall i | 0 <= i <= |s[1..]| ensures s[1..][i..] == s[i + 1..] {}
    }
  }

  lemma {:induction false} CoveredSkip(w: seq<Byte>, s: seq<Byte>, from: seq<Byte>, to: seq<Byte>)
    requires to != [] && forall i :: 0 <= i < |w| ==> w[i] != to[0]
    ensures Covered(w + s, from, to) <==> Covered(s, from, to)
  {
    if w == [] {
      NothingBefore(s);
    } else {
      assert (w + s)[0] == w[0] && (w + s)[1..] == w[1..] + s;
      CoveredSkip(w[1..], s, from, to);
    }
  }

  /** Rewriting loses nothing of a body exactly when each of its proxy bases is covered, whatever
      the prefix relation between the bases. */
  lemma {:induction false} ReplaceRecovers(s: seq<Byte>, from: seq<Byte>, to: seq<Byte>)
    requires Headed(from) && Headed(to) && from[0] == to[0]
    ensures Replace(Replace(s, from, to), to, from) == s <==> Covered(s, from, to)
    decreases |s|
  {
    if s == [] {
    } else if from <= s {
      RecoverMatch(s, s[|from|..], from, to);
      ReplaceRecovers(s[|from|..], from, to);
    } else if to <= s {
      LoseUncovered(s, s[|to|..], from, to);
    } else {
      PeelBase(to, s, from, to);
      ReplaceRecovers(s[1..], from, to);
      RecoverKept(s, from, to);
    }
  }

  lemma RecoverMatch(s: seq<Byte>, rest: seq<Byte>, from: seq<Byte>, to: seq<Byte>)
    requires Headed(from) && Headed(to) && from[0] == to[0] && from <= s && rest == s[|from|..]
    ensures Replace(Replace(s, from, to), to, from) == s <==> Replace(Replace(rest, from, to), to, from) == rest
    ensures Covered(s, from, to) <==> Covered(rest, from, to)
  {
    var r := Replace(rest, from, to);
    assert Replace(s, from, to) == to + r && (to + r)[|to|..] == r;
    assert Replace(to + r, to, from) == from + Replace(r, to, from);
    assert s == from + rest && s[1..] == from[1..] + rest;
    SamePrefix(from, Replace(r, to, from), rest);
    CoveredSkip(from[1..], rest, from, to);
  }

  lemma SamePrefix(a: seq<Byte>, b: seq<Byte>, c: seq<Byte>)
    ensures a + b == a + c <==> b == c
  {
    assert (a + b)[|a|..] == b && (a + c)[|a|..] == c;
  }

  lemma LoseUncovered(s: seq<Byte>, rest: seq<Byte>, from: seq<Byte>, to: seq<Byte>)
    requires Headed(from) && Headed(to) && from[0] == to[0] && !(from <= s) && to <= s && rest == s[|to|..]
    ensures Replace(Replace(s, from, to), to, from) != s && !Covered(s, from, to)
  {
    var r := Replace(rest, from, to);
    assert s == to + rest && s[1..] == to[1..] + rest;
    ReplaceHeadless(to[1..], rest, from, to);
    assert to == [to[0]] + to[1..];
    ConcatAssoc([to[0]], to[1..], r);
    FrontReplaced(to, r, from);
  }

  lemma FrontReplaced(p: seq<Byte>, rest: seq<Byte>, to: seq<Byte>)
    requires p != []
    ensures Replace(p + rest, p, to) == to + Replace(rest, p, to)
  {
    assert (p + rest)[|p|..] == rest;
  }

  lemma RecoverKept(s: seq<Byte>, from: seq<Byte>, to: seq<Byte>)
    requires from != [] && to != [] && s != [] && !(from <= s) && !(to <= s)
    requires !(to <= [s[0]] + Replace(s[1..], from, to))
    ensures Replace(Replace(s, from, to), to, from) == s <==>
            Replace(Replace(s[1..], from, to), to, from) == s[1..]
    ensures Covered(s, from, to) <==> Covered(s[1..], from, to)
  {
    var r := Replace(s[1..], from, to);
    assert ([s[0]] + r)[1..] == r;
    SamePrefix([s[0]], Replace(r, to, from), s[1..]);
    assert s == [s[0]] + s[1..];
  }

  lemma {:induction false} CoveredWhenAbsent(s: seq<Byte>, from: seq<Byte>, to: seq<Byte>)
    requires !Contains(s, to)
    ensures Covered(s, from, to)
  {
    if s != [] { CoveredWhenAbsent(s[1..], from, to); }
  }

  /** In particular a body free of the proxy base is recovered. */
  lemma ReplaceInverse(s: seq<Byte>, from: seq<Byte>, to: seq<Byte>)
    requires Headed(from) && Headed(to) && from[0] == to[0] && !Contains(s, to)
    ensures Replace(Replace(s, from, to), to, from) == s
  {
    CoveredWhenAbsent(s, from, to);
    ReplaceRecovers(s, from, to);
  }

  /** Every body is recovered exactly when the origin base is a prefix of the proxy base. */
  lemma ReplaceAlwaysRecovers(from: seq<Byte>, to: seq<Byte>)
    requires Headed(from) && Headed(to) && from[0] == to[0]
    ensures (forall s :: Replace(Replace(s, from, to), to, from) == s) <==> from <= to
  {
    if from <= to {
      forall s ensures Replace(Replace(s, from, to), to, from) == s {
        forall i | 0 <= i <= |s| && to <= s[i..] ensures from <= s[i..] {}
        CoveredIff(s, from, to);
        ReplaceRecovers(s, from, to);
      }
    } else {
      ReplaceRecovers(to, from, to);
      assert to <= to && !Covered(to, from, to);
    }
  }

  /** When neither base is a prefix of the other, going there and back is the same as
      turning every proxy base of the body into an origin base ... */
  lemma {:induction false} ReplaceThereAndBack(s: seq<Byte>, from: seq<Byte>, to: seq<Byte>)
    requires Headed(from) && Headed(to) && from[0] == to[0] && NeitherPrefix(from, to)
    ensures Replace(Replace(s, from, to), to, from) == Replace(s, to, from)
    decreases |s|
  {
    var r := Replace(s, from, to);
    if s == [] {
    } else if from <= s {
      var rest := s[|from|..];
      ReplaceThereAndBack(rest, from, to);
      assert r[|to|..] == Replace(rest, from, to);
      ReplaceOther(s, from, rest, to, from);
    } else if to <= s {
      var rest := s[|to|..];
      assert s == to + rest;
      ReplaceOther(s, to, rest, from, to);
      assert r[|to|..] == Replace(rest, from, to);
      ReplaceThereAndBack(rest, from, to);
    } else {
      ReplaceThereAndBack(s[1..], from, to);
      assert r[1..] == Replace(s[1..], from, to);
      PeelBase(to, s, from, to);
    }
  }

  /** A leading `kept` is untouched by the replacement of a base that is neither a prefix
      nor an extension of it. */
  lemma ReplaceOther(s: seq<Byte>, kept: seq<Byte>, rest: seq<Byte>, from: seq<Byte>, to: seq<Byte>)
    requires Headed(kept) && Headed(from) && kept[0] == from[0] && NeitherPrefix(kept, from)
    requires s == kept + rest
    ensures Replace(s, from, to) == kept + Replace(rest, from, to)
  {
    if from <= s { PrefixOfConcat(from, kept, rest); }
    ReplaceStep(s, from, to);
    hide Replace;
    assert s[1..] == kept[1..] + rest;
    ReplaceHeadless(kept[1..], rest, from, to);
    assert kept == [kept[0]] + kept[1..];
    ConcatAssoc([kept[0]], kept[1..], Replace(rest, from, to));
  }

  lemma {:induction false} ReplaceHeadless(w: seq<Byte>, s: seq<Byte>, from: seq<Byte>, to: seq<Byte>)
    requires from != [] && forall i :: 0 <= i < |w| ==> w[i] != from[0]
    ensures Replace(w + s, from, to) == w + Replace(s, from, to)
  {
    if w == [] {
      assert w + s == s;
    } else {
      assert (w + s)[0] == w[0] && (w + s)[1..] == w[1..] + s;
      ReplaceHeadless(w[1..], s, from, to);
      assert w == [w[0]] + w[1..];
    }
  }

  /** Octets that do not occur in `from` end a match, so a tail of them stays as it is. */
  lemma {:induction false} ReplaceBeforeTail(s: seq<Byte>, tail: seq<Byte>, from: seq<Byte>, to: seq<Byte>)
    requires from != [] && forall c :: c in tail ==> c !in from
    ensures Replace(s + tail, from, to) == Replace(s, from, to) + tail
    decreases |s|
  {
    MatchBeforeTail(s, tail, from);
    if s == [] {
      NothingBefore(tail);
      AppendNothing(tail);
      assert forall i :: 0 <= i < |tail| ==> tail[i] in tail && from[0] in from;
      ReplaceHeadless(tail, [], from, to);
    } else if from <= s {
      assert (s + tail)[|from|..] == s[|from|..] + tail;
      ReplaceBeforeTail(s[|from|..], tail, from, to);
      ConcatAssoc(to, Replace(s[|from|..], from, to), tail);
    } else {
      assert (s + tail)[0] == s[0] && (s + tail)[1..] == s[1..] + tail;
      ReplaceBeforeTail(s[1..], tail, from, to);
      ConcatAssoc([s[0]], Replace(s[1..], from, to), tail);
    }
  }

  lemma MatchBeforeTail(s: seq<Byte>, tail: seq<Byte>, from: seq<Byte>)
    requires from != [] && forall c :: c in tail ==> c !in from
    ensures from <= s + tail <==> from <= s
  {
    assert |s| < |from| <= |s + tail| ==> (s + tail)[|s|] == tail[0] && tail[0] in tail && from[|s|] in from;
  }

  lemma {:induction false} CoveredIsAbsent(s: seq<Byte>, from: seq<Byte>, to: seq<Byte>)
    requires to != [] && NeitherPrefix(from, to)
    ensures Covered(s, from, to) <==> !Contains(s, to)
  {
    if s != [] {
      CoveredIsAbsent(s[1..], from, to);
      assert to <= s && from <= s ==> from <= to || to <= from;
    }
  }

  /** ... so there the body is recovered exactly when it did not contain the proxy base. */
  lemma ReplaceInverseIff(s: seq<Byte>, from: seq<Byte>, to: seq<Byte>)
    requires Headed(from) && Headed(to) && from[0] == to[0] && NeitherPrefix(from, to)
    ensures Replace(Replace(s, from, to), to, from) == s <==> !Contains(s, to)
  {
    ReplaceRecovers(s, from, to);
    CoveredIsAbsent(s, from, to);
  }

  /** `n` times the difference `d`. */
  function Times(n: nat, d: int): int { n * d }

  lemma TimesMore(n: nat, d: int)
    ensures Times(1 + n, d) == d + Times(n, d)
  {
  }

  /** The length changes by the number of occurrences times the difference of the bases. */
  lemma {:induction false} ReplaceLength(s: seq<Byte>, from: seq<Byte>, to: seq<Byte>)
    requires Headed(from)
    ensures |Replace(s, from, to)| == |s| + Times(Occurrences(s, from), |to| - |from|)
    decreases |s|
  {
    hide Times;
    if s == [] {
      NoTimes(|to| - |from|);
    } else if from <= s {
      var rest := s[|from|..];
      ReplaceLength(rest, from, to);
      assert s[1..] == from[1..] + rest;
      SkipHeadless(from[1..], rest, from);
      TimesMore(Occurrences(rest, from), |to| - |from|);
    } else {
      ReplaceLength(s[1..], from, to);
    }
  }

  lemma NoTimes(d: int)
    ensures Times(0, d) == 0
  {
  }

  lemma {:induction false} OccursIff(s: seq<Byte>, p: seq<Byte>)
    requires p != []
    ensures Contains(s, p) <==> Occurrences(s, p) > 0
  {
    if s != [] { OccursIff(s[1..], p); }
  }

  lemma TimesNothing(n: nat, d: int)
    ensures Times(n, d) == 0 <==> n == 0 || d == 0
  {
  }

  /** A text stays as it is exactly when the base does not occur in it, or is replaced by itself. */
  lemma {:induction false} ReplaceFixedIff(s: seq<Byte>, from: seq<Byte>, to: seq<Byte>)
    requires Headed(from)
    ensures Replace(s, from, to) == s <==> from == to || !Contains(s, from)
    decreases |s|
  {
    if from == to {
      ReplaceBySelf(s, from);
    } else if !Contains(s, from) {
      ReplaceAbsent(s, from, to);
    } else if |from| != |to| {
      hide Times;
      OccursIff(s, from);
      ReplaceLength(s, from, to);
      TimesNothing(Occurrences(s, from), |to| - |from|);
    } else if from <= s {
      assert (to + Replace(s[|from|..], from, to))[..|to|] == to && s[..|from|] == from;
    } else {
      ReplaceFixedIff(s[1..], from, to);
      assert s == [s[0]] + s[1..];
      assert ([s[0]] + Replace(s[1..], from, to))[1..] == Replace(s[1..], from, to);
    }
  }

  /** A coarse bound, used to see that rewritten lengths stay in the range of `usize`. */
  lemma {:induction false} ReplaceBound(s: seq<Byte>, from: seq<Byte>, to: seq<Byte>)
    requires from != [] && to != []
    ensures |Replace(s, from, to)| <= |s| * |to|
    ensures s != [] ==> Replace(s, from, to) != []
    decreases |s|
  {
    if s == [] {
    } else if from <= s {
      ReplaceBound(s[|from|..], from, to);
      MulMonotone(1 + (|s| - |from|), |s|, |to|);
    } else {
      ReplaceBound(s[1..], from, to);
      MulMonotone(1 + (|s| - 1), |s|, |to|);
    }
  }

  lemma MulMonotone(a: nat, b: nat, m: nat)
    requires 0 < a <= b
    ensures m + (a - 1) * m == a * m <= b * m
  {
  }

  // ----- When one URL base is a prefix of another -----

  /** One base is a prefix of another exactly when the addresses agree and the digits of one port
      begin the digits of the other, or address and port of the one begin the address of the
      other (possible only with the colons of IPv6, which the base does not bracket). */
  lemma UrlBasePrefixIff(a: SocketAddr, b: SocketAddr)
    ensures UrlBase(a) <= UrlBase(b) <==>
            || (a.ip == b.ip && Print(a.port, 10) <= Print(b.port, 10))
            || a.ip + [':'] + Print(a.port, 10) <= b.ip
  {
    var scheme: seq<Byte> := "http://";
    var da, db := Print(a.port, 10), Print(b.port, 10);
    PortHasNoColon(a.port);
    PortHasNoColon(b.port);
    AfterScheme(scheme, a.ip, da);
    AfterScheme(scheme, b.ip, db);
    SamePrefixLeq(scheme, a.ip + [':'] + da, b.ip + [':'] + db);
    HostPortPrefix(a.ip, da, b.ip, db);
  }

  lemma AfterScheme(scheme: seq<Byte>, ip: seq<Byte>, digits: seq<Byte>)
    ensures scheme + ip + [':'] + digits == scheme + (ip + [':'] + digits)
  {
  }

  lemma SamePrefixLeq(p: seq<Byte>, a: seq<Byte>, b: seq<Byte>)
    ensures p + a <= p + b <==> a <= b
  {
    if a <= b { assert p + b == p + a + b[|a|..]; }
    if p + a <= p + b { assert a == (p + b)[|p|..][..|a|] && (p + b)[|p|..] == b; }
  }

  lemma HostPortPrefix(x: seq<Byte>, dx: seq<Byte>, y: seq<Byte>, dy: seq<Byte>)
    requires ':' !in dx && ':' !in dy
    ensures x + [':'] + dx <= y + [':'] + dy <==> (x == y && dx <= dy) || x + [':'] + dx <= y
  {
    var s, t := x + [':'] + dx, y + [':'] + dy;
    assert s[|x|] == ':' && t[|y|] == ':';
    assert forall i :: |x| < i < |s| ==> s[i] == dx[i - |x| - 1];
    assert forall i :: |y| < i < |t| ==> t[i] == dy[i - |y| - 1];
    if s <= t {
      assert |x| <= |y|;
      if |x| == |y| {
        assert x == t[..|x|] == y;
        SamePrefixLeq(x + [':'], dx, dy);
      } else {
        assert |s| <= |y|;
        assert y == t[..|y|];
      }
    }
    if x == y { SamePrefixLeq(x + [':'], dx, dy); }
    if s <= y { assert t == s + (y[|s|..] + [':'] + dy); }
  }

  lemma PortHasNoColon(n: nat)
    ensures ':' !in Print(n, 10)
  {
    assert DigitValue(':') == 16;
  }

  /** For a proxy configured by socket addresses: no rewritten body contains the origin's base,
      exactly when neither base is a prefix of the other. */
  lemma RewritingHidesOrigin(origin: SocketAddr, proxy: SocketAddr)
    ensures (forall s :: !Contains(Replace(s, UrlBase(origin), UrlBase(proxy)), UrlBase(origin)))
       <==> NeitherPrefix(UrlBase(origin), UrlBase(proxy))
  {
    UrlBaseShape(origin);
    UrlBaseShape(proxy);
    ReplaceCompleteIff(UrlBase(origin), UrlBase(proxy));
  }

  /** The prefix condition is needed: with the proxy on port 800 of the address whose port 80
      is the origin, the rewritten text still contains the origin's base. */
  lemma PrefixWitness()
    ensures exists origin: SocketAddr, proxy: SocketAddr, s ::
              origin != proxy && Contains(Replace(s, UrlBase(origin), UrlBase(proxy)), UrlBase(origin))
  {
    var ip: Address := "10.0.0.1";
    var origin, proxy := SocketAddr(ip, 80), SocketAddr(ip, 800);
    var from, to := UrlBase(origin), UrlBase(proxy);
    UrlBaseShape(origin);
    assert Print(80, 10) == Print(8, 10) + "0" && Print(800, 10) == Print(80, 10) + "0";
    assert to == from + "0";
    ReplaceOnce(from, [], from, to);
    assert Contains(Replace(from, from, to), from);
  }
}

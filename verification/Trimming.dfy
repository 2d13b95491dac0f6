/** `str::trim`: white space in the sense of the Unicode White_Space property, in UTF-8. */
module Trimming {
  import opened Bytes

  predicate IsSpace(c: Byte)
  {
    c == ' ' || '\t' <= c <= '\r'
  }

  /** One white space character. */
  predicate IsWhite(c: seq<Byte>)
  {
    || (|c| == 1 && IsSpace(c[0]))
    || (|c| == 2 && c[0] == '\U{C2}' && (c[1] == '\U{85}' || c[1] == '\U{A0}'))
    || (|c| == 3 && IsWideWhite(c[0], c[1], c[2]))
  }

  /** U+1680, U+2000 to U+200A, U+2028, U+2029, U+202F, U+205F and U+3000. */
  predicate IsWideWhite(a: Byte, b: Byte, c: Byte)
  {
    || (a == '\U{E1}' && b == '\U{9A}' && c == '\U{80}')
    || (a == '\U{E2}' && b == '\U{80}' && ('\U{80}' <= c <= '\U{8A}' || c in {'\U{A8}', '\U{A9}', '\U{AF}'}))
    || (a == '\U{E2}' && b == '\U{81}' && c == '\U{9F}')
    || (a == '\U{E3}' && b == '\U{80}' && c == '\U{80}')
  }

  /** Length of the white space character at the front, 0 if there is none. */
  function WhiteFront(s: seq<Byte>): (w: nat)
    ensures w <= |s|
  {
    if 1 <= |s| && IsWhite(s[..1]) then 1
    else if 2 <= |s| && IsWhite(s[..2]) then 2
    else if 3 <= |s| && IsWhite(s[..3]) then 3
    else 0
  }

  /** Length of the white space character at the back, 0 if there is none. */
  function WhiteBack(s: seq<Byte>): (w: nat)
    ensures w <= |s|
  {
    var n := |s|;
    if 1 <= n && IsWhite(s[n - 1..]) then 1
    else if 2 <= n && IsWhite(s[n - 2..]) then 2
    else if 3 <= n && IsWhite(s[n - 3..]) then 3
    else 0
  }

  function TrimStart(s: seq<Byte>): seq<Byte>
    decreases |s|
  {
    if WhiteFront(s) == 0 then s else TrimStart(s[WhiteFront(s)..])
  }

  function TrimEnd(s: seq<Byte>): seq<Byte>
    decreases |s|
  {
    if WhiteBack(s) == 0 then s else TrimEnd(s[..|s| - WhiteBack(s)])
  }

  function Trim(s: seq<Byte>): seq<Byte> { TrimEnd(TrimStart(s)) }

  // ----- Trimming removes exactly the white space at both ends -----

  predicate AllWhite(cs: seq<seq<Byte>>)
  {
    forall i :: 0 <= i < |cs| ==> IsWhite(cs[i])
  }

  function Flatten(cs: seq<seq<Byte>>): seq<Byte>
  {
    if cs == [] then [] else cs[0] + Flatten(cs[1..])
  }

  lemma {:induction false} FlattenSnoc(cs: seq<seq<Byte>>, c: seq<Byte>)
    ensures Flatten(cs + [c]) == Flatten(cs) + c
  {
    if cs == [] {
      assert cs + [c] == [c] && [c][1..] == [];
      AppendNothing(c);
      NothingBefore(c);
    } else {
      assert (cs + [c])[1..] == cs[1..] + [c];
      FlattenSnoc(cs[1..], c);
      ConcatAssoc(cs[0], Flatten(cs[1..]), c);
    }
  }

  lemma WhiteInFront(c: seq<Byte>, s: seq<Byte>)
    requires IsWhite(c)
    ensures WhiteFront(c + s) == |c| && (c + s)[|c|..] == s
  {
    assert (c + s)[..|c|] == c;
  }

  lemma WhiteAtBack(s: seq<Byte>, c: seq<Byte>)
    requires IsWhite(c)
    ensures WhiteBack(s + c) == |c| && (s + c)[..|s|] == s
  {
    assert (s + c)[|s|..] == c;
  }

  lemma {:induction false} TrimStartWhite(lead: seq<seq<Byte>>, rest: seq<Byte>)
    requires AllWhite(lead) && WhiteFront(rest) == 0
    ensures TrimStart(Flatten(lead) + rest) == rest
  {
    if lead == [] {
      NothingBefore(rest);
    } else {
      ConcatAssoc(lead[0], Flatten(lead[1..]), rest);
      WhiteInFront(lead[0], Flatten(lead[1..]) + rest);
      TrimStartWhite(lead[1..], rest);
    }
  }

  lemma {:induction false} TrimEndWhite(core: seq<Byte>, trail: seq<seq<Byte>>)
    requires AllWhite(trail) && WhiteBack(core) == 0
    ensures TrimEnd(core + Flatten(trail)) == core
    decreases |trail|
  {
    if trail == [] {
      AppendNothing(core);
    } else {
      var init, last := trail[..|trail| - 1], trail[|trail| - 1];
      assert trail == init + [last];
      FlattenSnoc(init, last);
      ConcatAssoc(core, Flatten(init), last);
      WhiteAtBack(core + Flatten(init), last);
      TrimEndWhite(core, init);
    }
  }

  /** White space behind a text does not make white space in front of it. */
  lemma FrontOfCore(core: seq<Byte>, trail: seq<seq<Byte>>)
    requires core != [] && WhiteFront(core) == 0 && AllWhite(trail)
    ensures WhiteFront(core + Flatten(trail)) == 0
  {
    var t := Flatten(trail);
    if trail != [] { assert t[0] == trail[0][0]; }
    assert t != [] ==> t[0] < '\U{80}' || t[0] in {'\U{C2}', '\U{E1}', '\U{E2}', '\U{E3}'};
    var s := core + t;
    assert s[..1] == core[..1];
    if 2 <= |core| { assert s[..2] == core[..2]; }
    if 3 <= |core| { assert s[..3] == core[..3]; }
  }

  lemma {:induction false} FlattenConcat(a: seq<seq<Byte>>, b: seq<seq<Byte>>)
    ensures Flatten(a) + Flatten(b) == Flatten(a + b)
  {
    if a == [] {
      NothingBefore(Flatten(b));
      assert a + b == b;
    } else {
      assert (a + b)[1..] == a[1..] + b;
      FlattenConcat(a[1..], b);
      ConcatAssoc(a[0], Flatten(a[1..]), Flatten(b));
    }
  }

  /** White space only: nothing remains. */
  lemma TrimWhite(lead: seq<seq<Byte>>, trail: seq<seq<Byte>>)
    requires AllWhite(lead) && AllWhite(trail)
    ensures Trim(Flatten(lead) + [] + Flatten(trail)) == []
  {
    AppendNothing(Flatten(lead));
    FlattenConcat(lead, trail);
    AppendNothing(Flatten(lead + trail));
    TrimStartWhite(lead + trail, []);
  }

  /** A core that neither starts nor ends with white space, be it empty, is what remains of it
      between any white space characters. */
  lemma TrimCore(lead: seq<seq<Byte>>, core: seq<Byte>, trail: seq<seq<Byte>>)
    requires AllWhite(lead) && AllWhite(trail)
    requires WhiteFront(core) == 0 && WhiteBack(core) == 0
    ensures Trim(Flatten(lead) + core + Flatten(trail)) == core
  {
    if core == [] {
      TrimWhite(lead, trail);
    } else {
      ConcatAssoc(Flatten(lead), core, Flatten(trail));
      FrontOfCore(core, trail);
      TrimStartWhite(lead, core + Flatten(trail));
      TrimEndWhite(core, trail);
    }
  }

  // ----- The ASCII case -----

  function Singles(s: seq<Byte>): (cs: seq<seq<Byte>>)
    ensures |cs| == |s| && forall i :: 0 <= i < |s| ==> cs[i] == [s[i]]
  {
    seq(|s|, i requires 0 <= i < |s| => [s[i]])
  }

  lemma {:induction false} FlattenSingles(s: seq<Byte>)
    ensures Flatten(Singles(s)) == s
  {
    if s != [] {
      assert Singles(s)[1..] == Singles(s[1..]);
      FlattenSingles(s[1..]);
    }
  }

  predicate IsGraphic(c: Byte) { c < '\U{80}' && !IsSpace(c) }

  lemma TrimAscii(lead: seq<Byte>, core: seq<Byte>, trail: seq<Byte>)
    requires forall c :: c in lead || c in trail ==> IsSpace(c)
    requires core != [] && IsGraphic(core[0]) && IsGraphic(core[|core| - 1])
    ensures Trim(lead + core + trail) == core
  {
    FlattenSingles(lead);
    FlattenSingles(trail);
    assert forall i :: 0 <= i < |lead| ==> lead[i] in lead;
    assert forall i :: 0 <= i < |trail| ==> trail[i] in trail;
    TrimCore(Singles(lead), core, Singles(trail));
  }
}

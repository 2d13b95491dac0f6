/** `String::from_utf8_lossy`: every maximal ill-formed subsequence becomes U+FFFD.
    Well-formedness is Table 3-7 of the Unicode Standard. */
module Utf8 {
  import opened Bytes

  /** UTF-8 form of U+FFFD. */
  const REPLACEMENT: seq<Byte> := ['\U{EF}', '\U{BF}', '\U{BD}']

  predicate IsAscii(c: Byte) { c < '\U{80}' }

  predicate IsContinuation(c: Byte) { '\U{80}' <= c <= '\U{BF}' }

  /** Octet `i` of `s`; past the end a NUL, which continues nothing. */
  function At(s: seq<Byte>, i: nat): Byte { if i < |s| then s[i] else '\0' }

  /** Number of octets a lead octet announces, 0 for an octet that leads nothing. */
  function Width(lead: Byte): (w: nat)
    ensures w <= 4
  {
    if IsAscii(lead) then 1
    else if '\U{C2}' <= lead <= '\U{DF}' then 2
    else if '\U{E0}' <= lead <= '\U{EF}' then 3
    else if '\U{F0}' <= lead <= '\U{F4}' then 4
    else 0
  }

  /** Whether `second` may follow `lead`: no overlong forms, no surrogates, nothing above U+10FFFF. */
  predicate SecondFits(lead: Byte, second: Byte)
  {
    if lead == '\U{E0}' then '\U{A0}' <= second <= '\U{BF}'
    else if lead == '\U{ED}' then '\U{80}' <= second <= '\U{9F}'
    else if lead == '\U{F0}' then '\U{90}' <= second <= '\U{BF}'
    else if lead == '\U{F4}' then '\U{80}' <= second <= '\U{8F}'
    else IsContinuation(second)
  }

  /** How many leading octets of `s` one decoding step takes, and whether they are a
      well-formed character (otherwise they are a maximal ill-formed subsequence). */
  datatype Piece = Piece(len: nat, wellFormed: bool)

  function NextPiece(s: seq<Byte>): (p: Piece)
    requires s != []
    ensures 1 <= p.len <= |s| && p.len <= 4
    ensures p.wellFormed ==> forall i :: 0 < i < p.len ==> IsContinuation(s[i])
    ensures p.wellFormed ==> p.len == Width(s[0])
    ensures forall i :: 0 < i < p.len ==> IsContinuation(s[i])
    ensures !p.wellFormed ==> !IsAscii(s[0])
  {
    var w := Width(s[0]);
    if w == 0 then Piece(1, false)
    else if w == 1 then Piece(1, true)
    else if !SecondFits(s[0], At(s, 1)) then Piece(1, false)
    else if w == 2 then Piece(2, true)
    else if !IsContinuation(At(s, 2)) then Piece(2, false)
    else if w == 3 then Piece(3, true)
    else if !IsContinuation(At(s, 3)) then Piece(3, false)
    else Piece(4, true)
  }

  function Lossy(s: seq<Byte>): (r: seq<Byte>)
    ensures |r| <= 3 * |s|
    ensures s != [] ==> r != []
  {
    if s == [] then []
    else
      PieceText(s) + Lossy(s[NextPiece(s).len..])
  }

  /** What the first piece of `s` decodes to. */
  function PieceText(s: seq<Byte>): (r: seq<Byte>)
    requires s != []
    ensures 0 < |r| <= 3 * NextPiece(s).len
  {
    var p := NextPiece(s);
    if p.wellFormed then s[..p.len] else REPLACEMENT
  }

  /** Well-formed UTF-8. */
  predicate Valid(s: seq<Byte>)
  {
    s == [] || (NextPiece(s).wellFormed && Valid(s[NextPiece(s).len..]))
  }

  /** A decoding step never crosses a place where an ASCII octet begins. */
  lemma PieceBeforeAscii(s: seq<Byte>, rest: seq<Byte>)
    requires s != [] && (rest == [] || IsAscii(rest[0]))
    ensures NextPiece(s + rest) == NextPiece(s)
  {
    var t := s + rest;
    assert forall i: nat :: i < |s| ==> At(t, i) == At(s, i);
    assert forall i: nat :: i == |s| ==> !IsContinuation(At(t, i)) && !IsContinuation(At(s, i))
                                         && !SecondFits(s[0], At(t, i)) && !SecondFits(s[0], At(s, i));
  }

  /** Decoding splits wherever an ASCII octet begins, in particular after every LF. */
  lemma {:induction false} LossyAtAscii(s: seq<Byte>, rest: seq<Byte>)
    requires rest == [] || IsAscii(rest[0])
    ensures Lossy(s + rest) == Lossy(s) + Lossy(rest)
    decreases |s|
  {
    hide NextPiece;
    if s == [] {
      assert s + rest == rest;
    } else {
      PieceBeforeAscii(s, rest);
      var n := NextPiece(s).len;
      SplitConcat(s, rest, n);
      LossyAtAscii(s[n..], rest);
      ConcatAssoc(PieceText(s), Lossy(s[n..]), Lossy(rest));
    }
  }

  lemma SplitConcat(s: seq<Byte>, rest: seq<Byte>, n: nat)
    requires n <= |s|
    ensures (s + rest)[..n] == s[..n] && (s + rest)[n..] == s[n..] + rest
  {
  }

  lemma {:induction false} LossyAscii(s: seq<Byte>)
    requires forall c :: c in s ==> IsAscii(c)
    ensures Lossy(s) == s
  {
    if s != [] {
      assert NextPiece(s) == Piece(1, true);
      LossyAscii(s[1..]);
    }
  }

  /** A well-formed first character is recognised whatever follows it. */
  lemma PieceStable(c: seq<Byte>, rest: seq<Byte>)
    requires c != [] && NextPiece(c) == Piece(|c|, true)
    ensures NextPiece(c + rest) == Piece(|c|, true)
  {
    assert forall i: nat :: i < |c| ==> At(c + rest, i) == At(c, i);
  }

  lemma PieceAlone(s: seq<Byte>)
    requires s != [] && NextPiece(s).wellFormed
    ensures var c := s[..NextPiece(s).len]; NextPiece(c) == Piece(|c|, true)
  {
    var c := s[..NextPiece(s).len];
    assert forall i: nat :: i < |c| ==> At(c, i) == At(s, i);
  }

  lemma {:induction false} LossyIsValid(s: seq<Byte>)
    ensures Valid(Lossy(s))
    decreases |s|
  {
    if s != [] {
      var p := NextPiece(s);
      var c := if p.wellFormed then s[..p.len] else REPLACEMENT;
      if p.wellFormed { PieceAlone(s); }
      PieceStable(c, Lossy(s[p.len..]));
      assert (c + Lossy(s[p.len..]))[|c|..] == Lossy(s[p.len..]);
      LossyIsValid(s[p.len..]);
    }
  }

  lemma ReplacementIsWellFormed(s: seq<Byte>)
    requires s != []
    ensures REPLACEMENT <= s ==> NextPiece(s).wellFormed
  {
    if REPLACEMENT <= s {
      assert s[0] == REPLACEMENT[0] && At(s, 1) == REPLACEMENT[1] && At(s, 2) == REPLACEMENT[2];
    }
  }

  /** Decoding changes nothing exactly when the octets are well-formed UTF-8. */
  lemma {:induction false} LossyIdentityIff(s: seq<Byte>)
    ensures Lossy(s) == s <==> Valid(s)
    decreases |s|
  {
    if s != [] {
      var p := NextPiece(s);
      LossyIdentityIff(s[p.len..]);
      assert s == s[..p.len] + s[p.len..];
      if p.wellFormed {
        assert Lossy(s)[p.len..] == Lossy(s[p.len..]);
      } else {
        ReplacementIsWellFormed(s);
        assert REPLACEMENT <= Lossy(s);
      }
    }
  }

  lemma LossyIdempotent(s: seq<Byte>)
    ensures Lossy(Lossy(s)) == Lossy(s)
  {
    LossyIsValid(s);
    LossyIdentityIff(Lossy(s));
  }

  lemma {:induction false} LossyKeepsAbsence(s: seq<Byte>, c: Byte)
    requires c !in s && IsAscii(c)
    ensures c !in Lossy(s)
    decreases |s|
  {
    if s != [] {
      LossyKeepsAbsence(s[NextPiece(s).len..], c);
    }
  }

  /** A text that decodes to ASCII was ASCII. */
  lemma {:induction false} AsciiOnlyFromAscii(s: seq<Byte>)
    requires forall i :: 0 <= i < |Lossy(s)| ==> IsAscii(Lossy(s)[i])
    ensures Lossy(s) == s
    decreases |s|
  {
    if s != [] {
      var rest := Lossy(s[NextPiece(s).len..]);
      assert IsAscii(Lossy(s)[0]);
      assert NextPiece(s) == Piece(1, true) && Lossy(s) == s[..1] + rest;
      forall i | 0 <= i < |rest| ensures IsAscii(rest[i]) {
        assert rest[i] == Lossy(s)[i + 1];
      }
      AsciiOnlyFromAscii(s[1..]);
    }
  }

  lemma LossyLf(rest: seq<Byte>)
    ensures Lossy(['\n'] + rest) == ['\n'] + Lossy(rest)
  {
    var s := ['\n'] + rest;
    assert NextPiece(s) == Piece(1, true);
    assert s[..1] == ['\n'] && s[1..] == rest;
  }

  lemma LossyAroundLf(x: seq<Byte>, rest: seq<Byte>)
    ensures Lossy(x + ['\n'] + rest) == Lossy(x) + ['\n'] + Lossy(rest)
  {
    hide Lossy;
    ConcatAssoc(x, ['\n'], rest);
    LossyAtAscii(x, ['\n'] + rest);
    LossyLf(rest);
    ConcatAssoc(Lossy(x), ['\n'], Lossy(rest));
  }

  /** A complete line decodes to a complete line. */
  lemma LossyLine(line: seq<Byte>)
    requires IsLine(line)
    ensures Lossy(line) == Lossy(line[..|line| - 1]) + ['\n']
    ensures IsLine(Lossy(line))
  {
    hide Lossy;
    var x := line[..|line| - 1];
    assert line == x + ['\n'];
    LossyAtAscii(x, ['\n']);
    LossyAscii(['\n']);
    LossyKeepsAbsence(x, '\n');
    LineOf(Lossy(x));
  }

  lemma LineOf(x: seq<Byte>)
    requires '\n' !in x
    ensures IsLine(x + ['\n'])
  {
    assert (x + ['\n'])[..|x|] == x;
  }

  /** Decoding neither makes nor hides a blank line. */
  lemma LossyBlank(line: seq<Byte>)
    ensures IsBlank(Lossy(line)) <==> IsBlank(line)
  {
    if IsBlank(line) {
      LossyAscii(line);
    } else if IsBlank(Lossy(line)) {
      AsciiOnlyFromAscii(line);
    }
  }
}

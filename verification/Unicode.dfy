/** The Unicode characters behind the octets: UTF-8 as an encoding of scalar values (section 3.9 of the
    Unicode Standard), what lossy decoding replaces, and which characters are white space. */
module Unicode {
  import opened Bytes
  import opened Utf8
  import opened Trimming

  /** Unicode scalar values: all code points but the surrogates. */
  predicate IsScalar(cp: nat) { cp <= 0x10FFFF && !(0xD800 <= cp <= 0xDFFF) }

  function Octet(n: nat): (c: Byte)
    requires n < 256
    ensures c as int == n
  {
    n as char
  }

  /** The continuation octet with the six bits of `n` from its value `unit` on. */
  function Tail(n: nat, unit: nat): (c: Byte)
    requires 0 < unit
    ensures IsContinuation(c) && c as int == 0x80 + n / unit % 64
  {
    Octet(0x80 + n / unit % 64)
  }

  /** The UTF-8 form of a character. */
  function Encode(cp: nat): (e: seq<Byte>)
    requires IsScalar(cp)
    ensures 1 <= |e| <= 4
  {
    if cp < 0x80 then [Octet(cp)]
    else if cp < 0x800 then [Octet(0xC0 + cp / 64), Tail(cp, 1)]
    else if cp < 0x10000 then [Octet(0xE0 + cp / 4096), Tail(cp, 64), Tail(cp, 1)]
    else [Octet(0xF0 + cp / 262144), Tail(cp, 4096), Tail(cp, 64), Tail(cp, 1)]
  }

  function EncodeAll(cps: seq<nat>): seq<Byte>
    requires AllScalar(cps)
  {
    if cps == [] then [] else Encode(cps[0]) + EncodeAll(cps[1..])
  }

  predicate AllScalar(cps: seq<nat>) { forall i :: 0 <= i < |cps| ==> IsScalar(cps[i]) }

  // ----- A character is one piece -----

  lemma SixBits(n: nat)
    ensures n / 64 % 64 == n / 64 - 64 * (n / 4096)
    ensures n / 4096 % 64 == n / 4096 - 64 * (n / 262144)
  {
  }

  lemma EncodeShape(cp: nat)
    requires IsScalar(cp)
    ensures var e := Encode(cp);
            && Width(e[0]) == |e| && (|e| > 1 ==> SecondFits(e[0], e[1]))
            && forall i :: 0 < i < |e| ==> IsContinuation(e[i])
  {
    SixBits(cp);
  }

  lemma EncodeIsPiece(cp: nat, s: seq<Byte>)
    requires IsScalar(cp)
    ensures NextPiece(Encode(cp) + s) == Piece(|Encode(cp)|, true)
    ensures (Encode(cp) + s)[..|Encode(cp)|] == Encode(cp) && (Encode(cp) + s)[|Encode(cp)|..] == s
  {
    hide Encode;
    var e := Encode(cp);
    EncodeShape(cp);
    assert forall i: nat :: i < |e| ==> At(e + s, i) == e[i];
  }

  /** Lossy decoding keeps every character, in front of anything. */
  lemma CharacterKept(cp: nat, s: seq<Byte>)
    requires IsScalar(cp)
    ensures Lossy(Encode(cp) + s) == Encode(cp) + Lossy(s)
    ensures Valid(Encode(cp) + s) <==> Valid(s)
  {
    hide NextPiece, Encode;
    EncodeIsPiece(cp, s);
  }

  // ----- A well-formed piece is a character -----

  function Bits(c: Byte): int { c as int - 0x80 }

  lemma OneOctet(s: seq<Byte>) returns (cp: nat)
    requires s != [] && IsAscii(s[0])
    ensures IsScalar(cp) && Encode(cp) == [s[0]]
  {
    cp := s[0] as int;
  }

  lemma TwoOctets(s: seq<Byte>) returns (cp: nat)
    requires |s| == 2 && Width(s[0]) == 2 && IsContinuation(s[1])
    ensures IsScalar(cp) && Encode(cp) == s
  {
    cp := (s[0] as int - 0xC0) * 64 + Bits(s[1]);
    assert cp / 64 == s[0] as int - 0xC0 && cp % 64 == Bits(s[1]);
  }

  lemma ThreeOctets(s: seq<Byte>) returns (cp: nat)
    requires |s| == 3 && Width(s[0]) == 3 && SecondFits(s[0], s[1]) && IsContinuation(s[1]) && IsContinuation(s[2])
    ensures IsScalar(cp) && Encode(cp) == s
  {
    cp := (s[0] as int - 0xE0) * 4096 + Bits(s[1]) * 64 + Bits(s[2]);
    assert cp / 4096 == s[0] as int - 0xE0;
    assert cp / 64 == (s[0] as int - 0xE0) * 64 + Bits(s[1]) && cp / 64 % 64 == Bits(s[1]);
    assert cp % 64 == Bits(s[2]);
  }

  lemma FourOctets(s: seq<Byte>) returns (cp: nat)
    requires |s| == 4 && Width(s[0]) == 4 && SecondFits(s[0], s[1])
    requires IsContinuation(s[1]) && IsContinuation(s[2]) && IsContinuation(s[3])
    ensures IsScalar(cp) && Encode(cp) == s
  {
    cp := (s[0] as int - 0xF0) * 262144 + Bits(s[1]) * 4096 + Bits(s[2]) * 64 + Bits(s[3]);
    assert cp / 262144 == s[0] as int - 0xF0;
    assert cp / 4096 == (s[0] as int - 0xF0) * 64 + Bits(s[1]) && cp / 4096 % 64 == Bits(s[1]);
    assert cp / 64 == ((s[0] as int - 0xF0) * 64 + Bits(s[1])) * 64 + Bits(s[2]) && cp / 64 % 64 == Bits(s[2]);
    assert cp % 64 == Bits(s[3]);
  }

  lemma SecondContinues(lead: Byte, second: Byte)
    requires SecondFits(lead, second)
    ensures IsContinuation(second)
  {
  }

  lemma PieceIsCharacter(s: seq<Byte>) returns (cp: nat)
    requires s != [] && NextPiece(s).wellFormed
    ensures IsScalar(cp) && s[..NextPiece(s).len] == Encode(cp)
  {
    hide Encode;
    var c := s[..NextPiece(s).len];
    if |c| == 1 { cp := OneOctet(s); }
    else if |c| == 2 { cp := TwoOctets(c); }
    else if |c| == 3 { cp := ThreeOctets(c); }
    else { cp := FourOctets(c); }
  }

  /** Well-formed UTF-8 is exactly what encodes a sequence of characters. */
  lemma {:induction false} ValidIff(s: seq<Byte>)
    ensures Valid(s) <==> exists cps :: AllScalar(cps) && s == EncodeAll(cps)
    decreases |s|
  {
    if s == [] {
      assert AllScalar([]) && s == EncodeAll([]);
    } else {
      if Valid(s) {
        var cps := Characters(s);
      }
      if cps :| AllScalar(cps) && s == EncodeAll(cps) {
        EncodedIsValid(cps);
      }
    }
  }

  lemma {:induction false} Characters(s: seq<Byte>) returns (cps: seq<nat>)
    requires Valid(s)
    ensures AllScalar(cps) && s == EncodeAll(cps)
    decreases |s|
  {
    hide NextPiece, Encode;
    if s == [] {
      cps := [];
    } else {
      var cp := PieceIsCharacter(s);
      var more := Characters(s[NextPiece(s).len..]);
      cps := [cp] + more;
      assert cps[1..] == more;
    }
  }

  lemma {:induction false} EncodedIsValid(cps: seq<nat>)
    requires AllScalar(cps)
    ensures Valid(EncodeAll(cps))
  {
    hide NextPiece, Encode;
    if cps != [] {
      EncodedIsValid(cps[1..]);
      CharacterKept(cps[0], EncodeAll(cps[1..]));
    }
  }

  // ----- What is replaced -----

  lemma ReplacementIs()
    ensures IsScalar(0xFFFD) && REPLACEMENT == Encode(0xFFFD)
  {
  }

  /** `s` begins like some character. */
  ghost predicate BeginsCharacter(s: seq<Byte>)
  {
    exists cp :: IsScalar(cp) && s <= Encode(cp)
  }

  lemma Pad(c: seq<Byte>, w: nat) returns (cp: nat)
    requires 2 <= |c| <= w && Width(c[0]) == w && 3 <= w && SecondFits(c[0], c[1])
    requires forall i :: 2 <= i < |c| ==> IsContinuation(c[i])
    ensures IsScalar(cp) && c <= Encode(cp)
  {
    hide Encode;
    SecondContinues(c[0], c[1]);
    var t := c + seq(w - |c|, _ => '\U{80}');
    if w == 3 { cp := ThreeOctets(t); } else { cp := FourOctets(t); }
  }

  lemma BeginningShape(p: seq<Byte>, cp: nat)
    requires IsScalar(cp) && p != [] && p <= Encode(cp)
    ensures |p| <= Width(p[0]) && (|p| >= 2 ==> SecondFits(p[0], p[1]))
    ensures forall i :: 0 < i < |p| ==> IsContinuation(p[i])
  {
    hide Encode;
    EncodeShape(cp);
  }

  /** An ill-formed piece, which becomes one U+FFFD, is as long a beginning of a character as there is,
      or a single octet that begins none. */
  lemma IllFormedPiece(s: seq<Byte>)
    requires s != [] && !NextPiece(s).wellFormed
    ensures var n := NextPiece(s).len;
            && (n > 1 ==> BeginsCharacter(s[..n]))
            && (forall m :: n < m <= |s| ==> !BeginsCharacter(s[..m]))
            && (forall cp :: IsScalar(cp) ==> !(Encode(cp) <= s))
  {
    hide Encode;
    var n := NextPiece(s).len;
    if n > 1 {
      var cp := Pad(s[..n], Width(s[0]));
    }
    forall m, cp | n < m <= |s| && IsScalar(cp) ensures !(s[..m] <= Encode(cp)) {
      NotLonger(s, m, cp);
    }
    forall cp | IsScalar(cp) ensures !(Encode(cp) <= s) {
      NoCharacter(s, cp);
    }
  }

  lemma NotLonger(s: seq<Byte>, m: nat, cp: nat)
    requires s != [] && !NextPiece(s).wellFormed && NextPiece(s).len < m <= |s| && IsScalar(cp)
    ensures !(s[..m] <= Encode(cp))
  {
    hide Encode;
    var p := s[..m];
    assert forall i: nat :: i < m ==> p[i] == At(s, i);
    if p <= Encode(cp) {
      BeginningShape(p, cp);
    }
  }

  lemma NoCharacter(s: seq<Byte>, cp: nat)
    requires s != [] && !NextPiece(s).wellFormed && IsScalar(cp)
    ensures !(Encode(cp) <= s)
  {
    hide Encode, NextPiece;
    if Encode(cp) <= s {
      var rest := s[|Encode(cp)|..];
      assert s == Encode(cp) + rest;
      EncodeIsPiece(cp, rest);
    }
  }

  /** One decoding step: a character is kept, an ill-formed piece becomes U+FFFD. */
  lemma DecodingStep(s: seq<Byte>)
    requires s != []
    ensures var p := NextPiece(s);
            Lossy(s) == (if p.wellFormed then s[..p.len] else Encode(0xFFFD)) + Lossy(s[p.len..])
  {
    ReplacementIs();
  }

  // ----- White space -----

  /** The property White_Space of the Unicode Character Database. */
  predicate HasWhiteSpace(cp: nat)
  {
    || 0x9 <= cp <= 0xD || cp == 0x20 || cp == 0x85 || cp == 0xA0 || cp == 0x1680
    || 0x2000 <= cp <= 0x200A || cp == 0x2028 || cp == 0x2029 || cp == 0x202F || cp == 0x205F || cp == 0x3000
  }

  lemma WhiteScalar(cp: nat)
    requires HasWhiteSpace(cp)
    ensures IsScalar(cp) && IsWhite(Encode(cp))
  {
  }

  /** Trimming removes exactly the characters with that property. */
  lemma WhiteIff(c: seq<Byte>)
    ensures IsWhite(c) <==> exists cp: nat :: HasWhiteSpace(cp) && IsScalar(cp) && c == Encode(cp)
  {
    if IsWhite(c) {
      var cp := WhiteCharacter(c);
    }
    if cp: nat :| HasWhiteSpace(cp) && IsScalar(cp) && c == Encode(cp) {
      WhiteScalar(cp);
    }
  }

  lemma WhiteCharacter(c: seq<Byte>) returns (cp: nat)
    requires IsWhite(c)
    ensures HasWhiteSpace(cp) && IsScalar(cp) && c == Encode(cp)
  {
    if |c| == 1 { cp := c[0] as int; }
    else if |c| == 2 { cp := 0x80 + Bits(c[1]); }
    else { cp := (c[0] as int - 0xE0) * 4096 + Bits(c[1]) * 64 + Bits(c[2]); }
  }
}

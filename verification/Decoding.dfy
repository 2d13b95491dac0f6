/** What lossy decoding does to a body and a header block on the rewrite route: when does the
    client get the origin's own octets, with nothing but the URL bases and the length changed? */
module Decoding {
  import opened Bytes
  import opened Numbers
  import opened Utf8
  import opened Rewriting
  import opened Headers

  predicate AllAscii(p: seq<Byte>)
  {
    forall i :: 0 <= i < |p| ==> IsAscii(p[i])
  }

  lemma UrlBaseAscii(addr: SocketAddr)
    ensures AllAscii(UrlBase(addr))
  {
    var digits, scheme: seq<Byte> := Print(addr.port, 10), "http://";
    DecimalDigits(addr.port);
    assert AllAscii(scheme) && AllAscii(addr.ip) && AllAscii([':']);
    assert forall i :: 0 <= i < |digits| ==> digits[i] in digits;
    assert AllAscii(digits);
    AsciiConcat(scheme, addr.ip);
    AsciiConcat(scheme + addr.ip, [':']);
    AsciiConcat(scheme + addr.ip + [':'], digits);
  }

  lemma AsciiConcat(a: seq<Byte>, b: seq<Byte>)
    requires AllAscii(a) && AllAscii(b)
    ensures AllAscii(a + b)
  {
  }

  // ----- Bodies -----

  /** Text in front of anything decodes to itself. */
  lemma {:induction false} AsciiFront(p: seq<Byte>, s: seq<Byte>)
    requires AllAscii(p)
    ensures Lossy(p + s) == p + Lossy(s) && (Valid(p + s) <==> Valid(s))
  {
    if p == [] {
      NothingBefore(s);
      NothingBefore(Lossy(s));
    } else {
      assert NextPiece([p[0]] + (p[1..] + s)) == Piece(1, true);
      PieceDecodes([p[0]], p[1..] + s);
      hide Lossy, Valid, NextPiece;
      assert p == [p[0]] + p[1..];
      ConcatAssoc([p[0]], p[1..], s);
      AsciiFront(p[1..], s);
      ConcatAssoc([p[0]], p[1..], Lossy(s));
    }
  }

  /** Decoding neither makes nor destroys an ASCII text at the front. */
  lemma {:induction false} AsciiPrefixDecodes(p: seq<Byte>, s: seq<Byte>)
    requires AllAscii(p)
    ensures p <= Lossy(s) <==> p <= s
  {
    if p != [] && s != [] {
      if IsAscii(s[0]) {
        assert NextPiece(s) == Piece(1, true);
        assert Lossy(s)[0] == s[0] && Lossy(s)[1..] == Lossy(s[1..]);
        AsciiPrefixDecodes(p[1..], s[1..]);
        PrefixCons(p, s);
        PrefixCons(p, Lossy(s));
      } else {
        assert Lossy(s)[0] == PieceText(s)[0];
      }
    }
  }

  lemma PrefixCons(p: seq<Byte>, s: seq<Byte>)
    requires p != [] && s != []
    ensures p <= s <==> p[0] == s[0] && p[1..] <= s[1..]
  {
    assert p == [p[0]] + p[1..] && s == [s[0]] + s[1..];
  }

  /** A decoding step looks at one octet beyond its piece at most. */
  lemma PieceLocal(c: seq<Byte>, x: seq<Byte>, y: seq<Byte>)
    requires c != [] && NextPiece(c + x).len == |c|
    requires (x == [] <==> y == []) && (x != [] ==> x[0] == y[0])
    ensures NextPiece(c + y) == NextPiece(c + x)
  {
    assert forall i: nat :: i < |c| ==> At(c + y, i) == At(c + x, i) == c[i];
    assert At(c + y, |c|) == At(c + x, |c|);
  }

  /** Replacement keeps the first octet. */
  lemma ReplaceHeadKept(s: seq<Byte>, from: seq<Byte>, to: seq<Byte>)
    requires from != [] && to != [] && from[0] == to[0]
    ensures Replace(s, from, to) == [] <==> s == []
    ensures s != [] ==> Replace(s, from, to)[0] == s[0]
  {
  }

  lemma PieceBeyondAscii(s: seq<Byte>)
    requires s != [] && !IsAscii(s[0])
    ensures forall i :: 0 <= i < NextPiece(s).len ==> !IsAscii(s[i])
    ensures forall i :: 0 <= i < |PieceText(s)| ==> !IsAscii(PieceText(s)[i])
  {
  }

  /** Replacing one ASCII base by another and decoding may be done in either order, and the
      replacement makes no text out of what was none. */
  lemma {:induction false} ReplaceDecodes(s: seq<Byte>, from: seq<Byte>, to: seq<Byte>)
    requires AllAscii(from) && AllAscii(to) && from != [] && to != [] && from[0] == to[0]
    ensures Replace(Lossy(s), from, to) == Lossy(Replace(s, from, to))
    ensures Valid(Replace(s, from, to)) <==> Valid(s)
    decreases |s|
  {
    AsciiPrefixDecodes(from, s);
    if s == [] {
    } else if from <= s {
      DecodesMatch(s, s[|from|..], from, to);
      ReplaceDecodes(s[|from|..], from, to);
    } else if IsAscii(s[0]) {
      DecodesAscii(s, from, to);
      ReplaceDecodes(s[1..], from, to);
    } else {
      var n := NextPiece(s).len;
      DecodesPiece(s, n, from, to);
      ReplaceDecodes(s[n..], from, to);
    }
  }

  lemma DecodesMatch(s: seq<Byte>, rest: seq<Byte>, from: seq<Byte>, to: seq<Byte>)
    requires AllAscii(from) && AllAscii(to) && from != [] && from <= s && rest == s[|from|..]
    ensures Replace(Lossy(s), from, to) == to + Replace(Lossy(rest), from, to)
    ensures Lossy(Replace(s, from, to)) == to + Lossy(Replace(rest, from, to))
    ensures Valid(s) <==> Valid(rest)
    ensures Valid(Replace(s, from, to)) <==> Valid(Replace(rest, from, to))
  {
    assert s == from + rest;
    AsciiFront(from, rest);
    AsciiFront(to, Replace(rest, from, to));
    assert (from + Lossy(rest))[|from|..] == Lossy(rest);
  }

  lemma DecodesAscii(s: seq<Byte>, from: seq<Byte>, to: seq<Byte>)
    requires AllAscii(from) && from != [] && s != [] && IsAscii(s[0]) && !(from <= s) && !(from <= Lossy(s))
    ensures Replace(Lossy(s), from, to) == [s[0]] + Replace(Lossy(s[1..]), from, to)
    ensures Lossy(Replace(s, from, to)) == [s[0]] + Lossy(Replace(s[1..], from, to))
    ensures Valid(s) <==> Valid(s[1..])
    ensures Valid(Replace(s, from, to)) <==> Valid(Replace(s[1..], from, to))
  {
    assert s == [s[0]] + s[1..];
    AsciiFront([s[0]], s[1..]);
    AsciiFront([s[0]], Replace(s[1..], from, to));
    assert ([s[0]] + Lossy(s[1..]))[1..] == Lossy(s[1..]);
  }

  lemma DecodesPiece(s: seq<Byte>, n: nat, from: seq<Byte>, to: seq<Byte>)
    requires AllAscii(from) && from != [] && to != [] && from[0] == to[0]
    requires s != [] && !IsAscii(s[0]) && n == NextPiece(s).len
    ensures Replace(Lossy(s), from, to) == PieceText(s) + Replace(Lossy(s[n..]), from, to)
    ensures Lossy(Replace(s, from, to)) == PieceText(s) + Lossy(Replace(s[n..], from, to))
    ensures Valid(s) <==> NextPiece(s).wellFormed && Valid(s[n..])
    ensures Valid(Replace(s, from, to)) <==> NextPiece(s).wellFormed && Valid(Replace(s[n..], from, to))
  {
    hide Replace, NextPiece;
    var c, rest := s[..n], s[n..];
    var r := Replace(rest, from, to);
    assert s == c + rest;
    PieceBeyondAscii(s);
    ReplaceHeadless(c, rest, from, to);
    ReplaceHeadless(PieceText(s), Lossy(rest), from, to);
    ReplaceHeadKept(rest, from, to);
    PieceLocal(c, rest, r);
    PieceDecodes(c, rest);
    PieceDecodes(c, r);
  }

  /** One decoding step. */
  lemma PieceDecodes(c: seq<Byte>, rest: seq<Byte>)
    requires c != [] && NextPiece(c + rest).len == |c|
    ensures PieceText(c + rest) == if NextPiece(c + rest).wellFormed then c else REPLACEMENT
    ensures Lossy(c + rest) == PieceText(c + rest) + Lossy(rest)
    ensures Valid(c + rest) <==> NextPiece(c + rest).wellFormed && Valid(rest)
  {
    hide NextPiece;
    assert (c + rest)[..|c|] == c && (c + rest)[|c|..] == rest;
  }

  /** The rewritten body is the origin's own with its bases replaced, octet for octet, exactly when
      the body is UTF-8. */
  lemma RewrittenOctets(body: seq<Byte>, from: seq<Byte>, to: seq<Byte>)
    requires AllAscii(from) && AllAscii(to) && from != [] && to != [] && from[0] == to[0]
    ensures Replace(Lossy(body), from, to) == Replace(body, from, to) <==> Valid(body)
  {
    ReplaceDecodes(body, from, to);
    LossyIdentityIff(Replace(body, from, to));
  }

  /** An `e` with an acute accent in Latin-1: no URL in it, and it does not survive. */
  lemma Latin1Witness(from: seq<Byte>, to: seq<Byte>)
    requires from != [] && AllAscii(from)
    ensures !Valid(['\U{E9}']) && Lossy(['\U{E9}']) == REPLACEMENT
    ensures Replace(Lossy(['\U{E9}']), from, to) == REPLACEMENT != ['\U{E9}'] == Replace(['\U{E9}'], from, to)
  {
    var body: seq<Byte> := ['\U{E9}'];
    assert NextPiece(body) == Piece(1, false) && body[1..] == [];
    AppendNothing(REPLACEMENT);
    assert Lossy(body) == REPLACEMENT;
    ReplaceHeadless(REPLACEMENT, [], from, to);
    AppendNothing(body);
    ReplaceHeadless(body, [], from, to);
  }

  // ----- Header blocks -----

  lemma LowerPiece(s: seq<Byte>)
    requires s != []
    ensures NextPiece(Lower(s)) == NextPiece(s)
  {
    var l := Lower(s);
    assert forall c: Byte :: !IsAscii(c) ==> LowerByte(c) == c;
    assert forall i: nat :: At(l, i) == LowerByte(At(s, i));
  }

  /** Lower-casing and decoding may be done in either order. */
  lemma {:induction false} LowerDecodes(s: seq<Byte>)
    ensures Lower(Lossy(s)) == Lossy(Lower(s))
    decreases |s|
  {
    if s == [] {
      assert Lower([]) == [];
    } else {
      var n := NextPiece(s).len;
      LowerPiece(s);
      assert Lower(s)[..n] == Lower(s[..n]) && Lower(s)[n..] == Lower(s[n..]);
      assert Lower(REPLACEMENT) == REPLACEMENT;
      LowerDecodes(s[n..]);
      LowerConcat(PieceText(s), Lossy(s[n..]));
    }
  }

  lemma LowerConcat(a: seq<Byte>, b: seq<Byte>)
    ensures Lower(a + b) == Lower(a) + Lower(b)
  {
  }

  /** Decoding does not change whether a line is a Content-Length line. */
  lemma LengthDecodes(x: seq<Byte>)
    ensures IsContentLength(Lossy(x)) == IsContentLength(x)
  {
    hide Lossy, Lower;
    LowerDecodes(x);
    AsciiName(CONTENT_LENGTH);
    AsciiPrefixDecodes(CONTENT_LENGTH, Lower(x));
  }

  lemma AsciiName(p: seq<Byte>)
    requires p == CONTENT_LENGTH
    ensures AllAscii(p)
  {
  }

  lemma {:induction false} LossyLast(s: seq<Byte>)
    requires s != []
    ensures IsAscii(s[|s| - 1]) ==> Lossy(s)[|Lossy(s)| - 1] == s[|s| - 1]
    ensures !IsAscii(s[|s| - 1]) ==> !IsAscii(Lossy(s)[|Lossy(s)| - 1])
    decreases |s|
  {
    hide NextPiece;
    var n := NextPiece(s).len;
    if n == |s| {
      LastPiece(s);
    } else {
      LossyLast(s[n..]);
    }
  }

  lemma LastPiece(s: seq<Byte>)
    requires s != [] && NextPiece(s).len == |s|
    ensures Lossy(s) == PieceText(s)
    ensures IsAscii(s[|s| - 1]) ==> PieceText(s) == [s[|s| - 1]]
    ensures !IsAscii(s[|s| - 1]) ==> !IsAscii(PieceText(s)[|PieceText(s)| - 1])
  {
    AppendNothing(PieceText(s));
    if !IsAscii(s[0]) { PieceBeyondAscii(s); }
  }

  /** Decoding and removing the line ending may be done in either order. */
  lemma StripEolDecodes(line: seq<Byte>)
    requires IsLine(line)
    ensures StripEol(Lossy(line)) == Lossy(StripEol(line))
  {
    hide Lossy;
    var y := line[..|line| - 1];
    LossyLine(line);
    SnocInit(Lossy(y), '\n');
    if y == [] {
      LossyAscii([]);
    } else {
      LossyLast(y);
      if y[|y| - 1] == '\r' {
        DecodeInit(y);
      }
    }
  }

  lemma SnocInit(a: seq<Byte>, c: Byte)
    ensures (a + [c])[..|a + [c]| - 1] == a && (a + [c])[|a|] == c
  {
  }

  lemma DecodeInit(y: seq<Byte>)
    requires y != [] && y[|y| - 1] == '\r'
    ensures Lossy(y) == Lossy(y[..|y| - 1]) + ['\r'] && Lossy(y)[..|Lossy(y)| - 1] == Lossy(y[..|y| - 1])
  {
    hide Lossy;
    var x := y[..|y| - 1];
    assert y == x + ['\r'];
    LossyAtAscii(x, ['\r']);
    LossyAscii(['\r']);
    SnocInit(Lossy(x), '\r');
  }

  function LossyLines(lines: seq<seq<Byte>>): (r: seq<seq<Byte>>)
    ensures |r| == |lines|
    ensures forall i :: 0 <= i < |lines| ==> r[i] == Lossy(lines[i])
  {
    seq(|lines|, i requires 0 <= i < |lines| => Lossy(lines[i]))
  }

  /** Decoding and splitting a text of complete lines may be done in either order. */
  lemma {:induction false} LinesDecode(s: seq<Byte>)
    requires s == [] || s[|s| - 1] == '\n'
    ensures Lines(Lossy(s)) == LossyLines(Lines(s))
    decreases |s|
  {
    hide Lossy, StripEol, LineEnd;
    if s == [] {
      LossyAscii(s);
    } else {
      var line, after := FirstLine(s), AfterLine(s);
      FirstOfMany(s);
      LossyLine(line);
      LossyAfterLine(line, after);
      LinesCons(Lossy(line), Lossy(after));
      StripEolDecodes(line);
      LinesDecode(after);
      LossyLinesCons(StripEol(line), Lines(after));
    }
  }

  lemma FirstOfMany(s: seq<Byte>)
    requires s != [] && s[|s| - 1] == '\n'
    ensures IsLine(FirstLine(s)) && FirstLine(s) + AfterLine(s) == s
    ensures AfterLine(s) == [] || AfterLine(s)[|AfterLine(s)| - 1] == '\n'
  {
    FirstLineIsLine(s);
    assert s[|s| - 1] in s;
  }

  lemma LossyLinesCons(line: seq<Byte>, more: seq<seq<Byte>>)
    ensures LossyLines([line] + more) == [Lossy(line)] + LossyLines(more)
  {
    hide Lossy;
  }

  /** Every line but the Content-Length ones is UTF-8. */
  predicate KeptLinesValid(head: seq<Byte>)
  {
    forall i :: 0 <= i < |Lines(head)| ==> IsContentLength(Lines(head)[i]) || Valid(Lines(head)[i])
  }

  /** The updated header is the origin's own with its length replaced exactly when the other lines
      are UTF-8. */
  lemma UpdatedOctets(head: seq<Byte>, n: nat)
    requires head == [] || head[|head| - 1] == '\n'
    ensures Updated(Lossy(head), n) == Updated(head, n) <==> KeptLinesValid(head)
  {
    hide Lossy, UpdateLine, IsContentLength, Valid, Lines, Join;
    var lines := Lines(head);
    LinesDecode(head);
    UpdatedLines(head, n);
    UpdatedLines(Lossy(head), n);
    forall i | 0 <= i < |lines|
      ensures UpdateLine(LossyLines(lines)[i], n) == UpdateLine(lines[i], n) <==>
              IsContentLength(lines[i]) || Valid(lines[i])
    {
      UpdateLineDecodes(lines[i], n);
    }
    SameLines(LossyLines(lines), lines, n);
  }

  lemma UpdateLineDecodes(x: seq<Byte>, n: nat)
    ensures UpdateLine(Lossy(x), n) == UpdateLine(x, n) <==> IsContentLength(x) || Valid(x)
  {
    hide Lossy, IsContentLength, Valid, PrintedLine;
    LengthDecodes(x);
    LossyIdentityIff(x);
  }

  lemma SameLines(a: seq<seq<Byte>>, b: seq<seq<Byte>>, n: nat)
    requires |a| == |b|
    ensures UpdateLines(a, n) == UpdateLines(b, n) <==>
            forall i :: 0 <= i < |a| ==> UpdateLine(a[i], n) == UpdateLine(b[i], n)
  {
    hide UpdateLine;
    var x, y := UpdateLines(a, n), UpdateLines(b, n);
    if x == y {
      forall i | 0 <= i < |a| ensures UpdateLine(a[i], n) == UpdateLine(b[i], n) {
        assert x[i] == y[i];
      }
    }
  }
}

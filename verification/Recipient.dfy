/** Header blocks that frame a response after section 6.3 of RFC 9112, without reference to how the
    proxy reads them: the proxy's scan agrees, and what the proxy makes of them is framed so again. */
module Recipient {
  import opened Bytes
  import opened Numbers
  import opened Utf8
  import opened Trimming
  import opened Rewriting
  import opened Headers
  import opened Decoding
  import opened Connection
  import opened Refinement

  // ----- Field lines -----

  predicate IsOws(s: seq<Byte>) { forall i :: 0 <= i < |s| ==> s[i] == ' ' || s[i] == '\t' }

  /** `Content-Length` with the value `n` (section 8.6 of RFC 9110): digits only. */
  ghost predicate IsLength(x: seq<Byte>, n: nat)
  {
    IsContentLength(x) && exists i: nat, j: nat :: LengthAt(x, n, i, j)
  }

  predicate LengthAt(x: seq<Byte>, n: nat, i: nat, j: nat)
  {
    && |CONTENT_LENGTH| <= i < j <= |x|
    && IsOws(x[|CONTENT_LENGTH|..i]) && IsOws(x[j..])
    && AllDigits(x[i..j], 10) && Value(x[i..j], 10) == n
  }

  predicate IsTransferEncoding(x: seq<Byte>) { TRANSFER_ENCODING <= Lower(x) }

  /** A Transfer-Encoding line whose final coding is `chunked` (section 6.1 of RFC 9112). */
  ghost predicate EndsChunked(x: seq<Byte>)
  {
    && IsTransferEncoding(x) && AllAscii(x)
    && exists i: nat :: ChunkedAt(x, i)
  }

  predicate ChunkedAt(x: seq<Byte>, i: nat)
  {
    && |TRANSFER_ENCODING| <= i <= |x| - |CHUNKED|
    && (i == |TRANSFER_ENCODING| || x[i - 1] == ',' || IsOws([x[i - 1]]))
    && Lower(x)[i..i + |CHUNKED|] == CHUNKED && IsOws(x[i + |CHUNKED|..])
  }

  /** A Transfer-Encoding line that does not name `chunked`. */
  predicate NamesOthers(x: seq<Byte>)
  {
    IsTransferEncoding(x) && AllAscii(x) && !Contains(Lower(x), CHUNKED)
  }

  predicate SomeLength(lines: seq<seq<Byte>>) { exists i :: 0 <= i < |lines| && IsContentLength(lines[i]) }

  predicate SomeEncoding(lines: seq<seq<Byte>>) { exists i :: 0 <= i < |lines| && IsTransferEncoding(lines[i]) }

  predicate IsLastEncoding(lines: seq<seq<Byte>>, i: nat)
  {
    i < |lines| && IsTransferEncoding(lines[i]) && forall j :: i < j < |lines| ==> !IsTransferEncoding(lines[j])
  }

  /** How field lines frame a response (section 6.3 of RFC 9112): all Content-Length lines are valid
      and agree; and either the last transfer coding is `chunked`, or none is, and then the body extends
      to the end of the connection if there is any coding at all. A length next to such codings, which no
      sender may send, and a `chunked` that is not the last coding are not admitted. */
  ghost predicate Frames(lines: seq<seq<Byte>>, f: Framing)
  {
    && (f.contentLength.Some? <==> SomeLength(lines))
    && (f.contentLength.Some? ==> f.contentLength.value <= USIZE_MAX && AllLengths(lines, f.contentLength.value))
    && if f.chunked then
         SomeEncoding(lines) && forall i :: 0 <= i < |lines| && IsLastEncoding(lines, i) ==> EndsChunked(lines[i])
       else
         && (SomeEncoding(lines) ==> f.contentLength.None?)
         && forall i :: 0 <= i < |lines| && IsTransferEncoding(lines[i]) ==> NamesOthers(lines[i])
  }

  ghost predicate AllLengths(lines: seq<seq<Byte>>, n: nat)
  {
    forall i :: 0 <= i < |lines| && IsContentLength(lines[i]) ==> IsLength(lines[i], n)
  }

  // ----- The scan agrees -----

  lemma AsciiFromLower(p: seq<Byte>, x: seq<Byte>)
    requires p <= Lower(x) && AllAscii(p)
    ensures AllAscii(x[..|p|])
  {
    forall i | 0 <= i < |p| ensures IsAscii(x[i]) {
      assert Lower(x)[i] == p[i];
    }
  }

  lemma LengthIsAscii(x: seq<Byte>, n: nat)
    requires IsLength(x, n)
    ensures AllAscii(x)
  {
    hide Lower, Value;
    var i: nat, j: nat :| LengthAt(x, n, i, j);
    AsciiName(CONTENT_LENGTH);
    AsciiFromLower(CONTENT_LENGTH, x);
    var k := |CONTENT_LENGTH|;
    DigitsAreGraphic(x[i..j]);
    forall a | 0 <= a < |x| ensures IsAscii(x[a]) {
      if a < k { assert x[a] == x[..k][a]; }
      else if a < i { assert x[a] == x[k..i][a - k]; }
      else if a < j { assert x[a] == x[i..j][a - i]; }
      else { assert x[a] == x[j..][a - j]; }
    }
  }

  lemma DigitsAreGraphic(digits: seq<Byte>)
    requires AllDigits(digits, 10)
    ensures forall i :: 0 <= i < |digits| ==>
              IsGraphic(digits[i]) && IsAscii(digits[i]) && digits[i] != ':' && digits[i] != '+'
  {
  }

  /** A valid length reads back, whatever the line ending. */
  lemma LengthReads(x: seq<Byte>, n: nat, e: seq<Byte>)
    requires IsLength(x, n) && n <= USIZE_MAX && IsEol(e)
    ensures LengthField(x + e) == Some(n)
  {
    hide IsContentLength, ParseUsize, Value, ColonField, Trim;
    var i: nat, j: nat :| LengthAt(x, n, i, j);
    var k := |CONTENT_LENGTH|;
    var lead, digits, trail := x[k..i], x[i..j], x[j..] + e;
    DigitsAreGraphic(digits);
    NameIsPlain(x);
    FieldOfLength(x, i, j, e);
    TrimAscii(lead, digits, trail);
    ParseUsizeMeaning(digits, 10);
  }

  lemma FieldOfLength(x: seq<Byte>, i: nat, j: nat, e: seq<Byte>)
    requires |CONTENT_LENGTH| <= i < j <= |x| && x[|CONTENT_LENGTH| - 1] == ':' && ':' !in x[..|CONTENT_LENGTH| - 1]
    requires IsOws(x[|CONTENT_LENGTH|..i]) && AllDigits(x[i..j], 10) && IsOws(x[j..]) && IsEol(e)
    ensures ColonField(x + e) == x[|CONTENT_LENGTH|..i] + x[i..j] + (x[j..] + e)
  {
    hide ColonField, AllDigits;
    var k := |CONTENT_LENGTH|;
    var name, lead, digits, trail := x[..k - 1], x[k..i], x[i..j], x[j..] + e;
    DigitsAreGraphic(digits);
    assert x + e == name + [':'] + (lead + digits + trail);
    ColonFieldOf(name, lead + digits + trail);
  }

  // A Content-Length that is a list (section 6.3 of RFC 9112 lets a recipient accept one of equal values).

  predicate IsListOctet(c: Byte) { '0' <= c <= '9' || c == ',' || c == ' ' || c == '\t' }

  predicate ListAt(x: seq<Byte>, i: nat, j: nat)
  {
    && |CONTENT_LENGTH| <= i < j <= |x|
    && IsOws(x[|CONTENT_LENGTH|..i]) && IsOws(x[j..])
    && '0' <= x[i] <= '9' && '0' <= x[j - 1] <= '9' && ',' in x[i..j]
    && forall c :: c in x[i..j] ==> IsListOctet(c)
  }

  ghost predicate IsLengthList(x: seq<Byte>)
  {
    IsContentLength(x) && exists i: nat, j: nat :: ListAt(x, i, j)
  }

  /** The proxy's scan takes a list for no length at all. */
  lemma ListReads(x: seq<Byte>, e: seq<Byte>)
    requires IsLengthList(x) && IsEol(e)
    ensures LengthField(x + e) == None && AllAscii(x)
  {
    hide IsContentLength, ParseUsize, ColonField, Trim, Value;
    var i: nat, j: nat :| ListAt(x, i, j);
    var k := |CONTENT_LENGTH|;
    var lead, core, trail := x[k..i], x[i..j], x[j..] + e;
    NameIsPlain(x);
    FieldOfList(x, i, j, e);
    assert core[0] == x[i] && core[|core| - 1] == x[j - 1];
    TrimAscii(lead, core, trail);
    ParseUsizeMeaning(core, 10);
    CommaIsNoDigit(core);
    ListIsAscii(x, i, j);
  }

  lemma CommaIsNoDigit(core: seq<Byte>)
    requires core != [] && '0' <= core[0] <= '9' && ',' in core
    ensures StripPlus(core) == core && !AllDigits(core, 10)
  {
    var k :| 0 <= k < |core| && core[k] == ',';
    assert DigitValue(core[k]) == 16;
  }

  lemma FieldOfList(x: seq<Byte>, i: nat, j: nat, e: seq<Byte>)
    requires ListAt(x, i, j) && x[|CONTENT_LENGTH| - 1] == ':' && ':' !in x[..|CONTENT_LENGTH| - 1] && IsEol(e)
    ensures ColonField(x + e) == x[|CONTENT_LENGTH|..i] + x[i..j] + (x[j..] + e)
  {
    hide ColonField;
    var k := |CONTENT_LENGTH|;
    var name, lead, core, trail := x[..k - 1], x[k..i], x[i..j], x[j..] + e;
    assert ':' !in core;
    assert x + e == name + [':'] + (lead + core + trail);
    ColonFieldOf(name, lead + core + trail);
  }

  lemma ListIsAscii(x: seq<Byte>, i: nat, j: nat)
    requires IsContentLength(x) && ListAt(x, i, j)
    ensures AllAscii(x)
  {
    hide Lower;
    AsciiName(CONTENT_LENGTH);
    AsciiFromLower(CONTENT_LENGTH, x);
    var k := |CONTENT_LENGTH|;
    forall a | 0 <= a < |x| ensures IsAscii(x[a]) {
      if a < k { assert x[a] == x[..k][a]; }
      else if a < i { assert x[a] == x[k..i][a - k]; }
      else if a < j { assert x[a] == x[i..j][a - i] && x[a] in x[i..j]; }
      else { assert x[a] == x[j..][a - j]; }
    }
  }

  lemma NameIsPlain(x: seq<Byte>)
    requires IsContentLength(x)
    ensures |x| >= |CONTENT_LENGTH| && ':' !in x[..|CONTENT_LENGTH| - 1] && x[|CONTENT_LENGTH| - 1] == ':'
  {
    var k := |CONTENT_LENGTH|;
    forall i | 0 <= i < k ensures LowerByte(x[i]) == CONTENT_LENGTH[i] {
      assert Lower(x)[i] == CONTENT_LENGTH[i];
    }
    assert forall i :: 0 <= i < k - 1 ==> CONTENT_LENGTH[i] != ':';
  }

  lemma ChunkedReads(x: seq<Byte>)
    requires EndsChunked(x)
    ensures AnnouncesChunked(x)
  {
    hide Contains, Folded, IsOws, AllAscii, Lower;
    var i: nat :| ChunkedAt(x, i);
    AsciiFolds(x);
    ContainsIff(Lower(x), CHUNKED);
    assert CHUNKED <= Lower(x)[i..];
  }

  lemma AsciiFolds(x: seq<Byte>)
    requires AllAscii(x)
    ensures Folded(x) == Lower(x)
  {
    AppendNothing(x);
    SkipHeadless(x, [], KELVIN_SIGN);
    ReplaceAbsent(x, KELVIN_SIGN, "k");
  }

  /** Decoding does not change whether a line is a Transfer-Encoding line. */
  lemma EncodingDecodes(x: seq<Byte>)
    ensures IsTransferEncoding(Lossy(x)) == IsTransferEncoding(x)
  {
    hide Lossy, Lower;
    LowerDecodes(x);
    AsciiEncodingName(TRANSFER_ENCODING);
    AsciiPrefixDecodes(TRANSFER_ENCODING, Lower(x));
  }

  lemma AsciiEncodingName(p: seq<Byte>)
    requires p == TRANSFER_ENCODING
    ensures AllAscii(p)
  {
  }

  lemma EncodingBeforeEol(x: seq<Byte>, e: seq<Byte>)
    requires IsEol(e)
    ensures IsTransferEncoding(x + e) == IsTransferEncoding(x)
  {
    LowerBeforeEol(x, e);
    PrefixBeforeEol(Lower(x), e, TRANSFER_ENCODING);
  }

  /** What the proxy's scan makes of a complete line, in terms of the line without its ending. */
  lemma LineScanned(line: seq<Byte>)
    requires IsLine(line)
    ensures var x := StripEol(line);
            && (IsContentLength(Lossy(line)) <==> IsContentLength(x))
            && (AnnouncesChunked(Lossy(line)) ==> IsTransferEncoding(x))
            && (EndsChunked(x) ==> AnnouncesChunked(Lossy(line)))
            && (NamesOthers(x) ==> !AnnouncesChunked(Lossy(line)))
            && (forall n | 0 <= n <= USIZE_MAX && IsLength(x, n) :: LengthField(Lossy(line)) == Some(n))
  {
    hide Lossy, IsContentLength, IsLength, LengthField, IsTransferEncoding, EndsChunked, NamesOthers, Folded;
    var x := StripEol(line);
    var e := StripEolSplits(line);
    LengthDecodes(line);
    EncodingDecodes(line);
    KindBeforeEol(x, e);
    EncodingBeforeEol(x, e);
    ScannedAscii(x, e);
    ChunkedIsEncoding(Lossy(line));
    forall n | 0 <= n <= USIZE_MAX && IsLength(x, n) ensures LengthField(Lossy(line)) == Some(n) {
      LengthIsAscii(x, n);
      LengthReads(x, n, e);
    }
    if EndsChunked(x) {
      EndsChunkedAscii(x);
      ChunkedReads(x);
    }
    if NamesOthers(x) {
      OthersRead(x);
    }
  }

  lemma OthersRead(x: seq<Byte>)
    requires NamesOthers(x)
    ensures AllAscii(x) && !AnnouncesChunked(x)
  {
    AsciiFolds(x);
  }

  lemma ChunkedIsEncoding(x: seq<Byte>)
    ensures AnnouncesChunked(x) ==> IsTransferEncoding(x)
  {
  }

  lemma EndsChunkedAscii(x: seq<Byte>)
    requires EndsChunked(x)
    ensures AllAscii(x)
  {
  }

  lemma ScannedAscii(x: seq<Byte>, e: seq<Byte>)
    requires IsEol(e)
    ensures AllAscii(x) ==> Lossy(x + e) == x + e && Lossy(x) == x
  {
    if AllAscii(x) {
      LossyAscii(x);
      LossyAscii(x + e);
    }
  }

  lemma LastTrue(flags: seq<bool>) returns (k: nat)
    requires exists i :: 0 <= i < |flags| && flags[i]
    ensures k < |flags| && flags[k] && forall j :: k < j < |flags| ==> !flags[j]
  {
    k := |flags| - 1;
    while !flags[k]
      invariant k < |flags| && (forall j :: k < j < |flags| ==> !flags[j]) && exists i :: 0 <= i <= k && flags[i]
      decreases k
    {
      k := k - 1;
    }
  }

  predicate AreLines(raws: seq<seq<Byte>>) { forall i :: 0 <= i < |raws| ==> IsLine(raws[i]) }

  lemma {:induction false} LinesAreRaw(s: seq<Byte>)
    ensures |Lines(s)| == |RawLines(s)|
    ensures forall i :: 0 <= i < |Lines(s)| ==> Lines(s)[i] == StripEol(RawLines(s)[i])
    decreases |s|
  {
    if s != [] {
      LinesAreRaw(AfterLine(s));
    }
  }

  lemma {:induction false} RawLinesAreLines(s: seq<Byte>)
    requires s == [] || s[|s| - 1] == '\n'
    ensures AreLines(RawLines(s))
    decreases |s|
  {
    if s != [] {
      FirstOfMany(s);
      RawLinesAreLines(AfterLine(s));
    }
  }

  /** The lines of a block as the scan sees them and as field lines. */
  predicate SameBlock(raws: seq<seq<Byte>>, lines: seq<seq<Byte>>)
  {
    AreLines(raws) && |raws| == |lines| && forall i :: 0 <= i < |lines| ==> lines[i] == StripEol(raws[i])
  }

  lemma LengthAgrees(raws: seq<seq<Byte>>, lines: seq<seq<Byte>>, f: Framing, length: Option<nat>)
    requires SameBlock(raws, lines) && Frames(lines, f) && LastLength(raws, None, length)
    ensures length == f.contentLength
  {
    hide Lossy, IsContentLength, IsLength, LengthField, IsTransferEncoding, EndsChunked, NamesOthers, AnnouncesChunked,
         StripEol;
    forall i | 0 <= i < |lines| ensures IsContentLength(Lossy(raws[i])) <==> IsContentLength(lines[i]) {
      LineScanned(raws[i]);
    }
    if SomeLength(lines) {
      var flags := seq(|lines|, i requires 0 <= i < |lines| => IsContentLength(lines[i]));
      assert exists i :: 0 <= i < |flags| && flags[i] by {
        var i :| 0 <= i < |lines| && IsContentLength(lines[i]);
        assert flags[i];
      }
      var k := LastTrue(flags);
      assert forall j :: k < j < |lines| ==> flags[j] == IsContentLength(lines[j]);
      LineScanned(raws[k]);
    }
  }

  lemma ChunkedAgrees(raws: seq<seq<Byte>>, lines: seq<seq<Byte>>, f: Framing)
    requires SameBlock(raws, lines) && Frames(lines, f)
    ensures f.chunked <==> SomeChunked(raws)
  {
    hide Lossy, IsContentLength, IsLength, LengthField, IsTransferEncoding, EndsChunked, NamesOthers, AnnouncesChunked,
         StripEol;
    if f.chunked {
      var flags := seq(|lines|, i requires 0 <= i < |lines| => IsTransferEncoding(lines[i]));
      assert exists i :: 0 <= i < |flags| && flags[i] by {
        var i :| 0 <= i < |lines| && IsTransferEncoding(lines[i]);
        assert flags[i];
      }
      var k := LastTrue(flags);
      assert forall j :: k < j < |lines| ==> flags[j] == IsTransferEncoding(lines[j]);
      assert IsLastEncoding(lines, k);
      LineScanned(raws[k]);
    } else {
      forall i | 0 <= i < |raws| ensures !AnnouncesChunked(Lossy(raws[i])) {
        LineScanned(raws[i]);
      }
    }
  }

  // ----- Header blocks -----

  /** Complete lines up to the first blank one. */
  predicate IsBlock(head: seq<Byte>) { EndsLine(head) && EndsAtBlank(RawLines(head)) }

  lemma BlockRest(head: seq<Byte>)
    requires IsBlock(head)
    ensures IsLine(FirstLine(head)) && FirstLine(head) + AfterLine(head) == head
    ensures if IsBlank(FirstLine(head)) then AfterLine(head) == [] else IsBlock(AfterLine(head))
  {
    var line, after := FirstLine(head), AfterLine(head);
    var lines, more := RawLines(head), RawLines(AfterLine(head));
    FirstOfMany(head);
    assert lines[0] == line;
    assert more == [] <==> after == [];
    if !IsBlank(line) {
      forall i | 0 <= i < |more| ensures IsBlank(more[i]) <==> i == |more| - 1 {
        assert lines[i + 1] == more[i];
      }
    }
  }

  lemma {:induction false} BlockScans(head: seq<Byte>, f: Framing, rest: seq<Byte>)
    requires IsBlock(head)
    ensures var h := ReadHead(head + rest, f); h.Complete? && h.raw == head && h.rest == rest
    decreases |head|
  {
    hide IsBlock, ScanLine, IsBlank;
    var line, after := FirstLine(head), AfterLine(head);
    BlockRest(head);
    if IsBlank(line) {
      AppendNothing(line);
      ReadHeadCons(line, rest, f);
    } else {
      BlockScans(after, ScanLine(f, line), rest);
      ReadHeadMore(line, after, rest, f);
    }
  }

  /** Whatever block is framed after section 6.3 of RFC 9112 has the same framing for the proxy. */
  lemma ScanAgrees(head: seq<Byte>, f: Framing, rest: seq<Byte>)
    requires IsBlock(head) && Frames(Lines(head), f)
    ensures ReadHead(head + rest, NO_FRAMING) == Complete(head, f, rest)
  {
    hide Frames, LastLength, SomeChunked, EndsAtBlank;
    BlockScans(head, NO_FRAMING, rest);
    FramingMeaning(head + rest, NO_FRAMING);
    LinesAreRaw(head);
    RawLinesAreLines(head);
    LengthAgrees(RawLines(head), Lines(head), f, ReadHead(head + rest, NO_FRAMING).framing.contentLength);
    ChunkedAgrees(RawLines(head), Lines(head), f);
  }

  // ----- Decoding and updating keep the framing -----

  /** Decoding a line keeps its kind, and a valid line valid. */
  lemma LineKept(x: seq<Byte>)
    ensures IsContentLength(Lossy(x)) <==> IsContentLength(x)
    ensures IsTransferEncoding(Lossy(x)) <==> IsTransferEncoding(x)
    ensures forall n :: IsLength(x, n) ==> IsLength(Lossy(x), n)
    ensures EndsChunked(x) ==> EndsChunked(Lossy(x))
    ensures NamesOthers(x) ==> NamesOthers(Lossy(x))
  {
    hide Lossy, IsContentLength, IsLength, IsTransferEncoding, EndsChunked, NamesOthers;
    LengthDecodes(x);
    EncodingDecodes(x);
    forall n | IsLength(x, n) ensures IsLength(Lossy(x), n) {
      LengthIsAscii(x, n);
      LossyAscii(x);
    }
    if EndsChunked(x) {
      EndsChunkedAscii(x);
      LossyAscii(x);
    }
    if NamesOthers(x) {
      OthersRead(x);
      LossyAscii(x);
    }
  }

  lemma PrintedLengthIs(n: nat)
    requires n <= USIZE_MAX
    ensures IsLength(PrintedLine(n, []), n) && !IsTransferEncoding(PrintedLine(n, []))
  {
    var x, digits, k := PrintedLine(n, []), Print(n, 10), |CONTENT_LENGTH|;
    PrintedName(digits + []);
    PrintValue(n, 10);
    assert x == "Content-Length: " + (digits + []);
    assert x[k..k + 1] == [' '] && x[k + 1..] == digits && x[|x|..] == [];
    assert x[k + 1..|x|] == digits;
    PrintedLineKind(n, []);
    assert LengthAt(x, n, k + 1, |x|);
  }

  /** Line by line: the same kind, and the same or the new length. */
  predicate KeepsLines(a: seq<seq<Byte>>, b: seq<seq<Byte>>)
  {
    && |a| == |b|
    && forall i :: 0 <= i < |a| ==>
         (IsContentLength(b[i]) <==> IsContentLength(a[i])) && (IsTransferEncoding(b[i]) <==> IsTransferEncoding(a[i]))
  }

  lemma FramesKept(a: seq<seq<Byte>>, b: seq<seq<Byte>>, f: Framing, n: nat)
    requires Frames(a, f) && KeepsLines(a, b) && n <= USIZE_MAX
    requires f.contentLength.Some? ==> AllLengths(b, n)
    requires forall i :: 0 <= i < |a| && EndsChunked(a[i]) ==> EndsChunked(b[i])
    requires forall i :: 0 <= i < |a| && NamesOthers(a[i]) ==> NamesOthers(b[i])
    ensures Frames(b, f.(contentLength := if f.contentLength.Some? then Some(n) else None))
  {
    hide IsContentLength, IsLength, IsTransferEncoding, EndsChunked, NamesOthers;
    assert SomeLength(b) <==> SomeLength(a);
    assert SomeEncoding(b) <==> SomeEncoding(a);
    forall i | 0 <= i < |b| && IsLastEncoding(b, i) ensures f.chunked ==> EndsChunked(b[i]) {
      assert IsLastEncoding(a, i);
    }
  }

  lemma DecodedFrames(lines: seq<seq<Byte>>, f: Framing)
    requires Frames(lines, f)
    ensures Frames(LossyLines(lines), f)
  {
    hide Lossy, IsContentLength, IsLength, IsTransferEncoding, EndsChunked, NamesOthers;
    var b := LossyLines(lines);
    forall i | 0 <= i < |lines|
      ensures IsContentLength(b[i]) <==> IsContentLength(lines[i])
      ensures IsTransferEncoding(b[i]) <==> IsTransferEncoding(lines[i])
      ensures EndsChunked(lines[i]) ==> EndsChunked(b[i])
      ensures NamesOthers(lines[i]) ==> NamesOthers(b[i])
      ensures forall n :: IsLength(lines[i], n) ==> IsLength(b[i], n)
    {
      LineKept(lines[i]);
    }
    FramesKept(lines, b, f, if f.contentLength.Some? then f.contentLength.value else 0);
  }

  lemma UpdatedFrames(lines: seq<seq<Byte>>, f: Framing, n: nat)
    requires Frames(lines, f) && f.contentLength.Some? && n <= USIZE_MAX
    ensures Frames(UpdateLines(lines, n), f.(contentLength := Some(n)))
  {
    hide IsContentLength, IsLength, IsTransferEncoding, EndsChunked, NamesOthers, PrintedLine;
    var b := UpdateLines(lines, n);
    PrintedLengthIs(n);
    LengthIsLength(PrintedLine(n, []), n);
    forall i | 0 <= i < |lines|
      ensures IsContentLength(b[i]) <==> IsContentLength(lines[i])
      ensures IsTransferEncoding(b[i]) <==> IsTransferEncoding(lines[i])
      ensures EndsChunked(lines[i]) ==> EndsChunked(b[i])
      ensures NamesOthers(lines[i]) ==> NamesOthers(b[i])
      ensures IsContentLength(b[i]) ==> IsLength(b[i], n)
    {
      OneKind(lines[i]);
    }
    FramesKept(lines, b, f, n);
  }

  lemma LengthIsLength(x: seq<Byte>, n: nat)
    requires IsLength(x, n)
    ensures IsContentLength(x)
  {
  }

  lemma OneKind(x: seq<Byte>)
    ensures !(IsContentLength(x) && IsTransferEncoding(x))
    ensures EndsChunked(x) || NamesOthers(x) ==> IsTransferEncoding(x)
  {
    assert IsContentLength(x) ==> Lower(x)[0] == CONTENT_LENGTH[0] != TRANSFER_ENCODING[0];
  }

  /** The header in front of a rewritten body frames it after section 6.3 of RFC 9112. */
  lemma RewrittenFrames(m: Message, origin: seq<Byte>, proxy: seq<Byte>)
    requires origin != [] && IsRewritten(m.head, m.framing)
    requires IsBlock(m.head) && Frames(Lines(m.head), m.framing) && |Transform(m, origin, proxy).body| <= USIZE_MAX
    requires m.framing.contentLength.Some? && !m.framing.chunked ==> m.framing.contentLength.value == |m.body|
    ensures var t := Transform(m, origin, proxy);
            && IsBlock(t.head) && Frames(Lines(t.head), t.framing)
            && (t.framing.contentLength.Some? && !t.framing.chunked ==> t.framing.contentLength.value == |t.body|)
  {
    hide Frames, Rewrite, Lossy, Lines, Updated;
    var t := Transform(m, origin, proxy);
    AppendNothing(m.head);
    ScanAgrees(m.head, m.framing, []);
    AppendNothing(t.head);
    HeaderCoherence(m.head, |m.body|, |t.body|, []);
    FramingMeaning(t.head, NO_FRAMING);
    HeadEndsLine(t.head, NO_FRAMING);
    LinesDecode(m.head);
    DecodedFrames(Lines(m.head), m.framing);
    if m.framing.contentLength.Some? && |t.body| != |m.body| {
      UpdatedLines(Lossy(m.head), |t.body|);
      UpdatedFrames(Lines(Lossy(m.head)), m.framing, |t.body|);
    }
  }

  /** No coding, and the last Content-Length line is a list. */
  ghost predicate EndsInList(lines: seq<seq<Byte>>)
  {
    && !SomeEncoding(lines)
    && exists k :: 0 <= k < |lines| && IsLastLength(lines, k) && IsLengthList(lines[k])
  }

  predicate IsLastLength(lines: seq<seq<Byte>>, k: nat)
  {
    k < |lines| && IsContentLength(lines[k]) && forall j :: k < j < |lines| ==> !IsContentLength(lines[j])
  }

  /** Such a block has no framing for the proxy. */
  lemma ListScans(head: seq<Byte>, rest: seq<Byte>)
    requires IsBlock(head) && EndsInList(Lines(head))
    ensures ReadHead(head + rest, NO_FRAMING) == Complete(head, NO_FRAMING, rest)
  {
    hide LastLength, SomeChunked, EndsAtBlank, SomeEncoding, IsLengthList, IsLastLength;
    BlockScans(head, NO_FRAMING, rest);
    FramingMeaning(head + rest, NO_FRAMING);
    LinesAreRaw(head);
    RawLinesAreLines(head);
    var raws, lines := RawLines(head), Lines(head);
    var k :| 0 <= k < |lines| && IsLastLength(lines, k) && IsLengthList(lines[k]);
    ListDecides(raws, lines, k, ReadHead(head + rest, NO_FRAMING).framing.contentLength);
    NoCodingScans(raws, lines);
  }

  lemma ListDecides(raws: seq<seq<Byte>>, lines: seq<seq<Byte>>, k: nat, length: Option<nat>)
    requires SameBlock(raws, lines) && LastLength(raws, None, length)
    requires IsLastLength(lines, k) && IsLengthList(lines[k])
    ensures length == None
  {
    hide Lossy, IsContentLength, IsLengthList, LengthField, AnnouncesChunked, StripEol, IsLength;
    forall i | 0 <= i < |lines| ensures IsContentLength(Lossy(raws[i])) <==> IsContentLength(lines[i]) {
      LineScanned(raws[i]);
    }
    var e := StripEolSplits(raws[k]);
    ListReads(lines[k], e);
    ScannedAscii(lines[k], e);
  }

  lemma NoCodingScans(raws: seq<seq<Byte>>, lines: seq<seq<Byte>>)
    requires SameBlock(raws, lines) && !SomeEncoding(lines)
    ensures !SomeChunked(raws)
  {
    hide Lossy, IsContentLength, IsTransferEncoding, AnnouncesChunked, StripEol, IsLength, LengthField;
    forall i | 0 <= i < |raws| ensures !AnnouncesChunked(Lossy(raws[i])) {
      LineScanned(raws[i]);
    }
  }
}

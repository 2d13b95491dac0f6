/** Header blocks: framing fields, content classification, Content-Length update. */
module Headers {
  import opened Bytes
  import opened Numbers
  import opened Rewriting
  import opened Trimming
  import opened Utf8

  // ----- Framing -----

  datatype Framing = Framing(contentLength: Option<nat>, chunked: bool)

  const NO_FRAMING := Framing(None, false)

  const CONTENT_LENGTH: seq<Byte> := "content-length:"
  const TRANSFER_ENCODING: seq<Byte> := "transfer-encoding:"
  const CHUNKED: seq<Byte> := "chunked"
  const CONTENT_TYPE: seq<Byte> := "content-type:"

  predicate IsContentLength(line: seq<Byte>) { CONTENT_LENGTH <= Lower(line) }

  /** U+212A: the one character beyond ASCII whose lower case completes a pattern looked for here. */
  const KELVIN_SIGN: seq<Byte> := ['\U{E2}', '\U{84}', '\U{AA}']

  /** `to_lowercase`, as far as the search for an ASCII pattern can tell. */
  function Folded(text: seq<Byte>): seq<Byte> { Lower(Replace(text, KELVIN_SIGN, "k")) }

  predicate AnnouncesChunked(line: seq<Byte>)
  {
    TRANSFER_ENCODING <= Lower(line) && Contains(Folded(line), CHUNKED)
  }

  /** `line.split(':').nth(1)`, trimmed and parsed; anything unparsable is `None`. */
  function LengthField(line: seq<Byte>): Option<nat> { ParseUsize(Trim(ColonField(line)), 10) }

  /** One header line, already decoded: the last Content-Length line wins, even an unparsable one. */
  function ScanText(f: Framing, line: seq<Byte>): Framing
  {
    Framing(if IsContentLength(line) then LengthField(line) else f.contentLength,
            f.chunked || AnnouncesChunked(line))
  }

  function ScanLine(f: Framing, line: seq<Byte>): Framing { ScanText(f, Lossy(line)) }

  /** A header block read off the front of a stream, or the end of input before its blank line. */
  datatype Head = Incomplete | Complete(raw: seq<Byte>, framing: Framing, rest: seq<Byte>)

  /** The header lines of `s` up to and including the first blank line, scanned from `f` on. */
  function ReadHead(s: seq<Byte>, f: Framing): (h: Head)
    ensures h.Complete? ==> h.raw + h.rest == s && |h.rest| < |s|
    decreases |s|
  {
    if s == [] then Incomplete
    else
      SplitLine(s);
      var line, after := FirstLine(s), AfterLine(s);
      var f' := ScanLine(f, line);
      if IsBlank(line) then Complete(line, f', after)
      else
        PrependSplits(line, ReadHead(after, f'), after);
        Prepend(line, ReadHead(after, f'))
  }

  lemma SplitLine(s: seq<Byte>)
    requires s != []
    ensures FirstLine(s) + AfterLine(s) == s && |AfterLine(s)| < |s|
  {
  }

  lemma PrependSplits(line: seq<Byte>, h: Head, s: seq<Byte>)
    ensures h.Complete? && h.raw + h.rest == s ==> Prepend(line, h).raw + Prepend(line, h).rest == line + s
  {
    if h.Complete? { assert (line + h.raw) + h.rest == line + (h.raw + h.rest); }
  }

  function Prepend(line: seq<Byte>, h: Head): Head
  {
    if h.Complete? then h.(raw := line + h.raw) else h
  }

  lemma ReadHeadCons(line: seq<Byte>, rest: seq<Byte>, f: Framing)
    requires IsLine(line)
    ensures ReadHead(line + rest, f) ==
            if IsBlank(line) then Complete(line, ScanLine(f, line), rest)
            else Prepend(line, ReadHead(rest, ScanLine(f, line)))
  {
    FirstLineOf(line, rest);
  }

  lemma ReadHeadMore(line: seq<Byte>, raw: seq<Byte>, rest: seq<Byte>, f: Framing)
    requires IsLine(line) && !IsBlank(line)
    ensures ReadHead(line + raw + rest, f) == Prepend(line, ReadHead(raw + rest, ScanLine(f, line)))
  {
    assert line + raw + rest == line + (raw + rest);
    ReadHeadCons(line, raw + rest, f);
  }

  /** A header block is recognised whatever follows its blank line. */
  lemma {:induction false} ReadHeadLocal(s: seq<Byte>, f: Framing, rest: seq<Byte>)
    requires ReadHead(s, f).Complete?
    ensures var h := ReadHead(s, f); ReadHead(h.raw + rest, f) == h.(rest := rest)
    decreases |s|
  {
    var line, after := FirstLine(s), AfterLine(s);
    HeadLineIsLine(s, f);
    if IsBlank(line) {
      ReadHeadCons(line, rest, f);
    } else {
      var h := ReadHead(after, ScanLine(f, line));
      ReadHeadLocal(after, ScanLine(f, line), rest);
      ReadHeadMore(line, h.raw, rest, f);
    }
  }

  /** Every line of a complete header block ends in LF. */
  lemma HeadLineIsLine(s: seq<Byte>, f: Framing)
    requires ReadHead(s, f).Complete?
    ensures IsLine(FirstLine(s))
  {
    FirstLineIsLine(s);
    if IsBlank(FirstLine(s)) {
    } else {
      assert AfterLine(s) != [];
    }
  }

  lemma {:induction false} HeadEndsLine(s: seq<Byte>, f: Framing)
    requires ReadHead(s, f).Complete?
    ensures var raw := ReadHead(s, f).raw; raw != [] && raw[|raw| - 1] == '\n'
    decreases |s|
  {
    if !IsBlank(FirstLine(s)) {
      HeadEndsLine(AfterLine(s), ScanLine(f, FirstLine(s)));
    }
  }

  // ----- What the scan finds -----

  /** The lines of a text with their line endings. */
  function RawLines(s: seq<Byte>): seq<seq<Byte>>
    decreases |s|
  {
    if s == [] then [] else [FirstLine(s)] + RawLines(AfterLine(s))
  }

  /** The last Content-Length line of `lines` decides, `otherwise` if there is none. */
  predicate LastLength(lines: seq<seq<Byte>>, otherwise: Option<nat>, length: Option<nat>)
  {
    && (forall i :: 0 <= i < |lines| && IsContentLength(Lossy(lines[i]))
                    && (forall j :: i < j < |lines| ==> !IsContentLength(Lossy(lines[j])))
                    ==> length == LengthField(Lossy(lines[i])))
    && ((forall i :: 0 <= i < |lines| ==> !IsContentLength(Lossy(lines[i]))) ==> length == otherwise)
  }

  predicate SomeChunked(lines: seq<seq<Byte>>)
  {
    exists i :: 0 <= i < |lines| && AnnouncesChunked(Lossy(lines[i]))
  }

  /** The header block ends at the first blank line. */
  predicate EndsAtBlank(lines: seq<seq<Byte>>)
  {
    lines != [] && forall i :: 0 <= i < |lines| ==> (IsBlank(lines[i]) <==> i == |lines| - 1)
  }

  lemma LastLengthCons(line: seq<Byte>, more: seq<seq<Byte>>, otherwise: Option<nat>, length: Option<nat>)
    requires LastLength(more, if IsContentLength(Lossy(line)) then LengthField(Lossy(line)) else otherwise, length)
    ensures LastLength([line] + more, otherwise, length)
  {
    hide IsContentLength, LengthField, Lossy;
    var lines := [line] + more;
    assert forall i :: 0 <= i < |more| ==> lines[i + 1] == more[i];
    assert lines[0] == line;
  }

  lemma SomeChunkedCons(line: seq<Byte>, more: seq<seq<Byte>>)
    ensures SomeChunked([line] + more) <==> AnnouncesChunked(Lossy(line)) || SomeChunked(more)
  {
    hide AnnouncesChunked, Lossy;
    var lines := [line] + more;
    assert lines[0] == line && forall i :: 0 <= i < |more| ==> lines[i + 1] == more[i];
  }

  lemma EndsAtBlankCons(line: seq<Byte>, more: seq<seq<Byte>>)
    requires !IsBlank(line) && EndsAtBlank(more)
    ensures EndsAtBlank([line] + more)
  {
    hide IsBlank;
    var lines := [line] + more;
    assert lines[0] == line && forall i :: 0 < i < |lines| ==> lines[i] == more[i - 1];
  }

  lemma RawLinesCons(line: seq<Byte>, rest: seq<Byte>)
    requires IsLine(line)
    ensures RawLines(line + rest) == [line] + RawLines(rest)
  {
    FirstLineOf(line, rest);
  }

  /** The scan of a header block, without the loop: the block ends at the first blank line, its
      length is that of the last Content-Length line (none if that does not parse), and it is
      chunked exactly when some Transfer-Encoding line says so. */
  lemma {:induction false} FramingMeaning(s: seq<Byte>, f: Framing)
    requires ReadHead(s, f).Complete?
    ensures var h := ReadHead(s, f); var lines := RawLines(h.raw);
            && EndsAtBlank(lines)
            && LastLength(lines, f.contentLength, h.framing.contentLength)
            && (h.framing.chunked <==> f.chunked || SomeChunked(lines))
    decreases |s|
  {
    hide IsContentLength, LengthField, Lossy, AnnouncesChunked, LastLength, SomeChunked, EndsAtBlank;
    var line, f' := FirstLine(s), ScanLine(f, FirstLine(s));
    HeadLineIsLine(s, f);
    if IsBlank(line) {
      RawLinesCons(line, []);
      assert line + [] == line && [line] + [] == [line];
      OneLine(line, f.contentLength);
      SomeChunkedCons(line, []);
      OneBlank(line);
      NoneChunked();
    } else {
      var h := ReadHead(AfterLine(s), f');
      FramingMeaning(AfterLine(s), f');
      RawLinesCons(line, h.raw);
      LastLengthCons(line, RawLines(h.raw), f.contentLength, h.framing.contentLength);
      SomeChunkedCons(line, RawLines(h.raw));
      EndsAtBlankCons(line, RawLines(h.raw));
    }
  }

  lemma OneLine(line: seq<Byte>, otherwise: Option<nat>)
    ensures LastLength([line], otherwise,
                       if IsContentLength(Lossy(line)) then LengthField(Lossy(line)) else otherwise)
  {
    hide IsContentLength, LengthField, Lossy;
    assert [line][0] == line;
  }

  lemma OneBlank(line: seq<Byte>)
    requires IsBlank(line)
    ensures EndsAtBlank([line])
  {
  }

  lemma NoneChunked()
    ensures !SomeChunked([])
  {
  }

  // ----- Header text as lines (str::lines) -----

  function StripEol(line: seq<Byte>): seq<Byte>
  {
    if line == [] || line[|line| - 1] != '\n' then line
    else
      var x := line[..|line| - 1];
      if x != [] && x[|x| - 1] == '\r' then x[..|x| - 1] else x
  }

  function Lines(s: seq<Byte>): seq<seq<Byte>>
    decreases |s|
  {
    if s == [] then [] else [StripEol(FirstLine(s))] + Lines(AfterLine(s))
  }

  /** The line that the update pushes, with line ending `e` or without one. */
  function PrintedLine(n: nat, e: seq<Byte>): seq<Byte> { "Content-Length: " + Print(n, 10) + e }

  /** What `update_content_length` makes of one line. */
  function UpdateLine(line: seq<Byte>, n: nat): seq<Byte>
  {
    if IsContentLength(line) then PrintedLine(n, []) else line
  }

  function UpdateLines(lines: seq<seq<Byte>>, n: nat): (r: seq<seq<Byte>>)
    ensures |r| == |lines|
    ensures forall i :: 0 <= i < |lines| ==> r[i] == UpdateLine(lines[i], n)
  {
    seq(|lines|, i requires 0 <= i < |lines| => UpdateLine(lines[i], n))
  }

  /** Every line followed by CRLF. */
  function Join(lines: seq<seq<Byte>>): seq<Byte>
  {
    if lines == [] then [] else lines[0] + CRLF + Join(lines[1..])
  }

  /** The specification of `update_content_length`. */
  function Updated(headers: seq<Byte>, n: nat): seq<Byte> { Join(UpdateLines(Lines(headers), n)) }

  lemma {:induction false} JoinSnoc(lines: seq<seq<Byte>>, line: seq<Byte>)
    ensures Join(lines + [line]) == Join(lines) + line + CRLF
  {
    if lines == [] {
      assert lines + [line] == [line] && [line][1..] == [];
    } else {
      assert (lines + [line])[1..] == lines[1..] + [line];
      JoinSnoc(lines[1..], line);
    }
  }

  lemma UpdateNext(lines: seq<seq<Byte>>, i: nat, n: nat)
    requires i < |lines|
    ensures Join(UpdateLines(lines[..i + 1], n)) == Join(UpdateLines(lines[..i], n))
            + (if IsContentLength(lines[i]) then PrintedLine(n, CRLF) else lines[i] + CRLF)
  {
    var done, line := UpdateLines(lines[..i], n), UpdateLine(lines[i], n);
    assert UpdateLines(lines[..i + 1], n) == done + [line];
    JoinSnoc(done, line);
    assert Join(done) + line + CRLF == Join(done) + (line + CRLF);
    assert IsContentLength(lines[i]) ==> line + CRLF == PrintedLine(n, CRLF);
  }

  /** `update_content_length`. */
  method UpdateContentLength(headers: seq<Byte>, newLength: nat) returns (result: seq<Byte>)
    ensures result == Updated(headers, newLength)
  {
    result := [];
    var lines := Lines(headers);
    for i := 0 to |lines|
      invariant result == Join(UpdateLines(lines[..i], newLength))
    {
      UpdateNext(lines, i, newLength);
      if CONTENT_LENGTH <= Lower(lines[i]) {
        result := result + PrintedLine(newLength, CRLF);
      } else {
        result := result + lines[i];
        result := result + CRLF;
      }
    }
    assert lines[..|lines|] == lines;
  }

  // ----- Laws of the update -----

  predicate NoLf(lines: seq<seq<Byte>>)
  {
    forall i :: 0 <= i < |lines| ==> '\n' !in lines[i]
  }

  lemma CrLfLine(x: seq<Byte>)
    requires '\n' !in x
    ensures IsLine(x + CRLF) && StripEol(x + CRLF) == x
  {
    var line := x + CRLF;
    assert line[..|line| - 1] == x + "\r";
    assert (x + "\r")[..|x|] == x;
  }

  /** Joining and splitting are inverse on LF-free lines. */
  lemma {:induction false} LinesOfJoin(lines: seq<seq<Byte>>)
    requires NoLf(lines)
    ensures Lines(Join(lines)) == lines
  {
    if lines != [] {
      var line := lines[0] + CRLF;
      CrLfLine(lines[0]);
      FirstLineOf(line, Join(lines[1..]));
      LinesOfJoin(lines[1..]);
    }
  }

  lemma {:induction false} LinesHaveNoLf(s: seq<Byte>)
    ensures NoLf(Lines(s))
    decreases |s|
  {
    if s != [] {
      var line := FirstLine(s);
      FirstLineIsLine(s);
      assert AfterLine(s) == [] ==> line == s;
      LinesHaveNoLf(AfterLine(s));
    }
  }

  lemma DecimalDigits(n: nat)
    ensures forall c :: c in Print(n, 10) ==> '0' <= c <= '9'
  {
    assert forall c: Byte :: DigitValue(c) < 10 ==> '0' <= c <= '9';
    assert forall c :: c in Print(n, 10) ==> DigitValue(c) < 10;
  }

  /** It is a Content-Length line and announces nothing else. */
  lemma PrintedLineKind(n: nat, e: seq<Byte>)
    ensures IsContentLength(PrintedLine(n, e)) && !AnnouncesChunked(PrintedLine(n, e))
  {
    PrintedName(Print(n, 10) + e);
    assert PrintedLine(n, e) == "Content-Length: " + (Print(n, 10) + e);
  }

  lemma PrintedLineText(n: nat, e: seq<Byte>)
    requires IsEol(e)
    ensures '\n' !in PrintedLine(n, [])
    ensures forall c :: c in PrintedLine(n, e) ==> IsAscii(c)
  {
    DecimalDigits(n);
    assert forall c :: c in "Content-Length: " ==> IsAscii(c) && c != '\n';
    assert forall c :: c in e ==> IsAscii(c);
  }

  /** It reads back as the number printed. */
  lemma PrintedLineValue(n: nat, e: seq<Byte>)
    requires IsEol(e)
    ensures LengthField(PrintedLine(n, e)) == ParseUsize(Print(n, 10), 10)
  {
    DecimalDigits(n);
    var name: seq<Byte>, digits := "Content-Length", Print(n, 10);
    assert PrintedLine(n, e) == name + [':'] + ([' '] + digits + e);
    assert digits[0] in digits && digits[|digits| - 1] in digits;
    FieldAfter(name, digits, e);
  }

  /** The field of a line made of a name, a colon, a space, a value and a line ending. */
  lemma FieldAfter(name: seq<Byte>, value: seq<Byte>, e: seq<Byte>)
    requires ':' !in name && ':' !in value && value != [] && IsGraphic(value[0]) && IsGraphic(value[|value| - 1])
    requires e == [] || IsEol(e)
    ensures Trim(ColonField(name + [':'] + ([' '] + value + e))) == value
  {
    var text := [' '] + value + e;
    ColonFieldOf(name, text);
    TrimAscii([' '], value, e);
  }

  lemma ColonFieldOf(name: seq<Byte>, text: seq<Byte>)
    requires ':' !in name && ':' !in text
    ensures ColonField(name + [':'] + text) == text
  {
    assert name + [':'] + text == name + ([':'] + text);
    SpanIs(name, {':'}, [':'] + text);
    assert (name + ([':'] + text))[|name| + 1..] == text && text + [] == text;
    SpanIs(text, {':'}, []);
  }

  lemma PrintedName(tail: seq<Byte>)
    ensures CONTENT_LENGTH <= Lower("Content-Length: " + tail)
    ensures !(TRANSFER_ENCODING <= Lower("Content-Length: " + tail))
    ensures !(CONTENT_TYPE <= Lower("Content-Length: " + tail))
  {
    var l := Lower("Content-Length: " + tail);
    assert l[..15] == CONTENT_LENGTH;
    assert l[0] != TRANSFER_ENCODING[0];
    assert l[8] != CONTENT_TYPE[8];
  }

  /** The update keeps the number and order of lines, and changes only Content-Length lines. */
  lemma UpdatedLines(headers: seq<Byte>, n: nat)
    ensures Lines(Updated(headers, n)) == UpdateLines(Lines(headers), n)
  {
    LinesHaveNoLf(headers);
    PrintedLineText(n, "\n");
    var lines := Lines(headers);
    LinesOfJoin(UpdateLines(lines, n));
  }

  /** The last update wins. */
  lemma UpdateTwice(headers: seq<Byte>, n: nat, m: nat)
    ensures Updated(Updated(headers, n), m) == Updated(headers, m)
  {
    UpdatedLines(headers, n);
    PrintedLineKind(n, []);
    var lines := Lines(headers);
    assert UpdateLines(UpdateLines(lines, n), m) == UpdateLines(lines, m);
  }

  // ----- Classification (should_rewrite_content) -----

  predicate IsRewritableType(contentType: seq<Byte>)
  {
    "text/" <= contentType || Contains(contentType, "xml") || Contains(contentType, "json")
    || Contains(contentType, "html")
  }

  /** The first Content-Type line decides. */
  predicate RewritableLines(lowered: seq<seq<Byte>>)
  {
    if lowered == [] then false
    else if CONTENT_TYPE <= lowered[0] then IsRewritableType(Trim(ColonField(lowered[0])))
    else RewritableLines(lowered[1..])
  }

  /** `should_rewrite_content`. */
  predicate ShouldRewrite(headers: seq<Byte>) { RewritableLines(Lines(Lower(headers))) }

  /** The verdict without the scan: some Content-Type line has a rewritable type and no
      Content-Type line precedes it. */
  lemma {:induction false} FirstTypeDecides(lowered: seq<seq<Byte>>)
    ensures RewritableLines(lowered) <==>
            exists i :: 0 <= i < |lowered| && CONTENT_TYPE <= lowered[i]
                        && IsRewritableType(Trim(ColonField(lowered[i])))
                        && forall j :: 0 <= j < i ==> !(CONTENT_TYPE <= lowered[j])
  {
    hide IsRewritableType, Trim, ColonField;
    if lowered != [] && !(CONTENT_TYPE <= lowered[0]) {
      var more := lowered[1..];
      FirstTypeDecides(more);
      assert forall j :: 0 < j < |lowered| ==> lowered[j] == more[j - 1];
      if RewritableLines(more) {
        var i :| 0 <= i < |more| && CONTENT_TYPE <= more[i] && IsRewritableType(Trim(ColonField(more[i])))
                 && forall j :: 0 <= j < i ==> !(CONTENT_TYPE <= more[j]);
        assert lowered[i + 1] == more[i];
      }
    }
  }

  function LowerLines(lines: seq<seq<Byte>>): (r: seq<seq<Byte>>)
    ensures |r| == |lines|
    ensures forall i :: 0 <= i < |lines| ==> r[i] == Lower(lines[i])
  {
    seq(|lines|, i requires 0 <= i < |lines| => Lower(lines[i]))
  }

  /** Lower-casing commutes with splitting into lines. */
  lemma {:induction false} LinesOfLower(s: seq<Byte>)
    ensures Lines(Lower(s)) == LowerLines(Lines(s))
    decreases |s|
  {
    hide LineEnd, StripEol;
    if s == [] {
      assert Lower(s) == [];
    } else {
      LineEndOfLower(s);
      var line := FirstLine(s);
      assert FirstLine(Lower(s)) == Lower(line);
      assert AfterLine(Lower(s)) == Lower(AfterLine(s));
      StripEolOfLower(line);
      LinesOfLower(AfterLine(s));
    }
  }

  lemma StripEolOfLower(line: seq<Byte>)
    ensures StripEol(Lower(line)) == Lower(StripEol(line))
  {
    if line != [] && line[|line| - 1] == '\n' {
      var x := line[..|line| - 1];
      assert Lower(line)[..|line| - 1] == Lower(x);
      if x != [] {
        assert Lower(x)[..|x| - 1] == Lower(x[..|x| - 1]);
      }
    }
  }

  lemma {:induction false} LineEndOfLower(s: seq<Byte>)
    ensures LineEnd(Lower(s)) == LineEnd(s)
  {
    if s != [] {
      assert Lower(s)[1..] == Lower(s[1..]);
      LineEndOfLower(s[1..]);
    }
  }

  lemma {:induction false} VerdictKept(lines: seq<seq<Byte>>, n: nat)
    ensures RewritableLines(LowerLines(UpdateLines(lines, n))) == RewritableLines(LowerLines(lines))
  {
    if lines != [] {
      PrintedName(Print(n, 10) + []);
      assert PrintedLine(n, []) == "Content-Length: " + (Print(n, 10) + []);
      VerdictKept(lines[1..], n);
      assert LowerLines(UpdateLines(lines, n))[1..] == LowerLines(UpdateLines(lines[1..], n));
      assert LowerLines(lines)[1..] == LowerLines(lines[1..]);
      assert IsContentLength(lines[0]) ==> Lower(lines[0])[8] == CONTENT_LENGTH[8] != CONTENT_TYPE[8];
    }
  }

  /** The update does not change the classification of the response. */
  lemma UpdateKeepsVerdict(headers: seq<Byte>, n: nat)
    ensures ShouldRewrite(Updated(headers, n)) == ShouldRewrite(headers)
  {
    UpdatedLines(headers, n);
    LinesOfLower(headers);
    LinesOfLower(Updated(headers, n));
    VerdictKept(Lines(headers), n);
  }

  // ----- Scanning what is emitted -----

  /** Lines are split off one by one. */
  lemma LinesCons(line: seq<Byte>, rest: seq<Byte>)
    requires IsLine(line)
    ensures Lines(line + rest) == [StripEol(line)] + Lines(rest)
  {
    FirstLineOf(line, rest);
  }

  lemma LossyAfterLine(line: seq<Byte>, rest: seq<Byte>)
    requires IsLine(line)
    ensures Lossy(line + rest) == Lossy(line) + Lossy(rest)
  {
    var x := line[..|line| - 1];
    assert line == x + ['\n'];
    LossyAroundLf(x, rest);
    LossyLine(line);
  }

  /** The decoded header block is scanned like the received one, whatever follows it. */
  lemma {:induction false} ScanDecoded(s: seq<Byte>, f: Framing, rest: seq<Byte>)
    requires ReadHead(s, f).Complete?
    ensures var h := ReadHead(s, f);
            ReadHead(Lossy(h.raw) + rest, f) == Complete(Lossy(h.raw), h.framing, rest)
    decreases |s|
  {
    var line, after := FirstLine(s), AfterLine(s);
    HeadLineIsLine(s, f);
    LossyLine(line);
    LossyBlank(line);
    LossyIdempotent(line);
    if IsBlank(line) {
      ReadHeadCons(Lossy(line), rest, f);
    } else {
      var h := ReadHead(after, ScanLine(f, line));
      ScanDecoded(after, ScanLine(f, line), rest);
      LossyAfterLine(line, h.raw);
      ReadHeadMore(Lossy(line), Lossy(h.raw), rest, f);
    }
  }

  predicate HasLength(lines: seq<seq<Byte>>)
  {
    lines != [] && (IsContentLength(lines[0]) || HasLength(lines[1..]))
  }

  lemma StripEolSplits(line: seq<Byte>) returns (e: seq<Byte>)
    requires IsLine(line)
    ensures IsEol(e) && line == StripEol(line) + e
    ensures IsBlank(line) <==> StripEol(line) == []
  {
    e := line[|StripEol(line)|..];
  }

  lemma LowerBeforeEol(x: seq<Byte>, e: seq<Byte>)
    requires IsEol(e)
    ensures Lower(x + e) == Lower(x) + e
  {
    assert Lower(e) == e;
  }

  lemma FoldedBeforeEol(x: seq<Byte>, e: seq<Byte>)
    requires IsEol(e)
    ensures Folded(x + e) == Folded(x) + e
  {
    ReplaceBeforeTail(x, e, KELVIN_SIGN, "k");
    LowerBeforeEol(Replace(x, KELVIN_SIGN, "k"), e);
  }

  /** The line ending is irrelevant to what a line announces. */
  lemma KindBeforeEol(x: seq<Byte>, e: seq<Byte>)
    requires IsEol(e)
    ensures IsContentLength(x + e) == IsContentLength(x)
    ensures AnnouncesChunked(x + e) == AnnouncesChunked(x)
  {
    hide Contains;
    LowerBeforeEol(x, e);
    FoldedBeforeEol(x, e);
    PrefixBeforeEol(Lower(x), e, CONTENT_LENGTH);
    PrefixBeforeEol(Lower(x), e, TRANSFER_ENCODING);
    ContainsBeforeEol(Folded(x), e, CHUNKED);
  }

  /** The line the update emits for a received one, with its line ending. */
  function Emitted(line: seq<Byte>, n: nat): seq<Byte> { UpdateLine(StripEol(line), n) + CRLF }

  lemma ScanPrinted(n: nat, g: Framing)
    requires n <= USIZE_MAX
    ensures var t := PrintedLine(n, CRLF);
            IsLine(t) && !IsBlank(t) && ScanLine(g, t) == g.(contentLength := Some(n))
  {
    hide IsContentLength, AnnouncesChunked, LengthField, Lossy;
    var t := PrintedLine(n, CRLF);
    PrintedLineText(n, CRLF);
    PrintedLineKind(n, CRLF);
    PrintedLineValue(n, CRLF);
    ParsePrint(n, 10);
    LossyAscii(t);
    assert t == PrintedLine(n, []) + CRLF;
    CrLfLine(PrintedLine(n, []));
  }

  /** A well-formed line keeps its meaning when its ending becomes CRLF. */
  lemma ScanKept(x: seq<Byte>, e: seq<Byte>, g: Framing)
    requires IsEol(e) && '\n' !in x && Lossy(x + e) == x + e && !IsContentLength(x)
    ensures IsLine(x + CRLF)
    ensures ScanLine(g, x + CRLF) == g.(chunked := g.chunked || AnnouncesChunked(x))
  {
    hide IsContentLength, AnnouncesChunked;
    LossyAtAscii(x, e);
    LossyAtAscii(x, CRLF);
    LossyAscii(e);
    LossyAscii(CRLF);
    SameBeforeSuffix(Lossy(x), x, e);
    CrLfLine(x);
    KindBeforeEol(x, CRLF);
  }

  /** The update neither makes nor removes a blank line. */
  lemma EmittedBlank(line: seq<Byte>, n: nat)
    requires IsLine(line)
    ensures IsBlank(Emitted(line, n)) <==> IsBlank(line)
  {
    var x, t := StripEol(line), Emitted(line, n);
    var e := StripEolSplits(line);
    if x == [] {
      assert !IsContentLength(x) && t == CRLF;
    } else {
      assert |t| > 2;
    }
  }

  lemma ScanReplaced(x: seq<Byte>, e: seq<Byte>, g: Framing, n: nat)
    requires IsEol(e) && '\n' !in x && Lossy(x + e) == x + e && n <= USIZE_MAX
    ensures var t := UpdateLine(x, n) + CRLF;
            IsLine(t) && ScanLine(g, t) ==
            Framing(if IsContentLength(x) then Some(n) else g.contentLength, g.chunked || AnnouncesChunked(x))
  {
    hide ScanLine, Lossy, IsContentLength, AnnouncesChunked;
    if IsContentLength(x) {
      NotTwoHeaders(x);
      ScanPrinted(n, g);
      assert PrintedLine(n, []) + CRLF == PrintedLine(n, CRLF);
    } else {
      ScanKept(x, e, g);
    }
  }

  /** One line of the updated block, as the next reader scans it. */
  lemma ScanEmitted(line: seq<Byte>, g: Framing, n: nat)
    requires IsLine(line) && Lossy(line) == line && n <= USIZE_MAX
    ensures IsLine(Emitted(line, n))
    ensures IsContentLength(StripEol(line)) == IsContentLength(line)
    ensures ScanLine(g, Emitted(line, n)) ==
            Framing(if IsContentLength(line) then Some(n) else g.contentLength, g.chunked || AnnouncesChunked(line))
  {
    hide ScanLine, Lossy, IsContentLength, AnnouncesChunked;
    var x := StripEol(line);
    var e := StripEolSplits(line);
    StripEolNoLf(line);
    KindBeforeEol(x, e);
    ScanReplaced(x, e, g, n);
  }

  lemma StripEolNoLf(line: seq<Byte>)
    requires IsLine(line)
    ensures '\n' !in StripEol(line)
  {
    var x := StripEol(line);
    assert forall i :: 0 <= i < |x| ==> x[i] == line[..|line| - 1][i];
  }

  lemma NotTwoHeaders(line: seq<Byte>)
    ensures IsContentLength(line) ==> !AnnouncesChunked(line)
  {
    assert IsContentLength(line) ==> Lower(line)[0] == CONTENT_LENGTH[0] != TRANSFER_ENCODING[0];
  }

  lemma UpdatedCons(line: seq<Byte>, rest: seq<Byte>, n: nat)
    requires IsLine(line)
    ensures Updated(line + rest, n) == Emitted(line, n) + Updated(rest, n)
    ensures Lines(line + rest) == [StripEol(line)] + Lines(rest)
  {
    FirstLineOf(line, rest);
    var lines := Lines(line + rest);
    assert lines[1..] == Lines(rest);
    assert UpdateLines(lines, n)[1..] == UpdateLines(Lines(rest), n);
  }

  /** Decoding and updating go line by line. */
  lemma UpdatedBlock(line: seq<Byte>, raw: seq<Byte>, n: nat)
    requires IsLine(line)
    ensures Updated(Lossy(line + raw), n) == Emitted(Lossy(line), n) + Updated(Lossy(raw), n)
    ensures HasLength(Lines(Lossy(line + raw))) ==
            (IsContentLength(StripEol(Lossy(line))) || HasLength(Lines(Lossy(raw))))
  {
    LossyLine(line);
    LossyAfterLine(line, raw);
    UpdatedCons(Lossy(line), Lossy(raw), n);
    assert Lines(Lossy(line) + Lossy(raw))[1..] == Lines(Lossy(raw));
  }

  /** One received line against the line emitted for it. */
  lemma ScanPair(line: seq<Byte>, f: Framing, g: Framing, n: nat)
    requires IsLine(line) && n <= USIZE_MAX
    ensures var t := Emitted(Lossy(line), n);
            && IsLine(t) && (IsBlank(t) <==> IsBlank(line))
            && (f.chunked == g.chunked ==> ScanLine(f, line).chunked == ScanLine(g, t).chunked)
            && ScanLine(g, t).contentLength ==
               (if IsContentLength(StripEol(Lossy(line))) then Some(n) else g.contentLength)
            && (ScanLine(f, line).contentLength == f.contentLength || IsContentLength(StripEol(Lossy(line))))
  {
    LossyLine(line);
    LossyBlank(line);
    LossyIdempotent(line);
    ScanEmitted(Lossy(line), g, n);
    EmittedBlank(Lossy(line), n);
  }

  /** Scanning the updated block yields the new length whenever a Content-Length line exists,
      the unchanged chunked flag, and consumes exactly the block. */
  lemma {:induction false} ScanUpdated(s: seq<Byte>, f: Framing, g: Framing, n: nat, rest: seq<Byte>)
    requires ReadHead(s, f).Complete? && g.chunked == f.chunked && n <= USIZE_MAX
    ensures var h := ReadHead(s, f); var text := Lossy(h.raw); var u := Updated(text, n);
            && ReadHead(u + rest, g) ==
               Complete(u, Framing(if HasLength(Lines(text)) then Some(n) else g.contentLength, h.framing.chunked),
                        rest)
            && (h.framing.contentLength == f.contentLength || HasLength(Lines(text)))
    decreases |s|
  {
    var line, after := FirstLine(s), AfterLine(s);
    HeadLineIsLine(s, f);
    ScanPair(line, f, g, n);
    var t := Emitted(Lossy(line), n);
    var g' := ScanLine(g, t);
    if IsBlank(line) {
      UpdatedBlock(line, [], n);
      assert line + [] == line && t + [] == t;
      ReadHeadCons(t, rest, g);
    } else {
      var f' := ScanLine(f, line);
      var raw := ReadHead(after, f').raw;
      ScanUpdated(after, f', g', n, rest);
      UpdatedBlock(line, raw, n);
      ReadHeadMore(t, Updated(Lossy(raw), n), rest, g);
    }
  }
}

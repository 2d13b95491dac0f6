/** The texts and numbers of the source, written out: digits, line endings, letter case, header names
    and media types, URL bases. */
module Literals {
  import opened Bytes
  import opened Numbers
  import opened Unicode
  import opened Trimming
  import opened Rewriting
  import opened Headers
  import opened Chunks
  import opened Decoding
  import opened Recipient
  import opened Witnesses

  /** `p` begins at some position of `s`. */
  predicate Somewhere(s: seq<Byte>, p: seq<Byte>)
  {
    exists k :: 0 <= k <= |s| && p <= s[k..]
  }

  // ----- Digits and numbers -----

  lemma UsizeRange()
    ensures USIZE_MAX == 18_446_744_073_709_551_615
  {
  }

  /** Digits in either letter case; nothing else is one. */
  lemma DigitTable(c: Byte)
    ensures forall i :: 0 <= i < 16 ==> DigitValue("0123456789abcdef"[i]) == DigitValue("0123456789ABCDEF"[i]) == i
    ensures DigitValue(c) < 16 <==> c in "0123456789abcdefABCDEF"
  {
    var lower, upper := "0123456789abcdef", "0123456789ABCDEF";
    assert forall i :: 0 <= i < 16 ==> DigitValue(lower[i]) == i && DigitValue(upper[i]) == i;
  }

  predicate IsLowerDigit(c: Byte) { '0' <= c <= '9' || 'a' <= c <= 'f' }

  /** No leading zero. */
  predicate IsShort(digits: seq<Byte>) { |digits| == 1 || (digits != [] && digits[0] != '0') }

  /** Numbers are printed without leading zeros, and in lower case. */
  lemma {:induction false} PrintIsShort(n: nat, radix: nat)
    requires 2 <= radix <= 16
    ensures IsShort(Print(n, radix)) && (n > 0 ==> Print(n, radix)[0] != '0')
    ensures forall c :: c in Print(n, radix) ==> IsLowerDigit(c)
    decreases n
  {
    if n >= radix {
      Quotient(n, radix);
      assert n / radix > 0;
      PrintIsShort(n / radix, radix);
    }
    LowerDigit(n % radix);
  }

  lemma LowerDigit(d: nat)
    requires d < 16
    ensures IsLowerDigit(DigitByte(d)) && (d > 0 ==> DigitByte(d) != '0')
  {
  }

  lemma ValuePositive(digits: seq<Byte>, radix: nat)
    requires digits != [] && 2 <= radix <= 16 && AllDigits(digits, radix) && digits[0] != '0'
    ensures Value(digits, radix) >= Pow(radix, |digits| - 1) >= 1
  {
    ZeroDigit(digits[0]);
    PowPositive(radix, |digits| - 1);
    MulGrows(Pow(radix, |digits| - 1), DigitValue(digits[0]));
  }

  lemma ZeroDigit(c: Byte)
    requires DigitValue(c) < 16 && c != '0'
    ensures DigitValue(c) > 0
  {
  }

  /** The decimal text of a number is the only one without a leading zero. */
  lemma {:induction false} DecimalIs(n: nat, digits: seq<Byte>)
    requires IsShort(digits) && AllDigits(digits, 10) && Value(digits, 10) == n
    ensures digits == Print(n, 10)
    decreases |digits|
  {
    var init, last := digits[..|digits| - 1], digits[|digits| - 1];
    assert digits == init + [last];
    ValueSnoc(init, last, 10);
    DecimalDigit(last);
    if init != [] {
      assert init[0] == digits[0];
      ValuePositive(init, 10);
      assert n / 10 == Value(init, 10) && n % 10 == DigitValue(last);
      DecimalIs(n / 10, init);
    }
  }

  lemma DecimalDigit(c: Byte)
    requires DigitValue(c) < 10
    ensures DigitByte(DigitValue(c)) == c
  {
  }

  /** A sign in front is accepted, once. */
  lemma PlusAccepted(digits: seq<Byte>, radix: nat)
    requires 0 < radix <= 16 && digits != [] && AllDigits(digits, radix) && Value(digits, radix) <= USIZE_MAX
    ensures ParseUsize(digits, radix) == ParseUsize("+" + digits, radix) == Some(Value(digits, radix))
    ensures ParseUsize("++" + digits, radix) == None && ParseUsize("-" + digits, radix) == None
    ensures ParseUsize([], radix) == None && ParseUsize("+", radix) == None
  {
    PlusIsNoDigit(digits, radix);
    ParseUsizeMeaning(digits, radix);
    ParseUsizeMeaning("+" + digits, radix);
    ParseUsizeMeaning("++" + digits, radix);
    ParseUsizeMeaning("-" + digits, radix);
  }

  lemma PlusIsNoDigit(digits: seq<Byte>, radix: nat)
    requires 0 < radix <= 16 && digits != [] && AllDigits(digits, radix)
    ensures StripPlus(digits) == digits == StripPlus("+" + digits)
    ensures StripPlus("++" + digits) == "+" + digits && !AllDigits("+" + digits, radix)
    ensures StripPlus("-" + digits) == "-" + digits && !AllDigits("-" + digits, radix)
  {
    assert DigitValue('+') == 16 && DigitValue('-') == 16;
    assert ("+" + digits)[0] == '+' && ("-" + digits)[0] == '-' && ("+" + digits)[1..] == digits;
    assert ("++" + digits)[1..] == "+" + digits;
  }

  // ----- Lines -----

  /** `str::lines`: a line ending is LF or CR LF; a lone CR is text. */
  lemma LineTexts(x: seq<Byte>)
    requires '\n' !in x
    ensures StripEol(x + "\r\n") == x && StripEol(x) == x
    ensures (x == [] || x[|x| - 1] != '\r') ==> StripEol(x + "\n") == x
    ensures StripEol(x + "\r") == x + "\r"
  {
    CrLfLine(x);
    assert (x + "\n")[..|x|] == x;
    assert x != [] ==> x[|x| - 1] in x;
  }

  /** Both spellings end a header block. */
  lemma BlockEnds(line: seq<Byte>, rest: seq<Byte>)
    requires '\n' !in line && line != [] && line != "\r"
    ensures ReadHead(line + "\n" + "\n" + rest, NO_FRAMING).Complete?
    ensures ReadHead(line + "\n" + "\n" + rest, NO_FRAMING).raw == line + "\n" + "\n"
    ensures ReadHead(line + "\r\n" + "\r\n" + rest, NO_FRAMING).Complete?
    ensures ReadHead(line + "\r\n" + "\r\n" + rest, NO_FRAMING).raw == line + "\r\n" + "\r\n"
  {
    BlockEndsWith(line, "\n", rest);
    BlockEndsWith(line, "\r\n", rest);
  }

  lemma BlockEndsWith(line: seq<Byte>, e: seq<Byte>, rest: seq<Byte>)
    requires '\n' !in line && line != [] && line != "\r" && (e == "\n" || e == "\r\n")
    ensures var h := ReadHead(line + e + e + rest, NO_FRAMING); h.Complete? && h.raw == line + e + e
  {
    hide ScanLine;
    var x := line + e;
    assert x[..|x| - 1] == if e == "\n" then line else line + "\r";
    assert e[..|e| - 1] == if e == "\n" then "" else "\r";
    ConcatAssoc(x, e, rest);
    ReadHeadCons(x, e + rest, NO_FRAMING);
    ReadHeadCons(e, rest, ScanLine(NO_FRAMING, x));
  }

  // ----- Letter case and fields -----

  lemma LowerLetters(c: Byte)
    ensures LowerByte(c) as int - c as int == if 65 <= c as int <= 90 then 32 else 0
  {
  }

  /** `split(':').nth(1)`: the text between the first colon and the second, or the end. */
  lemma FieldBetween(a: seq<Byte>, b: seq<Byte>, c: seq<Byte>)
    requires ':' !in a && ':' !in b
    ensures ColonField(a + ":" + b) == b && ColonField(a + ":" + b + ":" + c) == b && ColonField(a) == []
  {
    ColonFieldOf(a, b);
    var rest := b + (":" + c);
    var s := a + ([':'] + rest);
    assert a + ":" + b + ":" + c == s;
    SpanIs(a, {':'}, [':'] + rest);
    assert s[|a| + 1..] == rest;
    SpanIs(b, {':'}, ":" + c);
    assert rest[..|b|] == b;
    AppendNothing(a);
    SpanIs(a, {':'}, []);
  }

  // ----- Header names -----

  /** A line is read as a length, or as a chunked coding, by these names alone, in any letter case. */
  lemma NamesRead(x: seq<Byte>)
    requires AllAscii(x)
    ensures IsContentLength(x) <==> "content-length:" <= Lower(x)
    ensures AnnouncesChunked(x) <==> "transfer-encoding:" <= Lower(x) && Somewhere(Lower(x), "chunked")
  {
    AsciiFolds(x);
    ContainsIff(Lower(x), "chunked");
  }

  /** White space after the colon is not needed. */
  lemma CodingWithoutSpace(name: seq<Byte>, value: seq<Byte>)
    requires name == "Transfer-Encoding:" && value == "chunked"
    ensures AnnouncesChunked(name + value)
  {
    hide Contains, Folded, Lower;
    CodingTexts(name, value);
    LowerConcat(name, value);
    CutAfter(Lower(name), Lower(value));
    Found(Lower(name + value), "chunked", |name|);
    NamesRead(name + value);
  }

  lemma CutAfter(a: seq<Byte>, b: seq<Byte>)
    ensures (a + b)[|a|..] == b && a <= a + b
  {
  }

  lemma CodingTexts(name: seq<Byte>, value: seq<Byte>)
    requires name == "Transfer-Encoding:" && value == "chunked"
    ensures Lower(name) == "transfer-encoding:" && Lower(value) == "chunked" && AllAscii(name + value)
  {
  }

  /** `to_lowercase` makes a `k` of the Kelvin sign. */
  lemma KelvinSign(front: seq<Byte>, back: seq<Byte>)
    requires front == "Transfer-Encoding: chun" && back == "ed"
    ensures KELVIN_SIGN == Encode(0x212A) && AnnouncesChunked(front + (KELVIN_SIGN + back))
  {
    hide Replace, Contains, Lower;
    var x, tail := front + (KELVIN_SIGN + back), "k" + back;
    ReplaceHeadless(front, KELVIN_SIGN + back, KELVIN_SIGN, "k");
    ReplaceOnce(KELVIN_SIGN + back, back, KELVIN_SIGN, "k");
    KelvinText(front, back);
    LowerConcat(front, KELVIN_SIGN + back);
    LowerConcat(front, tail);
    ContainsIff(Folded(x), CHUNKED);
    assert CHUNKED <= Folded(x)[19..];
  }

  lemma KelvinText(front: seq<Byte>, back: seq<Byte>)
    requires front == "Transfer-Encoding: chun" && back == "ed"
    ensures KELVIN_SIGN == Encode(0x212A) && TRANSFER_ENCODING <= Lower(front)
    ensures CHUNKED <= Lower(front + ("k" + back))[19..] && |front| == 23
    ensures Lower(front + ("k" + back)) == Lower(front) + Lower("k" + back)
  {
    LowerConcat(front, "k" + back);
    KelvinFront(front);
    assert Lower("k" + back) == "ked";
    assert (Lower(front) + "ked")[19..] == Lower(front)[19..] + "ked";
  }

  lemma KelvinFront(front: seq<Byte>)
    requires front == "Transfer-Encoding: chun"
    ensures TRANSFER_ENCODING <= Lower(front) && Lower(front)[19..] == "chun"
  {
    assert Lower(front)[..18] == TRANSFER_ENCODING;
  }

  /** The line that the update writes. */
  lemma WrittenLength(x: seq<Byte>, n: nat, digits: seq<Byte>)
    requires "content-length:" <= Lower(x) && IsShort(digits) && AllDigits(digits, 10) && Value(digits, 10) == n
    ensures UpdateLine(x, n) == "Content-Length: " + digits
  {
    DecimalIs(n, digits);
    AppendNothing("Content-Length: " + digits);
  }

  // ----- Media types -----

  /** The types whose bodies are rewritten. */
  predicate IsTextType(field: seq<Byte>)
  {
    "text/" <= field || Somewhere(field, "xml") || Somewhere(field, "json") || Somewhere(field, "html")
  }

  /** The first Content-Type line of a header block, trimmed and in lower case, is of such a type. */
  predicate IsTextBlock(headers: seq<Byte>)
  {
    exists i :: 0 <= i < |Lines(headers)| && "content-type:" <= Lower(Lines(headers)[i])
                && IsTextType(Trim(ColonField(Lower(Lines(headers)[i]))))
                && forall j :: 0 <= j < i ==> !("content-type:" <= Lower(Lines(headers)[j]))
  }

  /** The verdict on a header block. */
  lemma VerdictIff(headers: seq<Byte>)
    ensures ShouldRewrite(headers) <==> IsTextBlock(headers)
  {
    hide Trim, ColonField, Lines, RewritableLines, IsRewritableType, IsTextType;
    var lowered := LowerLines(Lines(headers));
    LinesOfLower(headers);
    FirstTypeDecides(lowered);
    forall field ensures IsRewritableType(field) == IsTextType(field) {
      SameTypes(field);
    }
  }

  lemma SameTypes(field: seq<Byte>)
    ensures IsRewritableType(field) == IsTextType(field)
  {
    ContainsIff(field, "xml");
    ContainsIff(field, "json");
    ContainsIff(field, "html");
  }

  /** A header block with the given type, spelled as it may be. */
  function TypedHead(value: seq<Byte>): seq<Byte>
  {
    STATUS + CRLF + ("Content-Type: " + value + CRLF + CRLF)
  }

  predicate IsTypeValue(value: seq<Byte>)
  {
    && value != [] && IsGraphic(Lower(value)[0]) && IsGraphic(Lower(value)[|value| - 1])
    && '\n' !in value && ':' !in Lower(value)
  }

  lemma TypedLines(value: seq<Byte>)
    requires IsTypeValue(value)
    ensures Lines(TypedHead(value)) == [STATUS, "Content-Type: " + value, []]
  {
    hide Lines;
    var line := "Content-Type: " + value;
    StatusLine(STATUS);
    CrLfLine(STATUS);
    CrLfLine(line);
    NothingBefore(CRLF);
    CrLfLine([]);
    LinesCons(STATUS + CRLF, line + CRLF + CRLF);
    LinesCons(line + CRLF, CRLF);
    AppendNothing(CRLF);
    LinesCons(CRLF, []);
    NoLines();
  }

  lemma StatusLine(x: seq<Byte>)
    requires x == STATUS
    ensures '\n' !in x && !("content-type:" <= Lower(x))
  {
    assert Lower(x)[0] == 'h';
  }

  lemma TypeField(value: seq<Byte>)
    requires IsTypeValue(value)
    ensures "content-type:" <= Lower("Content-Type: " + value)
    ensures Trim(ColonField(Lower("Content-Type: " + value))) == Lower(value)
  {
    hide Trim, ColonField;
    var name: seq<Byte> := "content-type";
    var low := Lower(value);
    LowerName(value);
    AppendNothing([' '] + low);
    FieldAfter(name, low, []);
    var line := Lower("Content-Type: " + value);
    assert line[..13] == "content-type:";
  }

  lemma LowerName(value: seq<Byte>)
    ensures Lower("Content-Type: " + value) == "content-type" + [':'] + ([' '] + Lower(value))
  {
    var front: seq<Byte> := "Content-Type: ";
    LowerConcat(front, value);
    assert Lower(front) == "content-type: ";
    assert "content-type" + [':'] + ([' '] + Lower(value)) == "content-type: " + Lower(value);
  }

  /** Its body is rewritten exactly for the four kinds of types. */
  lemma TypedVerdict(value: seq<Byte>)
    requires IsTypeValue(value)
    ensures ShouldRewrite(TypedHead(value)) <==> IsTextType(Lower(value))
  {
    hide Trim, ColonField, Lines, ShouldRewrite, IsTextType, Lower;
    TypedLines(value);
    TypeField(value);
    StatusLine(STATUS);
    VerdictIff(TypedHead(value));
    var lines: seq<seq<Byte>> := [STATUS, "Content-Type: " + value, []];
    NothingIsNoType();
    assert lines[0] == STATUS && lines[1] == "Content-Type: " + value && lines[2] == [];
  }

  lemma NothingIsNoType()
    ensures !("content-type:" <= Lower([]))
  {
  }

  lemma Found(s: seq<Byte>, p: seq<Byte>, k: nat)
    requires k <= |s| && p <= s[k..]
    ensures Somewhere(s, p)
  {
  }

  lemma Nowhere(s: seq<Byte>, p: seq<Byte>, i: nat)
    requires i < |p| && p[i] !in s
    ensures !Somewhere(s, p)
  {
    forall k | 0 <= k <= |s| ensures !(p <= s[k..]) {
      if k + i < |s| {
        assert s[k..][i] == s[k + i] && s[k + i] in s;
      }
    }
  }

  /** A type spelled in lower case. */
  predicate IsLowerType(value: seq<Byte>)
  {
    value != [] && forall i :: 0 <= i < |value| ==>
      IsGraphic(value[i]) && value[i] != ':' && !('A' <= value[i] <= 'Z')
  }

  lemma LowerTypeVerdict(value: seq<Byte>)
    requires IsLowerType(value)
    ensures ShouldRewrite(TypedHead(value)) <==> IsTextType(value)
  {
    hide ShouldRewrite, TypedHead, IsTextType;
    assert forall i :: 0 <= i < |value| ==> LowerByte(value[i]) == value[i];
    assert Lower(value) == value;
    TypedVerdict(value);
  }

  lemma ApplicationXml(value: seq<Byte>)
    requires value == "application/xml"
    ensures IsLowerType(value) && value[12..] == "xml"
  {
  }

  lemma ApplicationXhtml(value: seq<Byte>)
    requires value == "application/xhtml+xml"
    ensures IsLowerType(value) && value[18..] == "xml"
  {
  }

  lemma ApplicationJson(value: seq<Byte>)
    requires value == "application/json"
    ensures IsLowerType(value) && value[12..] == "json"
  {
  }

  lemma ApplicationHtml(value: seq<Byte>)
    requires value == "application/x+html"
    ensures IsLowerType(value) && value[14..] == "html"
  {
  }

  lemma TextPlain(value: seq<Byte>)
    requires value == "text/plain"
    ensures IsLowerType(value) && value[..5] == "text/"
  {
  }

  lemma VideoMp4(value: seq<Byte>)
    requires value == "video/mp4"
    ensures IsLowerType(value)
    ensures value[0] != 't' && 'x' !in value && 'n' !in value && 'h' !in value
  {
  }

  lemma ImageJpeg(value: seq<Byte>)
    requires value == "image/jpeg"
    ensures IsLowerType(value)
    ensures value[0] != 't' && 'x' !in value && 'n' !in value && 'h' !in value
  {
  }

  lemma AudioMpeg(value: seq<Byte>)
    requires value == "audio/mpeg"
    ensures IsLowerType(value)
    ensures value[0] != 't' && 'x' !in value && 'n' !in value && 'h' !in value
  {
  }

  /** Types of the documents of a media server, which are rewritten ... */
  lemma DocumentTypes(value: seq<Byte>)
    requires || value == "application/xml" || value == "application/xhtml+xml" || value == "application/json"
             || value == "application/x+html" || value == "text/plain"
    ensures ShouldRewrite(TypedHead(value))
  {
    hide ShouldRewrite, TypedHead, IsLowerType;
    if value == "application/xml" { ApplicationXml(value); Found(value, "xml", 12); }
    else if value == "application/xhtml+xml" { ApplicationXhtml(value); Found(value, "xml", 18); }
    else if value == "application/json" { ApplicationJson(value); Found(value, "json", 12); }
    else if value == "application/x+html" { ApplicationHtml(value); Found(value, "html", 14); }
    else { TextPlain(value); }
    LowerTypeVerdict(value);
  }

  /** ... also in other letter case ... */
  lemma UpperCaseType(value: seq<Byte>)
    requires value == "TEXT/XML"
    ensures ShouldRewrite(TypedHead(value))
  {
    hide ShouldRewrite, TypedHead;
    var low := Lower(value);
    assert low[..5] == "text/";
    TypedVerdict(value);
  }

  /** ... and of its media, which are not. */
  lemma MediaTypes(value: seq<Byte>)
    requires value == "video/mp4" || value == "image/jpeg" || value == "audio/mpeg"
    ensures !ShouldRewrite(TypedHead(value))
  {
    hide ShouldRewrite, TypedHead, IsLowerType;
    if value == "video/mp4" { VideoMp4(value); }
    else if value == "image/jpeg" { ImageJpeg(value); }
    else { AudioMpeg(value); }
    Nowhere(value, "xml", 0);
    Nowhere(value, "json", 3);
    Nowhere(value, "html", 0);
    LowerTypeVerdict(value);
  }

  // ----- URL bases -----

  /** The text of a URL base. */
  lemma UrlBaseIs(addr: SocketAddr, digits: seq<Byte>)
    requires IsShort(digits) && AllDigits(digits, 10) && Value(digits, 10) == addr.port
    ensures UrlBase(addr) == "http://" + addr.ip + ":" + digits
  {
    DecimalIs(addr.port, digits);
  }

  /** A URL of the origin, in any text around it without an `h`, becomes the proxy's. */
  lemma UrlRewritten(x: seq<Byte>, y: seq<Byte>, origin: SocketAddr, proxy: SocketAddr,
                     originPort: seq<Byte>, proxyPort: seq<Byte>)
    requires 'h' !in x && 'h' !in y
    requires IsShort(originPort) && AllDigits(originPort, 10) && Value(originPort, 10) == origin.port
    requires IsShort(proxyPort) && AllDigits(proxyPort, 10) && Value(proxyPort, 10) == proxy.port
    ensures Replace(x + ("http://" + origin.ip + ":" + originPort) + y, UrlBase(origin), UrlBase(proxy)) ==
            x + ("http://" + proxy.ip + ":" + proxyPort) + y
  {
    hide Replace, UrlBase;
    var from, to := UrlBase(origin), UrlBase(proxy);
    UrlBaseIs(origin, originPort);
    UrlBaseIs(proxy, proxyPort);
    UrlBaseShape(origin);
    ConcatAssoc(x, from, y);
    ReplaceHeadless(x, from + y, from, to);
    ReplaceOnce(from + y, y, from, to);
    ConcatAssoc(x, to, y);
  }

  // ----- Chunks -----

  /** What the encoder writes. */
  lemma EncodedText(body: seq<Byte>, digits: seq<Byte>)
    requires digits == Print(|body|, 16)
    ensures EncodeChunked(body) == digits + "\r\n" + body + "\r\n" + "0\r\n\r\n"
  {
    ConcatAssoc(digits + "\r\n", body, "\r\n");
  }
}

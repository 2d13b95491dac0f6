/** Concrete responses for the conditions of the refinement theorems and for the bound on buffering. */
module Witnesses {
  import opened Bytes
  import opened Numbers
  import opened Trimming
  import opened Utf8
  import opened Headers
  import opened Chunks
  import opened Rewriting
  import opened Decoding
  import opened Connection
  import opened Refinement
  import opened Recipient
  import opened Streams

  const STATUS: seq<Byte> := "HTTP/1.1 200 OK"
  const TYPE_XML: seq<Byte> := "Content-Type: text/xml"
  const CODING: seq<Byte> := "Transfer-Encoding: chunked"

  /** The header of a chunked XML response. */
  function XmlHead(): seq<Byte> { STATUS + CRLF + (TYPE_XML + CRLF + (CODING + CRLF + CRLF)) }

  predicate IsPlain(x: seq<Byte>)
  {
    x != [] && forall i :: 0 <= i < |x| ==> x[i] != '\n' && IsAscii(x[i])
  }

  lemma PlainLine(x: seq<Byte>)
    requires IsPlain(x)
    ensures IsLine(x + CRLF) && !IsBlank(x + CRLF) && StripEol(x + CRLF) == x
    ensures Lossy(x + CRLF) == x + CRLF
  {
    CrLfLine(x);
    LossyAscii(x + CRLF);
  }

  lemma PlainScans(x: seq<Byte>, f: Framing)
    requires IsPlain(x) && !IsContentLength(x)
    ensures ScanLine(f, x + CRLF) == f.(chunked := f.chunked || AnnouncesChunked(x))
  {
    PlainLine(x);
    KindBeforeEol(x, CRLF);
  }

  lemma StatusKind(x: seq<Byte>)
    requires x == STATUS
    ensures IsPlain(x) && !IsContentLength(x) && !AnnouncesChunked(x) && !(CONTENT_TYPE <= Lower(x))
  {
    assert Lower(x)[0] == 'h';
    assert CONTENT_LENGTH[0] == 'c' && TRANSFER_ENCODING[0] == 't' && CONTENT_TYPE[0] == 'c';
  }

  lemma TypeKind(x: seq<Byte>)
    requires x == TYPE_XML
    ensures IsPlain(x) && !IsContentLength(x) && !AnnouncesChunked(x)
  {
    assert Lower(x)[0] == 'c' && Lower(x)[8] == 't';
    assert CONTENT_LENGTH[8] == 'l' && TRANSFER_ENCODING[0] == 't';
  }

  lemma CodingKind(x: seq<Byte>)
    requires x == CODING
    ensures IsPlain(x) && !IsContentLength(x)
  {
    assert Lower(x)[0] == 't' && CONTENT_LENGTH[0] == 'c';
  }

  lemma CodingChunked(x: seq<Byte>)
    requires x == CODING
    ensures AnnouncesChunked(x)
  {
    hide Contains, Folded, IsPlain, IsContentLength;
    var lower := Lower(x);
    assert lower[..18] == TRANSFER_ENCODING && lower[19..] == CHUNKED;
    EndsWith(lower, 19, CHUNKED);
    CodingKind(x);
    AsciiFolds(x);
  }

  lemma EndsWith(s: seq<Byte>, k: nat, p: seq<Byte>)
    requires k <= |s| && s[k..] == p
    ensures Contains(s, p)
  {
    ContainsIff(s, p);
  }

  /** Its header is read as chunked, whatever follows. */
  lemma HeadIsRead(rest: seq<Byte>)
    ensures ReadHead(XmlHead() + rest, NO_FRAMING) == Complete(XmlHead(), Framing(None, true), rest)
  {
    var f, g := NO_FRAMING, Framing(None, true);
    HeadKinds();
    PlainScans(STATUS, f);
    PlainScans(TYPE_XML, f);
    PlainScans(CODING, f);
    StrayScans(CRLF, g);
    ReadHeadCons(CRLF, rest, g);
    ReadHeadMore(CODING + CRLF, CRLF, rest, f);
    ReadHeadMore(TYPE_XML + CRLF, CODING + CRLF + CRLF, rest, f);
    ReadHeadMore(STATUS + CRLF, TYPE_XML + CRLF + (CODING + CRLF + CRLF), rest, f);
  }

  lemma HeadKinds()
    ensures IsPlain(STATUS) && !IsContentLength(STATUS) && !AnnouncesChunked(STATUS)
    ensures IsPlain(TYPE_XML) && !IsContentLength(TYPE_XML) && !AnnouncesChunked(TYPE_XML)
    ensures IsPlain(CODING) && !IsContentLength(CODING) && AnnouncesChunked(CODING)
    ensures IsLine(STATUS + CRLF) && IsLine(TYPE_XML + CRLF) && IsLine(CODING + CRLF)
    ensures !IsBlank(STATUS + CRLF) && !IsBlank(TYPE_XML + CRLF) && !IsBlank(CODING + CRLF)
    ensures StripEol(STATUS + CRLF) == STATUS && StripEol(TYPE_XML + CRLF) == TYPE_XML
  {
    StatusKind(STATUS);
    TypeKind(TYPE_XML);
    CodingKind(CODING);
    CodingChunked(CODING);
    PlainLine(STATUS);
    PlainLine(TYPE_XML);
    PlainLine(CODING);
  }

  lemma HeadText()
    ensures Lossy(XmlHead()) == XmlHead()
  {
    hide Lossy, Lower, IsPlain;
    HeadKinds();
    PlainLine(STATUS);
    PlainLine(TYPE_XML);
    PlainLine(CODING);
    LossyAscii(CRLF);
    LossyAfterLine(CODING + CRLF, CRLF);
    LossyAfterLine(TYPE_XML + CRLF, CODING + CRLF + CRLF);
    LossyAfterLine(STATUS + CRLF, TYPE_XML + CRLF + (CODING + CRLF + CRLF));
  }

  lemma HeadLines() returns (more: seq<seq<Byte>>)
    ensures Lines(XmlHead()) == [STATUS] + ([TYPE_XML] + more)
  {
    HeadKinds();
    LinesCons(STATUS + CRLF, TYPE_XML + CRLF + (CODING + CRLF + CRLF));
    LinesCons(TYPE_XML + CRLF, CODING + CRLF + CRLF);
    more := Lines(CODING + CRLF + CRLF);
  }

  /** A first line that names no type is passed over; the line that does decides. */
  lemma SecondLineDecides(a: seq<Byte>, b: seq<Byte>, more: seq<seq<Byte>>)
    requires !(CONTENT_TYPE <= Lower(a)) && CONTENT_TYPE <= Lower(b)
    requires IsRewritableType(Trim(ColonField(Lower(b))))
    ensures RewritableLines(LowerLines([a] + ([b] + more)))
  {
    var lowered := LowerLines([a] + ([b] + more));
    assert lowered[0] == Lower(a) && lowered[1..][0] == Lower(b);
  }

  /** And its body is to be rewritten. */
  lemma HeadIsRewritable()
    ensures IsRewritten(XmlHead(), Framing(None, true))
  {
    HeadText();
    HeadDecides(XmlHead());
  }

  lemma HeadDecides(head: seq<Byte>)
    requires head == XmlHead()
    ensures ShouldRewrite(head)
  {
    var more := HeadLines();
    LinesOfLower(head);
    StatusKind(STATUS);
    TypeDecides(TYPE_XML);
    SecondLineDecides(STATUS, TYPE_XML, more);
  }

  lemma TypeDecides(x: seq<Byte>)
    requires x == TYPE_XML
    ensures CONTENT_TYPE <= Lower(x) && IsRewritableType(Trim(ColonField(Lower(x))))
  {
    hide Trim, ColonField, Contains;
    var name: seq<Byte>, kind: seq<Byte> := "content-type", "text/xml";
    TypePieces(x, name, kind);
    assert kind[0] == 't' && kind[7] == 'l' && ':' !in name && ':' !in kind;
    FieldAfter(name, kind, []);
    assert [' '] + kind + [] == [' '] + kind;
    assert kind[..5] == "text/";
  }

  lemma TypePieces(x: seq<Byte>, name: seq<Byte>, kind: seq<Byte>)
    requires x == TYPE_XML && name == "content-type" && kind == "text/xml"
    ensures Lower(x) == name + [':'] + ([' '] + kind)
    ensures CONTENT_TYPE <= Lower(x)
  {
    assert CONTENT_TYPE == name + [':'];
  }

  /** A chunked XML response with the given body. */
  function XmlResponse(body: seq<Byte>): seq<Byte> { XmlHead() + Render(OneChunk(body), LastChunk()) }

  function XmlMessage(body: seq<Byte>): Message { Message(XmlHead(), Framing(None, true), body) }

  /** It is well-framed, is to be rewritten, and the proxy can carry it exactly when its body is
      non-empty and within the limit: both conditions of the refinement theorem are needed. */
  lemma XmlCarriedIff(body: seq<Byte>)
    requires |body| <= USIZE_MAX
    ensures ParseStream(XmlResponse(body)) == Some([XmlMessage(body)])
    ensures AllCarried([XmlMessage(body)]) <==> 0 < |body| <= MAX_REWRITABLE_BODY_SIZE
  {
    hide Render, Dechunk, IsRewritten, ReadHead;
    var m := XmlMessage(body);
    BodyIsRead(body);
    HeadIsRead(Render(OneChunk(body), LastChunk()));
    HeadIsRewritable();
    SingleMessage(XmlResponse(body), m);
    assert AllCarried([m]) <==> IsCarried([m][0]);
  }

  lemma CodingEndsChunked(x: seq<Byte>)
    requires x == CODING
    ensures EndsChunked(x) && IsTransferEncoding(x)
  {
    var lower := Lower(x);
    assert lower[..18] == TRANSFER_ENCODING;
    ChunkedAtEnd(x, lower);
  }

  lemma ChunkedAtEnd(x: seq<Byte>, lower: seq<Byte>)
    requires x == CODING && lower == Lower(x)
    ensures ChunkedAt(x, 19)
  {
    assert lower[19..26] == CHUNKED;
    assert x[18] == ' ' && x[26..] == [];
  }

  lemma NoEncodings()
    ensures !IsTransferEncoding(STATUS) && !IsTransferEncoding(TYPE_XML) && !IsTransferEncoding([])
    ensures !IsContentLength([])
  {
    assert Lower(STATUS)[0] == 'h' && Lower(TYPE_XML)[0] == 'c' && TRANSFER_ENCODING[0] == 't';
  }

  /** A block without a length whose one coding line ends in `chunked`. */
  lemma ChunkedFrames(lines: seq<seq<Byte>>, k: nat)
    requires k < |lines| && IsTransferEncoding(lines[k]) && EndsChunked(lines[k])
    requires forall i :: 0 <= i < |lines| ==> !IsContentLength(lines[i]) && (IsTransferEncoding(lines[i]) <==> i == k)
    ensures Frames(lines, Framing(None, true))
  {
    hide IsTransferEncoding, IsContentLength, EndsChunked;
  }

  lemma ThreeLines(a: seq<Byte>, b: seq<Byte>, c: seq<Byte>)
    requires '\n' !in a && '\n' !in b && '\n' !in c
    ensures Lines(a + CRLF + (b + CRLF + (c + CRLF + CRLF))) == [a, b, c, []]
  {
    hide Lines;
    CrLfLine(a);
    CrLfLine(b);
    CrLfLine(c);
    NothingBefore(CRLF);
    CrLfLine([]);
    LinesCons(a + CRLF, b + CRLF + (c + CRLF + CRLF));
    LinesCons(b + CRLF, c + CRLF + CRLF);
    LinesCons(c + CRLF, CRLF);
    AppendNothing(CRLF);
    LinesCons(CRLF, []);
    NoLines();
  }

  lemma NoLines()
    ensures Lines([]) == []
  {
  }

  lemma HeadFrames()
    ensures IsBlock(XmlHead()) && Frames(Lines(XmlHead()), Framing(None, true))
  {
    hide IsTransferEncoding, IsContentLength, EndsChunked, AnnouncesChunked, Lines, ReadHead, Frames, EndsAtBlank;
    HeadKinds();
    NoEncodings();
    CodingEndsChunked(CODING);
    ThreeLines(STATUS, TYPE_XML, CODING);
    ChunkedFrames([STATUS, TYPE_XML, CODING, []], 2);
    XmlHeadIsBlock(XmlHead());
  }

  lemma XmlHeadIsBlock(head: seq<Byte>)
    requires head == XmlHead()
    ensures IsBlock(head)
  {
    hide XmlHead, ReadHead, EndsAtBlank;
    HeadIsRead([]);
    AppendNothing(head);
    FramingMeaning(head, NO_FRAMING);
    HeadEndsLine(head, NO_FRAMING);
  }

  lemma HeadHasStatus(head: seq<Byte>, first: seq<Byte>, more: seq<Byte>)
    requires first == STATUS && head == first + more
    ensures HasStatus(head) && !IsBodiless(head)
  {
    assert head[..12] == first[..12];
    assert first[..5] == "HTTP/" && first[9..12] == "200";
    StatusOfFront(first, head);
  }

  /** It is a stream of one well-formed response. */
  lemma XmlIsStream(body: seq<Byte>)
    requires |body| <= USIZE_MAX
    ensures IsStream(XmlResponse(body), [Response(XmlMessage(body), [])])
  {
    hide Render, XmlHead, IsBlock, Frames, IsChunking, HasStatus, IsBodiless, IsTrailer, RenderChunks, Data;
    var r, coded := Response(XmlMessage(body), []), Render(OneChunk(body), LastChunk());
    HeadFrames();
    XmlStatus();
    OneChunkIsChunking(body);
    RenderParts(OneChunk(body), LastChunk());
    NothingBefore(CRLF);
    NoTrailer();
    assert IsChunked(OneChunk(body), LastChunk(), r, coded);
    AppendNothing(XmlHead() + coded);
    assert Begins(XmlResponse(body), r, coded, []);
    StreamFirst(XmlResponse(body), r, coded, [], [r]);
    NothingBegins([]);
    assert [r][1..] == [];
  }

  lemma XmlStatus()
    ensures HasStatus(XmlHead()) && !IsBodiless(XmlHead())
  {
    var more := CRLF + (TYPE_XML + CRLF + (CODING + CRLF + CRLF));
    ConcatAssoc(STATUS, CRLF, TYPE_XML + CRLF + (CODING + CRLF + CRLF));
    HeadHasStatus(XmlHead(), STATUS, more);
  }

  lemma BodyIsRead(body: seq<Byte>)
    requires |body| <= USIZE_MAX
    ensures Dechunk(Render(OneChunk(body), LastChunk())) == Some(Buffered(body, []))
  {
    OneChunkIsChunking(body);
    DechunkRender(OneChunk(body), LastChunk(), []);
    AppendNothing(Render(OneChunk(body), LastChunk()));
  }

  lemma SingleMessage(s: seq<Byte>, m: Message)
    requires s != [] && ParseMessage(s) == Some(Parsed(m, []))
    ensures ParseStream(s) == Some([m])
  {
    assert ParseStream([]) == Some([]) && [m] + [] == [m];
  }

  /** A body over the limit, and an empty body: in neither case does the client see the response. */
  lemma NotSeen(body: seq<Byte>, origin: SocketAddr, proxy: SocketAddr)
    requires body == [] || MAX_REWRITABLE_BODY_SIZE < |body| <= USIZE_MAX
    ensures var from, to := UrlBase(origin), UrlBase(proxy);
            !SeenAs(XmlResponse(body), TransformAll([XmlMessage(body)], from, to), from, to)
  {
    XmlCarriedIff(body);
    ConnectionRefinement(XmlResponse(body), origin, proxy);
  }

  /** A body that is carried is seen with its own octets, rewritten, exactly when it is UTF-8. */
  lemma XmlOctets(body: seq<Byte>, origin: SocketAddr, proxy: SocketAddr)
    requires 0 < |body| <= MAX_REWRITABLE_BODY_SIZE
    ensures var from, to := UrlBase(origin), UrlBase(proxy);
            SeenAs(XmlResponse(body), IntendedAll([XmlMessage(body)], from, to), from, to) <==> Valid(body)
  {
    hide Valid, IntendedAll, XmlResponse, XmlMessage, IsText, SeenAs, AllText, AllCarried, UrlBase;
    var m, from, to := XmlMessage(body), UrlBase(origin), UrlBase(proxy);
    XmlCarriedIff(body);
    OctetRefinement(XmlResponse(body), origin, proxy);
    UrlBaseShape(origin);
    XmlIsText(body, from, to);
    SingleText(m, from, to);
  }

  lemma SingleText(m: Message, origin: seq<Byte>, proxy: seq<Byte>)
    requires origin != []
    ensures AllText([m], origin, proxy) <==> IsText(m, origin, proxy)
  {
    hide IsText;
    assert [m][0] == m;
  }

  lemma XmlIsText(body: seq<Byte>, origin: seq<Byte>, proxy: seq<Byte>)
    requires origin != []
    ensures IsText(XmlMessage(body), origin, proxy) <==> Valid(body)
  {
    hide Valid, Lossy, XmlHead, IsRewritten;
    HeadIsRewritable();
    HeadText();
    LossyIdentityIff(XmlHead());
  }

  /** An accented letter in Latin-1 on the rewrite route: there is nothing to replace, and the
      client does not see what the origin sent. */
  lemma Latin1NotSeen(origin: SocketAddr, proxy: SocketAddr)
    ensures var from, to := UrlBase(origin), UrlBase(proxy);
            var m := XmlMessage(['\U{E9}']);
            AllCarried([m]) && Intended(m, from, to) == m && !SeenAs(XmlResponse(m.body), [m], from, to)
  {
    hide Replace, Lossy, Valid, XmlResponse, XmlHead;
    var m, from, to := XmlMessage(['\U{E9}']), UrlBase(origin), UrlBase(proxy);
    XmlCarriedIff(m.body);
    XmlOctets(m.body, origin, proxy);
    UrlBaseShape(origin);
    UrlBaseAscii(origin);
    Latin1Witness(from, to);
    assert IntendedAll([m], from, to) == [m];
  }

  // ----- How much is held -----

  lemma OneChunkHeld(line: seq<Byte>, body: seq<Byte>, last: seq<Byte>, maxSize: nat)
    requires IsLine(line) && ParseChunkSize(line) == Some(|body|) && 0 < |body| <= maxSize
    requires ParseChunkSize(FirstLine(last)) == Some(0)
    ensures PeakHeld(line + (body + CRLF) + last, 0, maxSize) == Held(2 * |body|, |body|)
  {
    hide ParseChunkSize, PeakHeld, LineEnd;
    var s := line + (body + CRLF) + last;
    SplitChunk(line, body, CRLF, last);
    PeakOfChunk(s, |body|, 0, maxSize);
    PeakOfEnd(last, |body|, maxSize);
  }

  lemma XmlBodyHeld(body: seq<Byte>)
    requires 0 < |body| <= MAX_REWRITABLE_BODY_SIZE
    ensures PeakHeld(Render(OneChunk(body), LastChunk()), 0, MAX_REWRITABLE_BODY_SIZE) == Held(2 * |body|, |body|)
  {
    hide ParseChunkSize, PeakHeld;
    var c, last := OneChunk(body)[0], Render([], LastChunk());
    PrintValue(|body|, 16);
    PrintValue(0, 16);
    NoExtension();
    SizeLineParses(c.digits, c.ext);
    SizeLineParses(LastChunk().digits, LastChunk().ext);
    FirstLineOf(SizeLine(LastChunk().digits, LastChunk().ext), CRLF);
    assert OneChunk(body)[1..] == [];
    OneChunkHeld(SizeLine(c.digits, c.ext), body, last, MAX_REWRITABLE_BODY_SIZE);
  }

  /** The bound on what a connection holds is reached: a body sent in one chunk is held twice. */
  lemma XmlHeldTwice(body: seq<Byte>, origin: seq<Byte>, proxy: seq<Byte>)
    requires origin != [] && 0 < |body| <= MAX_REWRITABLE_BODY_SIZE
    ensures ServePeak(XmlResponse(body), origin, proxy) == Held(2 * |body|, |body|)
  {
    hide Render, Dechunk, IsRewritten, ReadHead, PeakHeld, ReadChunked, XmlHead;
    var s, coded := XmlResponse(body), Render(OneChunk(body), LastChunk());
    HeadIsRead(coded);
    HeadIsRewritable();
    XmlBodyHeld(body);
    BodyIsRead(body);
    DechunkRead(coded, Buffered(body, []), MAX_REWRITABLE_BODY_SIZE);
    assert ReplyPeak(s) == Held(2 * |body|, |body|);
    assert Respond(s, origin, proxy).Relayed? && Respond(s, origin, proxy).rest == [];
    NothingHeld(origin, proxy);
  }

  lemma NothingHeld(origin: seq<Byte>, proxy: seq<Byte>)
    requires origin != []
    ensures ServePeak([], origin, proxy) == NOTHING
  {
  }

  lemma LimitReached(origin: seq<Byte>, proxy: seq<Byte>)
    requires origin != []
    ensures exists s :: ServePeak(s, origin, proxy) == Held(2 * MAX_REWRITABLE_BODY_SIZE, MAX_REWRITABLE_BODY_SIZE)
  {
    var body := seq(MAX_REWRITABLE_BODY_SIZE, _ => 'a');
    XmlHeldTwice(body, origin, proxy);
  }
}

/** Inputs for the departures from what the proxy is for, with the connections they occur on. */
module Departures {
  import opened Bytes
  import opened Numbers
  import opened Utf8
  import opened Headers
  import opened Chunks
  import opened Walks
  import opened Rewriting
  import opened Decoding
  import opened Connection
  import opened Runs
  import opened Refinement
  import opened Recipient
  import opened Streams
  import opened Lenience
  import opened Witnesses

  lemma XmlFront(coded: seq<Byte>)
    ensures ReadHead(XmlHead() + coded, NO_FRAMING) == Complete(XmlHead(), Framing(None, true), coded)
    ensures IsRewritten(XmlHead(), Framing(None, true))
  {
    HeadIsRead(coded);
    HeadIsRewritable();
  }

  // ----- A panic -----

  /** One chunk of one octet, then the size line of the largest `usize`. */
  function Overflowing(): seq<Byte>
  {
    RenderChunks(OneChunk(['a'])) + (SizeLine(Print(USIZE_MAX, 16), []) + [])
  }

  lemma OverflowingPanics()
    ensures ReadChunked(Overflowing(), [], MAX_REWRITABLE_BODY_SIZE) == Err(Panicked)
  {
    hide RenderChunks, ReadChunked, Value, Data, IsExtension;
    OneChunkIsChunking(['a']);
    PrintValue(USIZE_MAX, 16);
    NoExtension();
    PanicAfter(OneChunk(['a']), Print(USIZE_MAX, 16), [], [], MAX_REWRITABLE_BODY_SIZE);
  }

  lemma PanicWitness(origin: seq<Byte>, proxy: seq<Byte>)
    requires origin != []
    ensures Serve(XmlHead() + Overflowing(), origin, proxy) == Served([], [], Some(Panicked))
  {
    hide IsRewritten, ReadHead, ReadChunked, XmlHead, Overflowing;
    XmlFront(Overflowing());
    OverflowingPanics();
    UnbufferedSendsNothing(XmlHead() + Overflowing(), origin, proxy);
  }

  // ----- More than the limit is held -----

  const MEGABYTE: nat := 1024 * 1024

  function Chunked(data: seq<Byte>): Chunk { Chunk(Print(|data|, 16), [], data) }

  lemma ChunkedIsChunk(data: seq<Byte>)
    requires |data| <= USIZE_MAX
    ensures IsChunk(Chunked(data))
  {
    PrintValue(|data|, 16);
    NoExtension();
  }

  /** Six megabytes and four: the body fits the limit of ten, the vectors do not. */
  lemma TwoChunksExceed(a: seq<Byte>, b: seq<Byte>, origin: seq<Byte>, proxy: seq<Byte>)
    requires origin != [] && |a| == 6 * MEGABYTE && |b| == 4 * MEGABYTE
    ensures var coded := Render([Chunked(a), Chunked(b)], LastChunk());
            && ReadChunked(coded, [], MAX_REWRITABLE_BODY_SIZE) == Ok(Buffered(a + b, []))
            && ServePeak(XmlHead() + coded, origin, proxy).copies > MAX_REWRITABLE_BODY_SIZE
  {
    hide IsRewritten, ReadHead, ReadChunked, XmlHead, Render, PeakHeld, IsChunk;
    var chunks, last := [Chunked(a), Chunked(b)], LastChunk();
    var coded := Render(chunks, last);
    ChunkedIsChunk(a);
    ChunkedIsChunk(b);
    OneChunkIsChunking([]);
    TwoData(Chunked(a), Chunked(b));
    AppendNothing(coded);
    ReadChunkedInverts(chunks, last, [], MAX_REWRITABLE_BODY_SIZE);
    LimitKeptIff(chunks, last, [], 0, MAX_REWRITABLE_BODY_SIZE);
    assert chunks[..0] == [] && 0 + |Data(chunks[..0])| + 2 * |chunks[0].data| > MAX_REWRITABLE_BODY_SIZE;
    XmlFront(coded);
    FrontHeld(XmlHead() + coded, origin, proxy);
  }

  lemma TwoData(c: Chunk, d: Chunk)
    ensures Data([c, d]) == c.data + d.data
  {
    assert [c, d][0] == c && [c, d][1..] == [d] && [d][0] == d && [d][1..] == [];
    AppendNothing(d.data);
    assert Data([d]) == d.data;
  }

  lemma FrontHeld(s: seq<Byte>, origin: seq<Byte>, proxy: seq<Byte>)
    requires origin != []
    ensures ReplyPeak(s).copies <= ServePeak(s, origin, proxy).copies
  {
    hide ReplyPeak, Respond;
  }

  // ----- A body that is cut short is completed -----

  /** Whatever the decoder makes a non-empty body of, the client gets as a complete response. */
  lemma XmlTaken(coded: seq<Byte>, body: seq<Byte>)
    requires body != [] && ReadChunked(coded, [], MAX_REWRITABLE_BODY_SIZE) == Ok(Buffered(body, []))
    ensures TakenStream(XmlHead() + coded) == Some([XmlMessage(body)])
    ensures NoneEmpty(Fronts(XmlHead() + coded))
  {
    hide IsRewritten, ReadHead, ReadChunked, XmlHead, PassChunked, Announced;
    var s := XmlHead() + coded;
    XmlFront(coded);
    WalkersAgree(coded, [], MAX_REWRITABLE_BODY_SIZE);
    assert Next(s) == Some([]);
    FrontsNext(s);
    NothingNext();
    assert Fronts(s) == [s, []] && !EmptyAt(s);
    assert TakenMessage(s) == Some(Parsed(XmlMessage(body), []));
    assert [XmlMessage(body)] + [] == [XmlMessage(body)];
  }

  lemma NothingNext()
    ensures Next([]).None? && Fronts([]) == [[]] && !EmptyAt([]) && TakenStream([]) == Some([])
  {
  }

  lemma CutBodyRead(body: seq<Byte>)
    requires 0 < |body| <= MAX_REWRITABLE_BODY_SIZE
    ensures ReadChunked(RenderChunks(OneChunk(body)), [], MAX_REWRITABLE_BODY_SIZE) == Ok(Buffered(body, []))
    ensures !IsComplete(WalkOf(RenderChunks(OneChunk(body))))
  {
    hide ParseChunkSize, LineEnd, WalkOf, ReadChunked, IsChunk;
    var c := OneChunk(body)[0];
    OneChunkIsChunking(body);
    ChunkLine(c);
    assert OneChunk(body)[1..] == [];
    ReadComposed(SizeLine(c.digits, c.ext), body, CRLF, [], [], MAX_REWRITABLE_BODY_SIZE);
    NothingBefore(body);
    NothingRead(body);
    AppendNothing(RenderChunks(OneChunk(body)));
    WalkRendered(OneChunk(body), []);
    WalkEnds([]);
  }

  lemma NothingRead(body: seq<Byte>)
    ensures ReadChunked([], body, MAX_REWRITABLE_BODY_SIZE) == Ok(Buffered(body, []))
  {
  }

  /** The end of input in place of the zero chunk: no complete response for its sender, one for the client. */
  lemma CutBodyCompleted(body: seq<Byte>, origin: SocketAddr, proxy: SocketAddr)
    requires 0 < |body| <= MAX_REWRITABLE_BODY_SIZE
    ensures var s, from, to := XmlHead() + RenderChunks(OneChunk(body)), UrlBase(origin), UrlBase(proxy);
            ParseStream(s).None? && SeenAs(s, TransformAll([XmlMessage(body)], from, to), from, to)
  {
    hide IsRewritten, ReadHead, ReadChunked, XmlHead, RenderChunks, TakenStream, NoneEmpty, SeenAs, WalkOf, Next;
    var coded := RenderChunks(OneChunk(body));
    var s, from, to := XmlHead() + coded, UrlBase(origin), UrlBase(proxy);
    CutBodyRead(body);
    XmlTaken(coded, body);
    TakenRefinement(s, TransformAll([XmlMessage(body)], from, to), origin, proxy);
    XmlFront(coded);
    DechunkIff(coded);
    NotParsed(s);
  }

  lemma NotParsed(s: seq<Byte>)
    requires var h := ReadHead(s, NO_FRAMING); h.Complete? && h.framing.chunked && Dechunk(h.rest).None?
    ensures ParseStream(s).None?
  {
  }

  // ----- What the client sees of the origin -----

  /** No response that the client parses from the rewrite route contains the origin's base. */
  predicate HidesOrigin(s: seq<Byte>, from: seq<Byte>, to: seq<Byte>)
    requires from != []
  {
    var seen := ParseStream(Serve(s, from, to).sent);
    seen.Some? ==>
      forall i :: 0 <= i < |seen.value| && FromRewrite(Fronts(s), i) ==> !Contains(seen.value[i].body, from)
  }

  lemma OriginHidden(s: seq<Byte>, origin: SocketAddr, proxy: SocketAddr)
    requires NeitherPrefix(UrlBase(origin), UrlBase(proxy))
    ensures UrlBase(origin) != [] && HidesOrigin(s, UrlBase(origin), UrlBase(proxy))
  {
    hide Serve, ParseStream, Contains, UrlBase, FromRewrite, View, Fronts, NeitherPrefix;
    var from, to := UrlBase(origin), UrlBase(proxy);
    UrlBaseShape(origin);
    UrlBaseShape(proxy);
    ClientParsesView(s, from, to);
    var seen := View(s, from, to);
    if seen.Some? {
      forall i | 0 <= i < |seen.value| && FromRewrite(Fronts(s), i) ensures !Contains(seen.value[i].body, from) {
        OriginHiddenAt(s, i, origin, proxy);
      }
    }
  }

  lemma OriginHiddenAt(s: seq<Byte>, i: nat, origin: SocketAddr, proxy: SocketAddr)
    requires NeitherPrefix(UrlBase(origin), UrlBase(proxy))
    ensures UrlBase(origin) != [] && UrlBase(proxy) != []
    ensures var view := View(s, UrlBase(origin), UrlBase(proxy));
            view.Some? && i < |view.value| && FromRewrite(Fronts(s), i) ==>
              !Contains(view.value[i].body, UrlBase(origin))
  {
    hide Contains, UrlBase, View, TakenMessage, Fronts, Transform, IsRewritten, RewrittenAt, EmptyAt;
    var from, to := UrlBase(origin), UrlBase(proxy);
    UrlBaseShape(origin);
    UrlBaseShape(proxy);
    BasesShareHead(origin, proxy);
    var view := View(s, from, to);
    if view.Some? && i < |view.value| && FromRewrite(Fronts(s), i) {
      ViewAt(s, i, from, to);
      RewrittenBody(TakenMessage(Fronts(s)[i]).value.message, from, to);
    }
  }

  lemma OriginLeft(origin: SocketAddr, proxy: SocketAddr)
    requires !NeitherPrefix(UrlBase(origin), UrlBase(proxy))
    ensures UrlBase(origin) != []
    ensures var body := LeftBehind(UrlBase(origin), UrlBase(proxy));
            !HidesOrigin(XmlHead() + Render(OneChunk(body), LastChunk()), UrlBase(origin), UrlBase(proxy))
  {
    hide NoneEmpty, TakenStream, Serve, ParseStream, IsRewritten, Contains, UrlBase, XmlHead, Render, ReadChunked,
         LeftBehind, Lossy;
    var from, to := UrlBase(origin), UrlBase(proxy);
    var body := LeftBehind(from, to);
    UrlBaseShape(origin);
    UrlBaseShape(proxy);
    UrlBaseAscii(origin);
    BasesShareHead(origin, proxy);
    LeavesOrigin(from, to);
    AsciiFrom(body, from);
    LossyAscii(body);
    BodyIsRead(body);
    DechunkRead(Render(OneChunk(body), LastChunk()), Buffered(body, []), MAX_REWRITABLE_BODY_SIZE);
    var s := XmlHead() + Render(OneChunk(body), LastChunk());
    XmlTaken(Render(OneChunk(body), LastChunk()), body);
    TakenRefinement(s, TransformAll([XmlMessage(body)], from, to), origin, proxy);
    XmlFront(Render(OneChunk(body), LastChunk()));
    assert FromRewrite(Fronts(s), 0);
    assert TransformAll([XmlMessage(body)], from, to)[0] == Transform(XmlMessage(body), from, to);
    HeadIsRewritable();
  }

  lemma AsciiFrom(s: seq<Byte>, from: seq<Byte>)
    requires AllAscii(from) && forall c :: c in s ==> c in from
    ensures forall c :: c in s ==> IsAscii(c)
  {
  }

  /** What the proxy is for, on every input and however the run ends: the client sees no origin base in
      a rewritten response, exactly when neither base is a prefix of the other. */
  lemma ClientHidesOrigin(origin: SocketAddr, proxy: SocketAddr)
    ensures UrlBase(origin) != []
    ensures (forall s :: HidesOrigin(s, UrlBase(origin), UrlBase(proxy))) <==>
            NeitherPrefix(UrlBase(origin), UrlBase(proxy))
  {
    hide HidesOrigin, NeitherPrefix;
    UrlBaseShape(origin);
    if NeitherPrefix(UrlBase(origin), UrlBase(proxy)) {
      forall s ensures HidesOrigin(s, UrlBase(origin), UrlBase(proxy)) {
        OriginHidden(s, origin, proxy);
      }
    } else {
      OriginLeft(origin, proxy);
    }
  }

  // ----- A response without a body -----

  const NO_CONTENT: seq<Byte> := "HTTP/1.1 204 No Content"

  function NoContent(): Response { Response(Message(NO_CONTENT + CRLF + CRLF, NO_FRAMING, []), []) }

  lemma NoContentPlain(x: seq<Byte>)
    requires x == NO_CONTENT
    ensures '\n' !in x && !IsContentLength(x) && !IsTransferEncoding(x)
    ensures !IsContentLength([]) && !IsTransferEncoding([])
  {
    assert Lower(x)[0] == 'h' && CONTENT_LENGTH[0] == 'c' && TRANSFER_ENCODING[0] == 't';
  }

  lemma PlainBlock(x: seq<Byte>)
    requires '\n' !in x && x != [] && !IsContentLength(x) && !IsTransferEncoding(x)
    requires !IsContentLength([]) && !IsTransferEncoding([])
    ensures IsBlock(x + CRLF + CRLF) && Frames(Lines(x + CRLF + CRLF), NO_FRAMING)
  {
    hide IsContentLength, IsTransferEncoding, NamesOthers, Lines, RawLines;
    var line, s := x + CRLF, x + CRLF + CRLF;
    CrLfLine(x);
    NothingBefore(CRLF);
    CrLfLine([]);
    AppendNothing(CRLF);
    LinesCons(line, CRLF);
    LinesCons(CRLF, []);
    NoLines();
    assert Lines(s) == [x, []];
    RawLinesCons(line, CRLF);
    RawLinesCons(CRLF, []);
    NoRawLines();
    assert RawLines(s) == [line, CRLF];
  }

  lemma NoRawLines()
    ensures RawLines([]) == []
  {
  }

  lemma NoContentStatus(head: seq<Byte>, first: seq<Byte>, more: seq<Byte>)
    requires first == NO_CONTENT && head == first + more
    ensures HasStatus(head) && IsBodiless(head)
  {
    assert head[..12] == first[..12];
    assert first[..5] == "HTTP/" && first[9..12] == "204";
    StatusOfFront(first, head);
  }

  lemma NoContentBegins(rest: seq<Byte>)
    ensures Begins(NoContent().message.head + rest, NoContent(), [], rest)
  {
    hide IsBlock, Frames, HasStatus, IsBodiless, Lines;
    NoContentPlain(NO_CONTENT);
    PlainBlock(NO_CONTENT);
    ConcatAssoc(NO_CONTENT, CRLF, CRLF);
    NoContentStatus(NoContent().message.head, NO_CONTENT, CRLF + CRLF);
    AppendNothing(NoContent().message.head);
  }

  /** After a 204 the proxy streams: the next response, though of a type it rewrites, arrives as it is,
      so that the client does not get what it should unless there was nothing to rewrite. */
  lemma NoContentUnrewritten(body: seq<Byte>, origin: SocketAddr, proxy: SocketAddr)
    requires |body| <= USIZE_MAX
    ensures var s, rs := NoContent().message.head + XmlResponse(body), [NoContent(), Response(XmlMessage(body), [])];
            var from, to := UrlBase(origin), UrlBase(proxy);
            && IsStream(s, rs) && Serve(s, from, to) == Served(s, [], None)
            && (IsStream(Serve(s, from, to).sent, TransformResponses(rs, from, to)) <==>
                Valid(body) && (from == to || !Contains(body, from)))
  {
    hide IsStream, XmlResponse, XmlHead, Begins, Serve, Transform, IsRewritten, Valid, Contains, UrlBase;
    var s, rest := NoContent().message.head + XmlResponse(body), XmlResponse(body);
    var r, from, to := Response(XmlMessage(body), []), UrlBase(origin), UrlBase(proxy);
    var rs := [NoContent(), r];
    UrlBaseShape(origin);
    NoContentBegins(rest);
    XmlIsStream(body);
    StreamFirst(s, NoContent(), [], rest, rs);
    assert rs[1..] == [r];
    Verbatim(s, NoContent(), [], rest, from, to) by { NoContentPasses(); }
    WellFormedRefinement(s, rs, origin, proxy);
    UnchangedIff(XmlMessage(body), origin, proxy) by { HeadIsRewritable(); }
    XmlHeadValid();
    OnlyFirstKept(NoContent(), r, from, to) by { NoContentPasses(); }
  }

  lemma NoContentPasses()
    ensures EndsFraming(NoContent()) && !IsRewritten(NoContent().message.head, NO_FRAMING)
    ensures IsCarriedWhole(NoContent())
  {
    hide ShouldRewrite, Lossy;
  }

  lemma XmlHeadValid()
    ensures Valid(XmlHead())
  {
    HeadText();
    LossyIdentityIff(XmlHead());
  }

  lemma OnlyFirstKept(a: Response, b: Response, from: seq<Byte>, to: seq<Byte>)
    requires from != [] && EndsFraming(a) && IsCarriedWhole(a)
    ensures ArrivesTransformed([a, b], from, to) <==> Transform(b.message, from, to) == b.message
  {
    hide EndsFraming, IsCarriedWhole, Transform;
    var rs := [a, b];
    assert rs[0] == a && rs[1] == b;
    assert !IsLost(rs, 0) && IsLost(rs, 1);
  }

  // ----- Trailer fields -----

  const DIGEST: seq<Byte> := "Digest: x"

  function Trailer(): seq<Byte> { DIGEST + CRLF }

  lemma DigestPlain(x: seq<Byte>)
    requires x == DIGEST
    ensures x != [] && '\n' !in x && !IsContentLength(x) && !IsTransferEncoding(x) && !("HTTP/" <= x)
    ensures !IsContentLength([]) && !IsTransferEncoding([])
  {
    assert Lower(x)[0] == 'd' && CONTENT_LENGTH[0] == 'c' && TRANSFER_ENCODING[0] == 't';
  }

  lemma TrailerIsTrailer()
    ensures IsTrailer(Trailer()) && Trailer() != []
  {
    hide IsContentLength, IsTransferEncoding, Lines, IsBlock, Frames;
    DigestPlain(DIGEST);
    PlainBlock(DIGEST);
    PlainLines(DIGEST);
  }

  lemma PlainLines(x: seq<Byte>)
    requires '\n' !in x
    ensures Lines(x + CRLF + CRLF) == [x, []]
  {
    hide Lines;
    CrLfLine(x);
    NothingBefore(CRLF);
    CrLfLine([]);
    AppendNothing(CRLF);
    LinesCons(x + CRLF, CRLF);
    LinesCons(CRLF, []);
    NoLines();
  }

  /** One chunk, a zero chunk and the trailer field. */
  function WithTrailer(body: seq<Byte>): seq<Byte>
  {
    RenderChunks(OneChunk(body)) + (SizeLine(LastChunk().digits, LastChunk().ext) + (Trailer() + CRLF))
  }

  lemma TrailerBegins(m: Message, rest: seq<Byte>)
    requires IsBlock(m.head) && HasStatus(m.head) && !IsBodiless(m.head) && Frames(Lines(m.head), m.framing)
    requires m.framing == Framing(None, true) && |m.body| <= USIZE_MAX
    ensures Begins(m.head + WithTrailer(m.body) + rest, Response(m, Trailer()), WithTrailer(m.body), rest)
  {
    hide IsBlock, HasStatus, IsBodiless, Frames, IsTrailer, IsChunking, RenderChunks, Data;
    OneChunkIsChunking(m.body);
    TrailerIsTrailer();
    assert IsChunked(OneChunk(m.body), LastChunk(), Response(m, Trailer()), WithTrailer(m.body));
  }

  /** A well-formed XML response with a trailer field: whatever its body and whatever follows, the
      client is left without a stream of responses. */
  lemma TrailerSpoils(body: seq<Byte>, rest: seq<Byte>, es: seq<Response>, origin: SocketAddr, proxy: SocketAddr)
    requires |body| <= USIZE_MAX
    ensures var s, r := XmlHead() + WithTrailer(body) + rest, Response(XmlMessage(body), Trailer());
            && Begins(s, r, WithTrailer(body), rest)
            && !(Serve(s, UrlBase(origin), UrlBase(proxy)).fault.None? &&
                 IsStream(Serve(s, UrlBase(origin), UrlBase(proxy)).sent, es))
  {
    hide XmlHead, WithTrailer, Begins, IsBlock, HasStatus, IsBodiless, Frames, Lines, IsRewritten, Serve, IsStream;
    UrlBaseShape(origin);
    UrlBaseShape(proxy);
    HeadFrames();
    XmlStatus();
    HeadIsRewritable();
    TrailerIsTrailer();
    TrailerBegins(XmlMessage(body), rest);
    Spoiled(XmlHead() + WithTrailer(body) + rest, Response(XmlMessage(body), Trailer()), WithTrailer(body), rest, es,
            UrlBase(origin), UrlBase(proxy));
  }

  /** The header of a chunked response without a type. */
  function PlainHead(): seq<Byte> { STATUS + CRLF + (CODING + CRLF + CRLF) }

  lemma PlainHeadLines()
    ensures Lines(PlainHead()) == [STATUS, CODING, []]
  {
    hide Lines;
    HeadKinds();
    PlainLine(STATUS);
    PlainLine(CODING);
    LinesCons(STATUS + CRLF, CODING + CRLF + CRLF);
    PlainCoding(CODING);
    PlainLines(CODING);
  }

  lemma PlainCoding(x: seq<Byte>)
    requires x == CODING
    ensures '\n' !in x && !(CONTENT_TYPE <= Lower(x))
  {
    assert Lower(x)[0] == 't' && CONTENT_TYPE[0] == 'c';
  }

  lemma PlainHeadReads(rest: seq<Byte>)
    ensures ReadHead(PlainHead() + rest, NO_FRAMING) == Complete(PlainHead(), Framing(None, true), rest)
  {
    HeadKinds();
    PlainScans(STATUS, NO_FRAMING);
    PlainScans(CODING, NO_FRAMING);
    StrayScans(CRLF, Framing(None, true));
    ReadHeadCons(CRLF, rest, Framing(None, true));
    ReadHeadMore(CODING + CRLF, CRLF, rest, NO_FRAMING);
    ReadHeadMore(STATUS + CRLF, CODING + CRLF + CRLF, rest, NO_FRAMING);
  }

  lemma PlainHeadFrames()
    ensures IsBlock(PlainHead()) && Frames(Lines(PlainHead()), Framing(None, true))
  {
    hide IsTransferEncoding, IsContentLength, EndsChunked, AnnouncesChunked, Lines, ReadHead, Frames, EndsAtBlank,
         IsPlain;
    HeadKinds();
    NoEncodings();
    CodingEndsChunked(CODING);
    PlainHeadLines();
    ChunkedFrames([STATUS, CODING, []], 1);
    PlainHeadReads([]);
    AppendNothing(PlainHead());
    FramingMeaning(PlainHead(), NO_FRAMING);
    HeadEndsLine(PlainHead(), NO_FRAMING);
  }

  lemma PlainHeadPasses()
    ensures !IsRewritten(PlainHead(), Framing(None, true)) && HasStatus(PlainHead()) && !IsBodiless(PlainHead())
  {
    hide Lossy, Lines, HasStatus, IsBodiless;
    HeadKinds();
    PlainLine(STATUS);
    PlainLine(CODING);
    LossyAscii(CRLF);
    LossyAfterLine(CODING + CRLF, CRLF);
    LossyAfterLine(STATUS + CRLF, CODING + CRLF + CRLF);
    LinesOfLower(PlainHead());
    PlainHeadLines();
    StatusKind(STATUS);
    PlainCoding(CODING);
    NoTypeNoRewrite(STATUS, CODING);
    ConcatAssoc(STATUS, CRLF, CODING + CRLF + CRLF);
    HeadHasStatus(PlainHead(), STATUS, CRLF + (CODING + CRLF + CRLF));
  }

  lemma NoTypeNoRewrite(a: seq<Byte>, b: seq<Byte>)
    requires !(CONTENT_TYPE <= Lower(a)) && !(CONTENT_TYPE <= Lower(b))
    ensures !RewritableLines(LowerLines([a, b, []]))
  {
    var lines: seq<seq<Byte>> := [a, b, []];
    var lowered: seq<seq<Byte>> := LowerLines(lines);
    assert lowered[0] == Lower(a) && lowered[1] == Lower(b) && lowered[2] == Lower(lines[2]);
    FirstTypeDecides(lowered);
  }

  /** The same response without a type is passed through with all that follows it, as it is. */
  lemma TrailerPasses(body: seq<Byte>, rest: seq<Byte>, origin: seq<Byte>, proxy: seq<Byte>)
    requires origin != [] && |body| <= USIZE_MAX
    ensures var s, r := PlainHead() + WithTrailer(body) + rest,
                        Response(Message(PlainHead(), Framing(None, true), body), Trailer());
            Begins(s, r, WithTrailer(body), rest) && Serve(s, origin, proxy) == Served(s, [], None)
  {
    hide PlainHead, WithTrailer, Begins, IsBlock, HasStatus, IsBodiless, Frames, Lines, IsRewritten, Serve;
    var m := Message(PlainHead(), Framing(None, true), body);
    PlainHeadFrames();
    PlainHeadPasses();
    TrailerIsTrailer();
    TrailerBegins(m, rest);
    Verbatim(PlainHead() + WithTrailer(body) + rest, Response(m, Trailer()), WithTrailer(body), rest, origin, proxy);
  }

  // ----- A length that is a list -----

  /** A response whose last length is a list is streamed with all that follows it, of whatever type. */
  lemma ListedLengthStreams(head: seq<Byte>, rest: seq<Byte>, origin: seq<Byte>, proxy: seq<Byte>)
    requires origin != [] && IsBlock(head) && EndsInList(Lines(head))
    ensures Serve(head + rest, origin, proxy) == Served(head + rest, [], None)
  {
    hide IsBlock, EndsInList, ReadHead;
    ListScans(head, rest);
    RestStreamed(head + rest, origin, proxy);
  }

  const FIVE_FIVE: seq<Byte> := "Content-Length: 5, 5"

  lemma FiveFive(x: seq<Byte>)
    requires x == FIVE_FIVE
    ensures '\n' !in x && IsLengthList(x) && IsContentLength(x) && !IsTransferEncoding(x)
  {
    assert Lower(x)[..15] == CONTENT_LENGTH && TRANSFER_ENCODING[0] == 't';
    assert x[15..16] == " " && x[16..20] == "5, 5" && x[20..] == [];
    assert ListAt(x, 16, 20);
  }

  function ListedHead(): seq<Byte> { STATUS + CRLF + (FIVE_FIVE + CRLF + CRLF) }

  lemma ListedHeadLines(a: seq<Byte>, b: seq<Byte>)
    requires '\n' !in a && '\n' !in b && a != [] && b != []
    ensures Lines(a + CRLF + (b + CRLF + CRLF)) == [a, b, []] && IsBlock(a + CRLF + (b + CRLF + CRLF))
  {
    hide Lines, RawLines;
    CrLfLine(a);
    CrLfLine(b);
    LinesCons(a + CRLF, b + CRLF + CRLF);
    PlainLines(b);
    NothingBefore(CRLF);
    CrLfLine([]);
    AppendNothing(CRLF);
    RawLinesCons(a + CRLF, b + CRLF + CRLF);
    RawLinesCons(b + CRLF, CRLF);
    RawLinesCons(CRLF, []);
    NoRawLines();
    assert RawLines(a + CRLF + (b + CRLF + CRLF)) == [a + CRLF, b + CRLF, CRLF];
  }

  lemma ListedHeadIs()
    ensures IsBlock(ListedHead()) && EndsInList(Lines(ListedHead()))
  {
    hide IsLengthList, IsContentLength, IsTransferEncoding, Lines, IsBlock, AnnouncesChunked, IsPlain;
    HeadKinds();
    PlainLine(STATUS);
    NoEncodings();
    FiveFive(FIVE_FIVE);
    StatusPlain(STATUS);
    ListedHeadLines(STATUS, FIVE_FIVE);
    var lines: seq<seq<Byte>> := [STATUS, FIVE_FIVE, []];
    assert lines[0] == STATUS && lines[1] == FIVE_FIVE && lines[2] == [];
    assert IsLastLength(lines, 1);
  }

  lemma StatusPlain(x: seq<Byte>)
    requires x == STATUS
    ensures '\n' !in x && x != []
  {
  }

  /** With the length `5, 5`: five octets of body, but all that follows is sent with them. */
  lemma ListedLengthWitness(rest: seq<Byte>, origin: seq<Byte>, proxy: seq<Byte>)
    requires origin != []
    ensures Serve(ListedHead() + rest, origin, proxy) == Served(ListedHead() + rest, [], None)
  {
    hide ListedHead, IsBlock, EndsInList, Serve;
    ListedHeadIs();
    ListedLengthStreams(ListedHead(), rest, origin, proxy);
  }
}

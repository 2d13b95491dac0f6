/** Which route a response takes, with the limit and the types written out, and responses of known
    length on either side of the limit. */
module Routes {
  import opened Bytes
  import opened Numbers
  import opened Utf8
  import opened Rewriting
  import opened Headers
  import opened Chunks
  import opened Decoding
  import opened Connection
  import opened Refinement
  import opened Recipient
  import opened Streams
  import opened Literals
  import opened Witnesses

  /** The rewrite route: a length or chunks, a text type, and no length beyond ten megabytes. */
  lemma RouteIff(raw: seq<Byte>, f: Framing)
    ensures IsRewritten(raw, f) <==>
            && (f.chunked || f.contentLength.Some?) && IsTextBlock(Lossy(raw))
            && (f.contentLength.Some? ==> f.contentLength.value <= 10_485_760)
  {
    hide ShouldRewrite, IsTextBlock;
    VerdictIff(Lossy(raw));
  }

  /** A response of known length that has arrived: if its type is text and it has at most ten megabytes
      its bases are replaced, with a header that fits; otherwise it is sent as it is. */
  lemma KnownLength(s: seq<Byte>, n: nat, origin: seq<Byte>, proxy: seq<Byte>)
    requires origin != [] && ReadHead(s, NO_FRAMING).Complete?
    requires ReadHead(s, NO_FRAMING).framing == Framing(Some(n), false) && n <= |ReadHead(s, NO_FRAMING).rest|
    ensures var h, r := ReadHead(s, NO_FRAMING), Respond(s, origin, proxy);
            var body := h.rest[..n];
            && r.Relayed? && r.rest == h.rest[n..]
            && r.sent ==
               if IsTextBlock(Lossy(h.raw)) && n <= 10_485_760 then
                 var rewritten := Replace(Lossy(body), origin, proxy);
                 (if |rewritten| == n then Lossy(h.raw) else Updated(Lossy(h.raw), |rewritten|)) + rewritten
               else h.raw + body
  {
    hide IsTextBlock, ReadHead, Lossy, Replace, Updated, IsRewritten;
    var h := ReadHead(s, NO_FRAMING);
    RouteIff(h.raw, h.framing);
  }

  /** A chunked response: of a text type, without a length beyond ten megabytes, it is buffered up to
      ten megabytes and sent in one chunk with its bases replaced, or not at all; otherwise its chunks
      are forwarded. */
  lemma ChunkedRoute(s: seq<Byte>, origin: seq<Byte>, proxy: seq<Byte>)
    requires origin != [] && ReadHead(s, NO_FRAMING).Complete? && ReadHead(s, NO_FRAMING).framing.chunked
    ensures var h := ReadHead(s, NO_FRAMING); var length := h.framing.contentLength;
            Respond(s, origin, proxy) ==
            if IsTextBlock(Lossy(h.raw)) && (length.Some? ==> length.value <= 10_485_760)
            then Recoded(h, ReadChunked(h.rest, [], 10_485_760), origin, proxy)
            else Forwarded(h, PassChunked(h.rest))
  {
    hide IsTextBlock, ReadHead, Lossy, Replace, Updated, IsRewritten, ReadChunked, PassChunked, EncodeChunked;
    var h := ReadHead(s, NO_FRAMING);
    RouteIff(h.raw, h.framing);
  }

  function Recoded(h: Head, r: Result<Buffered>, origin: seq<Byte>, proxy: seq<Byte>): Reply
    requires origin != [] && h.Complete?
  {
    if r.Err? then Failed([], r.fault)
    else
      var body, rewritten := r.value.body, Replace(Lossy(r.value.body), origin, proxy);
      var resized := h.framing.contentLength.Some? && |rewritten| != |body|;
      Relayed((if resized then Updated(Lossy(h.raw), |rewritten|) else Lossy(h.raw)) + EncodeChunked(rewritten),
              r.value.rest)
  }

  function Forwarded(h: Head, p: Passage): Reply
    requires h.Complete?
  {
    if p.Broken? then Failed(h.raw + p.sent, p.fault) else Relayed(h.raw + p.sent, p.rest)
  }

  // ----- An XML response of known length -----

  function LengthLine(n: nat): seq<Byte> { "Content-Length: " + Print(n, 10) }

  function FixedHead(n: nat): seq<Byte> { STATUS + CRLF + (TYPE_XML + CRLF + (LengthLine(n) + CRLF + CRLF)) }

  function FixedMessage(body: seq<Byte>): Message
  {
    Message(FixedHead(|body|), Framing(Some(|body|), false), body)
  }

  lemma LengthLineKind(n: nat)
    requires n <= USIZE_MAX
    ensures var x := LengthLine(n);
            && IsPlain(x) && IsContentLength(x) && !AnnouncesChunked(x) && IsLine(x + CRLF) && !IsBlank(x + CRLF)
            && ScanLine(NO_FRAMING, x + CRLF) == Framing(Some(n), false)
            && StripEol(x + CRLF) == x && Lossy(x + CRLF) == x + CRLF && IsLength(x, n) && !IsTransferEncoding(x)
  {
    hide IsContentLength, AnnouncesChunked, LengthField, ScanLine, Lossy, IsPlain, IsLength, IsTransferEncoding;
    var x := LengthLine(n);
    AppendNothing(x);
    assert PrintedLine(n, []) == x && PrintedLine(n, CRLF) == x + CRLF;
    PrintedLineKind(n, []);
    PrintedLengthIs(n);
    ScanPrinted(n, NO_FRAMING);
    LengthLinePlain(n);
    PlainLine(x);
  }

  lemma LengthLinePlain(n: nat)
    ensures IsPlain(LengthLine(n))
  {
    DecimalDigits(n);
    PrintedLineText(n, "\n");
    PrintedLineText(n, CRLF);
    AppendNothing(LengthLine(n));
    var x, y := LengthLine(n), PrintedLine(n, CRLF);
    assert y == x + CRLF;
    assert forall i :: 0 <= i < |x| ==> x[i] == y[i] && y[i] in y && x[i] in PrintedLine(n, []);
  }

  lemma FixedHeadReads(n: nat, rest: seq<Byte>)
    requires n <= USIZE_MAX
    ensures ReadHead(FixedHead(n) + rest, NO_FRAMING) == Complete(FixedHead(n), Framing(Some(n), false), rest)
  {
    hide LengthLine, ScanLine, IsPlain, IsContentLength, AnnouncesChunked, Lossy;
    HeadKinds();
    PlainScans(STATUS, NO_FRAMING);
    PlainScans(TYPE_XML, NO_FRAMING);
    LengthLineKind(n);
    StrayScans(CRLF, Framing(Some(n), false));
    ReadHeadCons(CRLF, rest, Framing(Some(n), false));
    var line := LengthLine(n) + CRLF;
    ReadHeadMore(line, CRLF, rest, NO_FRAMING);
    ReadHeadMore(TYPE_XML + CRLF, line + CRLF, rest, NO_FRAMING);
    ReadHeadMore(STATUS + CRLF, TYPE_XML + CRLF + (line + CRLF), rest, NO_FRAMING);
  }

  lemma FixedHeadText(n: nat)
    requires n <= USIZE_MAX
    ensures Lossy(FixedHead(n)) == FixedHead(n)
    ensures Lines(FixedHead(n)) == [STATUS, TYPE_XML, LengthLine(n), []]
  {
    hide Lossy, Lower, IsPlain, LengthLine, Lines, IsLength, IsContentLength, ScanLine, AnnouncesChunked;
    HeadKinds();
    PlainLine(STATUS);
    PlainLine(TYPE_XML);
    LengthLineKind(n);
    LossyAscii(CRLF);
    var line := LengthLine(n) + CRLF;
    LossyAfterLine(line, CRLF);
    LossyAfterLine(TYPE_XML + CRLF, line + CRLF);
    LossyAfterLine(STATUS + CRLF, TYPE_XML + CRLF + (line + CRLF));
    NothingBefore(CRLF);
    CrLfLine([]);
    LinesCons(STATUS + CRLF, TYPE_XML + CRLF + (line + CRLF));
    LinesCons(TYPE_XML + CRLF, line + CRLF);
    LinesCons(line, CRLF);
    AppendNothing(CRLF);
    LinesCons(CRLF, []);
    NoLines();
  }

  lemma FixedHeadIsText(n: nat)
    requires n <= USIZE_MAX
    ensures IsTextBlock(Lossy(FixedHead(n)))
  {
    hide Lossy, Lower, LengthLine, Lines, ShouldRewrite, IsRewritableType, ColonField, IsTextBlock;
    FixedHeadText(n);
    LinesOfLower(FixedHead(n));
    StatusKind(STATUS);
    TypeDecides(TYPE_XML);
    var more: seq<seq<Byte>> := [LengthLine(n), []];
    SecondLineDecides(STATUS, TYPE_XML, more);
    assert [STATUS] + ([TYPE_XML] + more) == [STATUS, TYPE_XML, LengthLine(n), []];
    TextBlock(FixedHead(n));
    VerdictIff(Lossy(FixedHead(n)));
  }

  lemma TextBlock(head: seq<Byte>)
    requires RewritableLines(LowerLines(Lines(head)))
    ensures ShouldRewrite(head)
  {
    LinesOfLower(head);
  }

  /** For an XML response of known length the client sees the body with its bases replaced up to ten
      megabytes, and the body as it is beyond them. */
  lemma FixedSeen(body: seq<Byte>, origin: SocketAddr, proxy: SocketAddr)
    requires |body| <= USIZE_MAX
    ensures var s, from, to := FixedHead(|body|) + body, UrlBase(origin), UrlBase(proxy);
            var seen := ParseStream(Serve(s, from, to).sent);
            && Serve(s, from, to).fault.None? && seen.Some? && |seen.value| == 1
            && seen.value[0].body == (if |body| <= 10_485_760 then Replace(Lossy(body), from, to) else body)
            && seen.value[0].framing == Framing(Some(|seen.value[0].body|), false)
  {
    hide ReadHead, IsRewritten, FixedHead, Lossy, Replace, Updated, IsTextBlock, Serve, RewrittenHead;
    var s, from, to := FixedHead(|body|) + body, UrlBase(origin), UrlBase(proxy);
    var m := FixedMessage(body);
    FixedParsed(body);
    FixedHeadIsText(|body|);
    RouteIff(m.head, m.framing);
    ConnectionRefinement(s, origin, proxy);
    assert TransformAll([m], from, to)[0] == Transform(m, from, to);
    assert AllCarried([m]);
  }

  lemma FixedParsed(body: seq<Byte>)
    requires |body| <= USIZE_MAX
    ensures ParseStream(FixedHead(|body|) + body) == Some([FixedMessage(body)])
  {
    hide ReadHead, FixedHead;
    var s := FixedHead(|body|) + body;
    FixedHeadReads(|body|, body);
    assert body[..|body|] == body && body[|body|..] == [];
    NonEmpty(s);
    SingleMessage(s, FixedMessage(body));
  }

  lemma NonEmpty(s: seq<Byte>)
    requires ReadHead(s, NO_FRAMING).Complete?
    ensures s != []
  {
  }

  /** A block whose one length is valid, without a coding. */
  lemma LengthFrames(lines: seq<seq<Byte>>, k: nat, n: nat)
    requires k < |lines| && IsContentLength(lines[k]) && IsLength(lines[k], n) && n <= USIZE_MAX
    requires forall i :: 0 <= i < |lines| ==> !IsTransferEncoding(lines[i]) && (IsContentLength(lines[i]) <==> i == k)
    ensures Frames(lines, Framing(Some(n), false))
  {
    hide IsTransferEncoding, IsContentLength, IsLength, EndsChunked, NamesOthers;
  }

  lemma FixedFrames(n: nat)
    requires n <= USIZE_MAX
    ensures IsBlock(FixedHead(n)) && Frames(Lines(FixedHead(n)), Framing(Some(n), false))
    ensures HasStatus(FixedHead(n)) && !IsBodiless(FixedHead(n))
  {
    hide IsTransferEncoding, IsContentLength, AnnouncesChunked, Lines, FixedHead, IsPlain, LengthLine, IsLength,
         ScanLine, Lossy, HasStatus, IsBodiless, Frames, IsBlock;
    HeadKinds();
    NoEncodings();
    LengthLineKind(n);
    FixedHeadText(n);
    LengthFrames([STATUS, TYPE_XML, LengthLine(n), []], 2, n);
    FixedIsBlock(n);
    FixedStatus(n);
  }

  lemma FixedIsBlock(n: nat)
    requires n <= USIZE_MAX
    ensures IsBlock(FixedHead(n))
  {
    hide FixedHead, ReadHead, EndsAtBlank;
    FixedHeadReads(n, []);
    AppendNothing(FixedHead(n));
    FramingMeaning(FixedHead(n), NO_FRAMING);
    HeadEndsLine(FixedHead(n), NO_FRAMING);
  }

  lemma FixedStatus(n: nat)
    ensures HasStatus(FixedHead(n)) && !IsBodiless(FixedHead(n))
  {
    hide LengthLine, HasStatus, IsBodiless;
    var more := TYPE_XML + CRLF + (LengthLine(n) + CRLF + CRLF);
    ConcatAssoc(STATUS, CRLF, more);
    HeadHasStatus(FixedHead(n), STATUS, CRLF + more);
  }

  /** It is a stream of one well-formed response, of whatever length. */
  lemma FixedIsStream(body: seq<Byte>)
    requires |body| <= USIZE_MAX
    ensures IsStream(FixedHead(|body|) + body, [Response(FixedMessage(body), [])])
  {
    hide FixedHead, IsBlock, Frames, HasStatus, IsBodiless;
    var s, r := FixedHead(|body|) + body, Response(FixedMessage(body), []);
    FixedFrames(|body|);
    AppendNothing(s);
    assert Begins(s, r, body, []);
    StreamFirst(s, r, body, [], [r]);
    NothingBegins([]);
    assert [r][1..] == [];
  }

  // ----- URLs -----

  /** A device description with a URL of the origin in it, as text: the client gets it with the proxy's
      address and port in its place, by either framing. */
  lemma UrlSeen(x: seq<Byte>, y: seq<Byte>, origin: SocketAddr, proxy: SocketAddr,
                originPort: seq<Byte>, proxyPort: seq<Byte>, body: seq<Byte>, expected: seq<Byte>)
    requires 'h' !in x && 'h' !in y && Valid(x) && Valid(y)
    requires IsShort(originPort) && AllDigits(originPort, 10) && Value(originPort, 10) == origin.port
    requires IsShort(proxyPort) && AllDigits(proxyPort, 10) && Value(proxyPort, 10) == proxy.port
    requires body == x + ("http://" + origin.ip + ":" + originPort) + y && |body| <= 10_485_760
    requires expected == x + ("http://" + proxy.ip + ":" + proxyPort) + y
    ensures ClientGets(FixedHead(|body|) + body, expected, origin, proxy)
    ensures ClientGets(XmlResponse(body), expected, origin, proxy)
  {
    hide ReadHead, IsRewritten, FixedHead, XmlResponse, XmlHead, Lossy, Replace, Valid, Serve, UrlBase, IsShort,
         AllDigits;
    UrlBaseIs(origin, originPort);
    UrlRewritten(x, y, origin, proxy, originPort, proxyPort);
    UrlText(x, y, origin);
    FixedSeen(body, origin, proxy);
    XmlSeen(body, origin, proxy);
  }

  /** The proxy returns normally and the client parses one response with the given body. */
  predicate ClientGets(s: seq<Byte>, body: seq<Byte>, origin: SocketAddr, proxy: SocketAddr)
  {
    var served := Serve(s, UrlBase(origin), UrlBase(proxy));
    var seen := ParseStream(served.sent);
    served.fault.None? && seen.Some? && |seen.value| == 1 && seen.value[0].body == body
  }

  lemma UrlText(x: seq<Byte>, y: seq<Byte>, origin: SocketAddr)
    requires Valid(x) && Valid(y)
    ensures Lossy(x + UrlBase(origin) + y) == x + UrlBase(origin) + y && UrlBase(origin) != []
  {
    hide Lossy, Valid, UrlBase;
    var base := UrlBase(origin);
    UrlBaseAscii(origin);
    UrlBaseShape(origin);
    ConcatAssoc(x, base, y);
    LossyIdentityIff(x);
    LossyIdentityIff(y);
    AsciiFront(base, y);
    LossyAtAscii(x, base + y);
  }

  lemma XmlSeen(body: seq<Byte>, origin: SocketAddr, proxy: SocketAddr)
    requires 0 < |body| <= 10_485_760
    ensures ClientGets(XmlResponse(body), Replace(Lossy(body), UrlBase(origin), UrlBase(proxy)), origin, proxy)
  {
    hide ReadHead, IsRewritten, XmlResponse, XmlHead, Lossy, Replace, Serve, RewrittenHead;
    var from, to := UrlBase(origin), UrlBase(proxy);
    var m := XmlMessage(body);
    XmlCarriedIff(body);
    ConnectionRefinement(XmlResponse(body), origin, proxy);
    HeadIsRewritable();
    assert TransformAll([m], from, to)[0] == Transform(m, from, to);
  }
}

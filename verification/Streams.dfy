/** Streams of well-formed responses after RFC 9112, on both sides of the proxy: statuses without a
    body, chunked bodies with trailer fields, and bodies that extend to the end of the connection
    included. What a client gets of such a stream, and when it is the transformed one. */
module Streams {
  import opened Bytes
  import opened Numbers
  import opened Utf8
  import opened Rewriting
  import opened Headers
  import opened Chunks
  import opened Decoding
  import opened Connection
  import opened Refinement
  import opened Recipient

  // ----- Well-formed responses -----

  /** A response with the trailer fields of its chunked body, as complete lines. */
  datatype Response = Response(message: Message, trailer: seq<Byte>)

  predicate IsDigit(c: Byte) { '0' <= c <= '9' }

  /** It begins with a status line (section 4 of RFC 9112). */
  predicate HasStatus(head: seq<Byte>)
  {
    && 12 <= |head| && "HTTP/" <= head && IsDigit(head[5]) && head[6] == '.' && IsDigit(head[7]) && head[8] == ' '
    && IsDigit(head[9]) && IsDigit(head[10]) && IsDigit(head[11])
  }

  /** 1xx, 204 and 304: the response ends with its header block (section 6.3 of RFC 9112). */
  predicate IsBodiless(head: seq<Byte>)
  {
    HasStatus(head) && (head[9] == '1' || head[9..12] == "204" || head[9..12] == "304")
  }

  /** Trailer fields (section 7.1.2 of RFC 9112): field lines that frame nothing. A field name has no slash,
      so none of them looks like a status line. */
  ghost predicate IsTrailer(trailer: seq<Byte>)
  {
    && IsBlock(trailer + CRLF) && Frames(Lines(trailer + CRLF), NO_FRAMING)
    && forall i :: 0 <= i < |Lines(trailer + CRLF)| ==> !("HTTP/" <= Lines(trailer + CRLF)[i])
  }

  ghost predicate IsChunked(chunks: seq<Chunk>, last: Chunk, r: Response, coded: seq<Byte>)
  {
    && IsChunking(chunks, last) && Data(chunks) == r.message.body && IsTrailer(r.trailer)
    && coded == RenderChunks(chunks) + (SizeLine(last.digits, last.ext) + (r.trailer + CRLF))
  }

  /** What follows the header on the wire: any chunking with any trailer fields (section 7.1 of
      RFC 9112), or the announced number of octets, or all there are, or nothing. */
  ghost predicate Carries(r: Response, coded: seq<Byte>)
  {
    var m := r.message;
    && (IsBodiless(m.head) ==> !m.framing.chunked && m.body == [])
    && if m.framing.chunked then exists chunks, last :: IsChunked(chunks, last, r, coded)
       else
         && coded == m.body && r.trailer == []
         && (m.framing.contentLength.Some? ==> m.framing.contentLength.value == |m.body|)
  }

  ghost predicate IsMessage(r: Response, coded: seq<Byte>)
  {
    var m := r.message;
    IsBlock(m.head) && HasStatus(m.head) && Frames(Lines(m.head), m.framing) && Carries(r, coded)
  }

  /** `s` is the response `r` followed by `rest`; nothing follows a body without framing. */
  ghost predicate Begins(s: seq<Byte>, r: Response, coded: seq<Byte>, rest: seq<Byte>)
  {
    && s == r.message.head + coded + rest && IsMessage(r, coded)
    && (IsDelimited(r.message.framing) || IsBodiless(r.message.head) || rest == [])
  }

  /** A stream of well-formed responses. */
  ghost predicate IsStream(s: seq<Byte>, rs: seq<Response>)
    decreases |rs|
  {
    if rs == [] then s == []
    else exists coded, rest :: Begins(s, rs[0], coded, rest) && IsStream(rest, rs[1..])
  }

  // ----- They are read in one way only -----

  datatype Reading = Reading(response: Response, rest: seq<Byte>)

  /** The response in front of `s`, read with the proxy's scan of header blocks. */
  function ReadResponse(s: seq<Byte>): Option<Reading>
  {
    match ReadHead(s, NO_FRAMING)
    case Incomplete => None
    case Complete(raw, f, after) =>
      if f.chunked then
        match DataSection(after)
        case None => None
        case Some(b) =>
          match ReadHead(b.rest, NO_FRAMING)
          case Incomplete => None
          case Complete(section, _, rest) =>
            if |section| < 2 then None
            else Some(Reading(Response(Message(raw, f, b.body), section[..|section| - 2]), rest))
      else if f.contentLength.Some? then
        match FixedBody(after, f.contentLength.value)
        case Err(_) => None
        case Ok(b) => Some(Reading(Response(Message(raw, f, b.body), []), b.rest))
      else if IsBodiless(raw) then Some(Reading(Response(Message(raw, f, []), []), after))
      else Some(Reading(Response(Message(raw, f, after), []), []))
  }

  lemma SectionOf(r: Response, chunks: seq<Chunk>, last: Chunk, coded: seq<Byte>, rest: seq<Byte>)
    requires IsChunked(chunks, last, r, coded)
    ensures DataSection(coded + rest) == Some(Buffered(r.message.body, r.trailer + CRLF + rest))
    ensures ReadHead(r.trailer + CRLF + rest, NO_FRAMING) == Complete(r.trailer + CRLF, NO_FRAMING, rest)
  {
    hide Frames, IsBlock, IsChunking, ReadHead, DataSection;
    var zero, section := SizeLine(last.digits, last.ext), r.trailer + CRLF;
    ConcatAssoc(RenderChunks(chunks), zero + section, rest);
    ConcatAssoc(zero, section, rest);
    SectionRendered(chunks, last, section + rest);
    ScanAgrees(section, NO_FRAMING, rest);
  }

  lemma HeadRead(s: seq<Byte>, r: Response, coded: seq<Byte>, rest: seq<Byte>)
    requires Begins(s, r, coded, rest)
    ensures ReadHead(s, NO_FRAMING) == Complete(r.message.head, r.message.framing, coded + rest)
  {
    hide Frames, IsBlock, ReadHead, HasStatus;
    ConcatAssoc(r.message.head, coded, rest);
    ScanAgrees(r.message.head, r.message.framing, coded + rest);
  }

  lemma Cut(a: seq<Byte>, b: seq<Byte>)
    ensures (a + b)[..|a|] == a && (a + b)[|a|..] == b
  {
  }

  /** A well-formed response is read as meant, with the proxy's scan of its header. */
  lemma ReadsAs(s: seq<Byte>, r: Response, coded: seq<Byte>, rest: seq<Byte>)
    requires Begins(s, r, coded, rest)
    ensures ReadResponse(s) == Some(Reading(r, rest))
  {
    hide Frames, IsBlock, ReadHead, HasStatus, IsBodiless, DataSection;
    HeadRead(s, r, coded, rest);
    if r.message.framing.chunked {
      var chunks, last :| IsChunked(chunks, last, r, coded);
      SectionOf(r, chunks, last, coded, rest);
      Cut(r.trailer, CRLF);
    } else {
      Cut(coded, rest);
      AppendNothing(coded);
    }
  }

  lemma StreamFirst(s: seq<Byte>, r: Response, coded: seq<Byte>, rest: seq<Byte>, es: seq<Response>)
    requires Begins(s, r, coded, rest)
    ensures IsStream(s, es) <==> es != [] && es[0] == r && IsStream(rest, es[1..])
  {
    hide Begins, ReadResponse;
    NotNothing(s, r, coded, rest);
    ReadsAs(s, r, coded, rest);
    if es != [] && IsStream(s, es) {
      var c, x :| Begins(s, es[0], c, x) && IsStream(x, es[1..]);
      ReadsAs(s, es[0], c, x);
    }
  }

  lemma NotNothing(s: seq<Byte>, r: Response, coded: seq<Byte>, rest: seq<Byte>)
    requires Begins(s, r, coded, rest)
    ensures s != []
  {
  }

  /** A text is a stream of at most one sequence of responses. */
  lemma {:induction false} StreamOnce(s: seq<Byte>, rs: seq<Response>, es: seq<Response>)
    requires IsStream(s, rs)
    ensures IsStream(s, es) <==> es == rs
    decreases |rs|
  {
    hide Begins;
    if rs == [] {
      NothingBegins(es);
    } else {
      var coded, rest :| Begins(s, rs[0], coded, rest) && IsStream(rest, rs[1..]);
      StreamFirst(s, rs[0], coded, rest, es);
      assert rs == [rs[0]] + rs[1..];
      if es != [] {
        StreamOnce(rest, rs[1..], es[1..]);
        assert es == [es[0]] + es[1..];
      }
    }
  }

  lemma NothingBegins(es: seq<Response>)
    ensures IsStream([], es) <==> es == []
  {
    hide Begins;
    if es != [] && IsStream([], es) {
      var coded, rest :| Begins([], es[0], coded, rest) && IsStream(rest, es[1..]);
      NotNothing([], es[0], coded, rest);
    }
  }

  /** Without a status line in front there is no response. */
  lemma NoStatusNoStream(s: seq<Byte>, es: seq<Response>)
    requires s != [] && !("HTTP/" <= s)
    ensures !IsStream(s, es)
  {
    hide Begins;
    if es != [] && IsStream(s, es) {
      var coded, rest :| Begins(s, es[0], coded, rest) && IsStream(rest, es[1..]);
      StatusInFront(s, es[0], coded, rest);
    }
  }

  lemma StatusInFront(s: seq<Byte>, r: Response, coded: seq<Byte>, rest: seq<Byte>)
    requires Begins(s, r, coded, rest)
    ensures "HTTP/" <= s
  {
    ConcatAssoc(r.message.head, coded, rest);
  }

  /** Responses of known length or with chunks only are also read so by `ParseStream`. */
  lemma {:induction false} StreamParses(s: seq<Byte>, rs: seq<Response>)
    requires IsStream(s, rs)
    requires forall i :: 0 <= i < |rs| ==> IsPlainResponse(rs[i])
    ensures ParseStream(s) == Some(Messages(rs))
    decreases |rs|
  {
    hide Begins, ParseMessage, ParseStream, IsPlainResponse;
    if rs == [] {
      NothingParses();
    } else {
      var coded, rest :| Begins(s, rs[0], coded, rest) && IsStream(rest, rs[1..]);
      MessageParses(s, rs[0], coded, rest);
      NotNothing(s, rs[0], coded, rest);
      forall i | 0 <= i < |rs[1..]| ensures IsPlainResponse(rs[1..][i]) { assert IsPlainResponse(rs[i + 1]); }
      StreamParses(rest, rs[1..]);
      ParseNext(s, rs[0].message, rest, Messages(rs[1..]));
      assert Messages(rs) == [rs[0].message] + Messages(rs[1..]);
    }
  }

  predicate IsPlainResponse(r: Response)
  {
    r.trailer == [] && (IsBodiless(r.message.head) ==> IsDelimited(r.message.framing))
  }

  function Messages(rs: seq<Response>): seq<Message>
  {
    seq(|rs|, i requires 0 <= i < |rs| => rs[i].message)
  }

  lemma MessageParses(s: seq<Byte>, r: Response, coded: seq<Byte>, rest: seq<Byte>)
    requires Begins(s, r, coded, rest) && IsPlainResponse(r)
    ensures ParseMessage(s) == Some(Parsed(r.message, rest))
  {
    hide Frames, IsBlock, ReadHead, HasStatus, IsBodiless, Dechunk, Render;
    HeadRead(s, r, coded, rest);
    if r.message.framing.chunked {
      var chunks, last :| IsChunked(chunks, last, r, coded);
      NothingBefore(CRLF);
      RenderParts(chunks, last);
      DechunkRender(chunks, last, rest);
    } else {
      Cut(coded, rest);
      AppendNothing(coded);
    }
  }

  lemma NothingParses()
    ensures ParseStream([]) == Some([])
  {
  }

  lemma ParseNext(s: seq<Byte>, m: Message, rest: seq<Byte>, more: seq<Message>)
    requires s != [] && ParseMessage(s) == Some(Parsed(m, rest)) && ParseStream(rest) == Some(more)
    ensures ParseStream(s) == Some([m] + more)
  {
    hide ParseMessage;
  }

  // ----- Rewriting keeps the status line -----

  lemma StatusIsAscii(front: seq<Byte>)
    requires |front| == 12 && HasStatus(front)
    ensures AllAscii(front) && '\n' !in front && '\r' !in front
  {
    var name: seq<Byte> := "HTTP/";
    assert forall i :: 0 <= i < 5 ==> front[i] == name[i];
  }

  lemma StatusOfFront(head: seq<Byte>, other: seq<Byte>)
    requires HasStatus(head) && head[..12] <= other
    ensures HasStatus(other) && (IsBodiless(other) <==> IsBodiless(head)) && HasStatus(head[..12])
  {
    var front := head[..12];
    assert forall i :: 0 <= i < 12 ==> other[i] == front[i] == head[i];
    assert head[..5] == front[..5] == other[..5];
    assert other[9..12] == head[9..12];
  }

  /** The first line of the text, without its ending, still has the status in front. */
  lemma FirstLineStatus(text: seq<Byte>)
    requires HasStatus(text) && EndsLine(text)
    ensures Lines(text) != [] && text[..12] <= Lines(text)[0] && !IsContentLength(Lines(text)[0])
  {
    hide LineEnd, Lines;
    var front := text[..12];
    StatusOfFront(text, text);
    StatusIsAscii(front);
    LineEndMeaning(text);
    assert forall i :: 0 <= i < 12 ==> text[i] == front[i] && front[i] in front;
    FrontOfLine(FirstLine(text), front);
    LinesAfter(text);
    NotALength(StripEol(FirstLine(text)));
  }

  lemma FrontOfLine(line: seq<Byte>, front: seq<Byte>)
    requires |front| < |line| && front <= line && front != [] && '\r' !in front
    ensures front <= StripEol(line)
  {
    assert line[|front| - 1] == front[|front| - 1];
  }

  lemma NotALength(x: seq<Byte>)
    requires x != [] && x[0] == 'H'
    ensures !IsContentLength(x)
  {
    assert Lower(x)[0] == 'h' && CONTENT_LENGTH[0] == 'c';
  }

  lemma UpdatedStatus(text: seq<Byte>, n: nat)
    requires HasStatus(text) && EndsLine(text)
    ensures text[..12] <= Updated(text, n)
  {
    FirstLineStatus(text);
    var lines := UpdateLines(Lines(text), n);
    assert lines[0] == Lines(text)[0];
    assert Updated(text, n) == lines[0] + CRLF + Join(lines[1..]);
  }

  lemma DecodedStatus(head: seq<Byte>)
    requires HasStatus(head)
    ensures head[..12] <= Lossy(head)
  {
    StatusOfFront(head, head);
    StatusIsAscii(head[..12]);
    AsciiPrefixDecodes(head[..12], head);
  }

  lemma StatusKept(m: Message, origin: seq<Byte>, proxy: seq<Byte>)
    requires origin != [] && IsBlock(m.head) && HasStatus(m.head)
    ensures var t := Transform(m, origin, proxy);
            HasStatus(t.head) && (IsBodiless(t.head) <==> IsBodiless(m.head))
  {
    hide IsRewritten, Rewrite, IsBodiless, EndsAtBlank, Lossy, Updated;
    var t := Transform(m, origin, proxy);
    DecodedStatus(m.head);
    StatusOfFront(m.head, Lossy(m.head));
    LossyEnds(m.head);
    UpdatedStatus(Lossy(m.head), |t.body|);
    StatusOfFront(Lossy(m.head), Updated(Lossy(m.head), |t.body|));
  }

  lemma LossyEnds(head: seq<Byte>)
    requires EndsLine(head)
    ensures EndsLine(Lossy(head))
  {
    LossyLast(head);
  }

  // ----- What the proxy relays -----

  function TransformResponse(r: Response, origin: seq<Byte>, proxy: seq<Byte>): Response
    requires origin != []
  {
    r.(message := Transform(r.message, origin, proxy))
  }

  /** How a transformed body is sent, up to where its recipient stops reading. */
  function Coded(m: Message, coded: seq<Byte>, origin: seq<Byte>, proxy: seq<Byte>): seq<Byte>
    requires origin != []
  {
    if !IsRewritten(m.head, m.framing) then coded
    else
      var body := Transform(m, origin, proxy).body;
      if !m.framing.chunked then body
      else if body == [] then LAST_CHUNK
      else EncodeChunked(body)
  }

  lemma NoTrailer()
    ensures IsTrailer([])
  {
    NothingBefore(CRLF);
    var s: seq<Byte> := CRLF;
    assert IsLine(s) by { assert s[..1] == "\r"; }
    AppendNothing(s);
    RawLinesCons(s, []);
    assert RawLines(s) == [s] && [s][0] == s;
    LinesCons(s, []);
    assert StripEol(s) == [];
    assert Lines(s) == [[]];
    assert !IsContentLength([]) && !IsTransferEncoding([]);
  }

  lemma OneChunkCarried(t: Message)
    requires t.framing.chunked && |t.body| <= USIZE_MAX && !IsBodiless(t.head)
    ensures Carries(Response(t, []), if t.body == [] then LAST_CHUNK else EncodeChunked(t.body))
  {
    hide IsChunking, IsBodiless, Render, RenderChunks, Data, IsTrailer;
    var chunks, last := OneChunk(t.body), LastChunk();
    NoTrailer();
    OneChunkIsChunking(t.body);
    RenderParts(chunks, last);
    NothingBefore(CRLF);
    if t.body == [] {
      RenderNothing();
    } else {
      EncodedIsChunking(t.body);
    }
    assert IsChunked(chunks, last, Response(t, []), if t.body == [] then LAST_CHUNK else EncodeChunked(t.body));
  }

  lemma RenderNothing()
    ensures Render(OneChunk([]), LastChunk()) == LAST_CHUNK
  {
    PrintedZero();
    AppendNothing(Print(0, 16));
  }

  /** What is sent in front of the rest is a well-formed response without trailer fields. */
  lemma RewrittenMessage(r: Response, coded: seq<Byte>, origin: seq<Byte>, proxy: seq<Byte>)
    requires origin != [] && 0 < |proxy| <= 102 && IsMessage(r, coded)
    requires IsRewritten(r.message.head, r.message.framing) && |r.message.body| <= MAX_REWRITABLE_BODY_SIZE
    ensures IsMessage(Response(Transform(r.message, origin, proxy), []), Coded(r.message, coded, origin, proxy))
  {
    hide Frames, IsBlock, HasStatus, IsBodiless, EncodeChunked, Rewrite, RewrittenHead, IsRewritten;
    var m := r.message;
    var t := Transform(m, origin, proxy);
    RewriteBound(m.body, origin, proxy);
    RewrittenFrames(m, origin, proxy);
    StatusKept(m, origin, proxy);
    if m.framing.chunked {
      OneChunkCarried(t);
    }
  }

  /** A response that is carried, without trailer fields, is relayed transformed. */
  lemma RelayedAsMeant(s: seq<Byte>, r: Response, coded: seq<Byte>, rest: seq<Byte>,
                       origin: seq<Byte>, proxy: seq<Byte>)
    requires origin != [] && 0 < |proxy| <= 102 && Begins(s, r, coded, rest)
    requires IsCarried(r.message) && IsDelimited(r.message.framing) && r.trailer == []
    ensures var t := TransformResponse(r, origin, proxy);
            && Respond(s, origin, proxy) == Relayed(t.message.head + Coded(r.message, coded, origin, proxy), rest)
            && IsMessage(t, Coded(r.message, coded, origin, proxy)) && IsDelimited(t.message.framing)
  {
    hide Frames, IsBlock, HasStatus, IsBodiless, ReadHead, EncodeChunked, Rewrite, ReadChunked, PassChunked,
         DataSection, RewrittenHead;
    var m := r.message;
    HeadRead(s, r, coded, rest);
    if IsRewritten(m.head, m.framing) {
      RewriteBound(m.body, origin, proxy);
      RewrittenMessage(r, coded, origin, proxy);
    }
    if m.framing.chunked {
      var chunks, last :| IsChunked(chunks, last, r, coded);
      SectionOf(r, chunks, last, coded, rest);
      NothingBefore(CRLF);
      SectionPassed(coded, rest, m.body);
    } else {
      Cut(coded, rest);
    }
  }

  lemma SectionPassed(coded: seq<Byte>, rest: seq<Byte>, body: seq<Byte>)
    requires DataSection(coded + rest) == Some(Buffered(body, CRLF + rest))
    ensures PassChunked(coded + rest) == Passed(coded, rest)
    ensures |body| <= MAX_REWRITABLE_BODY_SIZE ==>
              ReadChunked(coded + rest, [], MAX_REWRITABLE_BODY_SIZE) == Ok(Buffered(body, rest))
  {
    hide DataSection, PassChunked, ReadChunked;
    SectionWalked(coded + rest, [], MAX_REWRITABLE_BODY_SIZE);
    FirstLineOf(CRLF, rest) by { var s: seq<Byte> := CRLF; assert s[..1] == "\r"; }
    NothingBefore(body);
    PassTransparent(coded + rest);
    SameBeforeSuffix(PassChunked(coded + rest).sent, coded, rest);
  }

  // ----- Where the proxy loses the framing -----

  /** After the response the proxy takes all that follows for a body without framing: after one without
      framing of its own, and in the middle of the trailer fields of a chunked one. */
  predicate EndsFraming(r: Response)
  {
    !IsDelimited(r.message.framing) || r.trailer != []
  }

  lemma RestStreamed(s: seq<Byte>, origin: seq<Byte>, proxy: seq<Byte>)
    requires origin != [] && ReadHead(s, NO_FRAMING).Complete? && !IsDelimited(ReadHead(s, NO_FRAMING).framing)
    ensures Serve(s, origin, proxy) == Served(s, [], None)
  {
  }

  lemma LinesAfter(head: seq<Byte>)
    requires head != []
    ensures Lines(head) == [StripEol(FirstLine(head))] + Lines(AfterLine(head))
  {
  }

  lemma FramesRest(line: seq<Byte>, more: seq<seq<Byte>>)
    requires Frames([line] + more, NO_FRAMING)
    ensures Frames(more, NO_FRAMING)
  {
    hide IsContentLength, IsTransferEncoding, NamesOthers;
    var lines := [line] + more;
    assert forall i :: 0 <= i < |more| ==> more[i] == lines[i + 1];
  }

  /** All lines of the trailer section but the first. */
  function TrailerRest(trailer: seq<Byte>): seq<Byte> { AfterLine(trailer + CRLF) }

  lemma TrailerGoesOn(trailer: seq<Byte>, rest: seq<Byte>)
    requires IsTrailer(trailer) && trailer != []
    ensures AfterLine(trailer + CRLF + rest) == TrailerRest(trailer) + rest
    ensures ReadHead(TrailerRest(trailer) + rest, NO_FRAMING) == Complete(TrailerRest(trailer), NO_FRAMING, rest)
    ensures TrailerRest(trailer) + rest != [] && !("HTTP/" <= TrailerRest(trailer) + rest)
  {
    hide IsContentLength, IsTransferEncoding, Frames, IsBlock, Lines, StripEol, ReadHead;
    var section := trailer + CRLF;
    var line, after := FirstLine(section), AfterLine(section);
    BlockRest(section);
    BlankIsAll(trailer);
    LinesAfter(section);
    FramesRest(StripEol(line), Lines(after));
    ScanAgrees(after, NO_FRAMING, rest);
    ConcatAssoc(line, after, rest);
    FirstLineOf(line, after + rest);
    BlockRest(after);
    LinesAfter(after);
    assert Lines(section)[1] == Lines(after)[0] == StripEol(FirstLine(after));
    ConcatAssoc(FirstLine(after), AfterLine(after), rest);
    NoStatusLine(FirstLine(after), AfterLine(after) + rest);
  }

  lemma BlankIsAll(trailer: seq<Byte>)
    requires IsBlock(trailer + CRLF) && trailer != []
    ensures !IsBlank(FirstLine(trailer + CRLF)) && TrailerRest(trailer) != []
  {
    hide EndsAtBlank;
    BlockRest(trailer + CRLF);
    if IsBlank(FirstLine(trailer + CRLF)) {
      AppendNothing(FirstLine(trailer + CRLF));
    }
  }

  lemma NoStatusLine(line: seq<Byte>, rest: seq<Byte>)
    requires IsLine(line) && !("HTTP/" <= StripEol(line))
    ensures !("HTTP/" <= line + rest)
  {
    var name: seq<Byte>, s := "HTTP/", line + rest;
    var e := StripEolSplits(line);
    PrefixBeforeEol(StripEol(line), e, name);
    assert |line| < 5 ==> s[|line| - 1] == '\n' && name[|line| - 1] in name && '\n' !in name;
    assert |line| >= 5 ==> s[..5] == line[..5];
  }

  /** There, unless the response is rewritten, all that is left is sent as it is. */
  lemma Verbatim(s: seq<Byte>, r: Response, coded: seq<Byte>, rest: seq<Byte>, origin: seq<Byte>, proxy: seq<Byte>)
    requires origin != [] && Begins(s, r, coded, rest) && EndsFraming(r)
    requires !IsRewritten(r.message.head, r.message.framing)
    ensures Serve(s, origin, proxy) == Served(s, [], None)
  {
    hide Frames, IsBlock, HasStatus, IsBodiless, ReadHead, PassChunked, DataSection, IsRewritten, IsTrailer;
    var m := r.message;
    HeadRead(s, r, coded, rest);
    if !IsDelimited(m.framing) {
      RestStreamed(s, origin, proxy);
    } else {
      var chunks, last :| IsChunked(chunks, last, r, coded);
      SectionOf(r, chunks, last, coded, rest);
      TrailerGoesOn(r.trailer, rest);
      SectionWalked(coded + rest, [], MAX_REWRITABLE_BODY_SIZE);
      PassReplyTransparent(m.head, m.framing, coded + rest);
      RestStreamed(TrailerRest(r.trailer) + rest, origin, proxy);
      ServeRelayed(s, origin, proxy);
      ConcatAssoc(m.head, coded, rest);
    }
  }

  /** A chunked response that is rewritten though it has trailer fields, or an empty body, spoils what
      follows it: that begins with the rest of them, or with a zero chunk. */
  lemma Spoiled(s: seq<Byte>, r: Response, coded: seq<Byte>, rest: seq<Byte>, es: seq<Response>,
                origin: seq<Byte>, proxy: seq<Byte>)
    requires origin != [] && 0 < |proxy| <= 102 && Begins(s, r, coded, rest)
    requires IsRewritten(r.message.head, r.message.framing) && r.message.framing.chunked
    requires r.trailer != [] || r.message.body == []
    ensures Serve(s, origin, proxy).fault.None? ==> !IsStream(Serve(s, origin, proxy).sent, es)
  {
    hide Frames, IsBlock, HasStatus, IsBodiless, ReadHead, PassChunked, ReadChunked, DataSection, IsRewritten,
         IsTrailer, Rewrite, RewrittenHead, EncodeChunked;
    var m := r.message;
    HeadRead(s, r, coded, rest);
    var chunks, last :| IsChunked(chunks, last, r, coded);
    SectionOf(r, chunks, last, coded, rest);
    SectionWalked(coded + rest, [], MAX_REWRITABLE_BODY_SIZE);
    NothingBefore(m.body);
    if |m.body| > MAX_REWRITABLE_BODY_SIZE {
      WalkersAgree(coded + rest, [], MAX_REWRITABLE_BODY_SIZE);
      RewrittenIsDelimited(m);
      UnbufferedSendsNothing(s, origin, proxy);
    } else {
      RewriteBound(m.body, origin, proxy);
      RewrittenMessage(r, coded, origin, proxy);
      RewrittenIsDelimited(m);
      var t, next := Transform(m, origin, proxy), AfterLine(r.trailer + CRLF + rest);
      var tail := Serve(next, origin, proxy).sent;
      assert Respond(s, origin, proxy) == Relayed(t.head + EncodeChunked(t.body), next);
      ServeRelayed(s, origin, proxy);
      StrayFollows(m, coded, tail, origin, proxy);
      var stray := Residue(t.body) + tail;
      if t.body != [] {
        TrailerGoesOn(r.trailer, rest);
        RestStreamed(next, origin, proxy);
        NothingBefore(tail);
      } else {
        ZeroInFront(tail);
      }
      assert Begins(Serve(s, origin, proxy).sent, Response(t, []), Coded(m, coded, origin, proxy), stray);
      StreamFirst(Serve(s, origin, proxy).sent, Response(t, []), Coded(m, coded, origin, proxy), stray, es);
      if es != [] { NoStatusNoStream(stray, es[1..]); }
    }
  }

  lemma RewrittenIsDelimited(m: Message)
    requires IsRewritten(m.head, m.framing)
    ensures IsDelimited(m.framing)
  {
  }

  lemma StrayFollows(m: Message, coded: seq<Byte>, tail: seq<Byte>, origin: seq<Byte>, proxy: seq<Byte>)
    requires origin != [] && IsRewritten(m.head, m.framing) && m.framing.chunked
    ensures var t := Transform(m, origin, proxy);
            && t.head + EncodeChunked(t.body) + tail ==
               t.head + Coded(m, coded, origin, proxy) + (Residue(t.body) + tail)
            && IsDelimited(t.framing)
  {
    hide IsRewritten, Rewrite, RewrittenHead;
    var t := Transform(m, origin, proxy);
    NothingBefore(tail);
    if t.body == [] {
      PrintedZero();
      EncodedEmpty(Print(0, 16) + CRLF, []);
      AppendNothing(EncodeChunked([]));
      AppendNothing(LAST_CHUNK);
      assert EncodeChunked([]) == LAST_CHUNK + LAST_CHUNK;
      ConcatAssoc(t.head, LAST_CHUNK, LAST_CHUNK);
      ConcatAssoc(t.head + LAST_CHUNK, LAST_CHUNK, tail);
    }
  }

  lemma ZeroInFront(tail: seq<Byte>)
    ensures LAST_CHUNK + tail != [] && !("HTTP/" <= LAST_CHUNK + tail)
  {
    var name: seq<Byte> := "HTTP/";
    assert (LAST_CHUNK + tail)[0] == '0' != name[0];
  }

  // ----- What the client gets -----

  /** The responses as the client gets them: transformed, up to the first after which the proxy loses
      the framing; from there on as they are. */
  function Received(rs: seq<Response>, origin: seq<Byte>, proxy: seq<Byte>): seq<Response>
    requires origin != []
  {
    if rs == [] then []
    else if EndsFraming(rs[0]) then rs
    else [TransformResponse(rs[0], origin, proxy)] + Received(rs[1..], origin, proxy)
  }

  /** The proxy can carry the response: a chunked body that is rewritten is non-empty, within the limit,
      and without trailer fields. */
  predicate IsCarriedWhole(r: Response)
  {
    IsCarried(r.message) && (IsRewritten(r.message.head, r.message.framing) ==> r.trailer == [])
  }

  /** It can carry all of them, as far as it rewrites. */
  predicate Receivable(rs: seq<Response>)
  {
    rs != [] ==> IsCarriedWhole(rs[0]) && (EndsFraming(rs[0]) || Receivable(rs[1..]))
  }

  lemma OversizeFails(s: seq<Byte>, r: Response, coded: seq<Byte>, rest: seq<Byte>, origin: seq<Byte>, proxy: seq<Byte>)
    requires origin != [] && Begins(s, r, coded, rest) && IsRewritten(r.message.head, r.message.framing)
    requires r.message.framing.chunked && |r.message.body| > MAX_REWRITABLE_BODY_SIZE
    ensures Serve(s, origin, proxy).fault.Some?
  {
    hide Frames, IsBlock, HasStatus, IsBodiless, ReadHead, PassChunked, ReadChunked, DataSection, IsRewritten,
         IsTrailer;
    HeadRead(s, r, coded, rest);
    var chunks, last :| IsChunked(chunks, last, r, coded);
    SectionOf(r, chunks, last, coded, rest);
    SectionWalked(coded + rest, [], MAX_REWRITABLE_BODY_SIZE);
    WalkersAgree(coded + rest, [], MAX_REWRITABLE_BODY_SIZE);
    UnbufferedSendsNothing(s, origin, proxy);
  }

  /** A response that cannot be carried leaves the client with no stream of responses. */
  lemma NotCarried(s: seq<Byte>, r: Response, coded: seq<Byte>, rest: seq<Byte>, es: seq<Response>,
                   origin: seq<Byte>, proxy: seq<Byte>)
    requires origin != [] && 0 < |proxy| <= 102 && Begins(s, r, coded, rest) && !IsCarriedWhole(r)
    ensures Serve(s, origin, proxy).fault.None? ==> !IsStream(Serve(s, origin, proxy).sent, es)
  {
    hide IsRewritten, Serve, IsStream;
    RewrittenIsDelimited(r.message);
    TrailerIsChunked(s, r, coded, rest);
    if r.message.framing.chunked && |r.message.body| > MAX_REWRITABLE_BODY_SIZE {
      OversizeFails(s, r, coded, rest, origin, proxy);
    } else {
      Spoiled(s, r, coded, rest, es, origin, proxy);
    }
  }

  lemma TrailerIsChunked(s: seq<Byte>, r: Response, coded: seq<Byte>, rest: seq<Byte>)
    requires Begins(s, r, coded, rest)
    ensures r.trailer != [] ==> r.message.framing.chunked
  {
  }

  lemma CarriedNext(s: seq<Byte>, r: Response, coded: seq<Byte>, rest: seq<Byte>, es: seq<Response>,
                    origin: seq<Byte>, proxy: seq<Byte>)
    requires origin != [] && 0 < |proxy| <= 102 && Begins(s, r, coded, rest) && IsCarriedWhole(r) && !EndsFraming(r)
    ensures Serve(s, origin, proxy).fault == Serve(rest, origin, proxy).fault
    ensures IsStream(Serve(s, origin, proxy).sent, es) <==>
            && es != [] && es[0] == TransformResponse(r, origin, proxy)
            && IsStream(Serve(rest, origin, proxy).sent, es[1..])
  {
    hide IsRewritten, IsMessage, IsStream, TransformResponse, Coded, Respond;
    RelayedAsMeant(s, r, coded, rest, origin, proxy);
    ServeRelayed(s, origin, proxy);
    var t, c := TransformResponse(r, origin, proxy), Coded(r.message, coded, origin, proxy);
    StreamFirst(Serve(s, origin, proxy).sent, t, c, Serve(rest, origin, proxy).sent, es);
  }

  /** For every stream of well-formed responses: the proxy returns normally and the client gets a
      stream of well-formed responses if and only if all can be carried as far as the proxy rewrites;
      and then it gets exactly those of `Received`. */
  lemma {:induction false} ReceivedIff(s: seq<Byte>, rs: seq<Response>, es: seq<Response>,
                                       origin: seq<Byte>, proxy: seq<Byte>)
    requires origin != [] && 0 < |proxy| <= 102 && IsStream(s, rs)
    ensures Serve(s, origin, proxy).fault.None? && IsStream(Serve(s, origin, proxy).sent, es) <==>
            Receivable(rs) && es == Received(rs, origin, proxy)
    decreases |rs|
  {
    hide Begins, Serve, IsCarriedWhole, EndsFraming, TransformResponse;
    if rs == [] {
      NothingServed(origin, proxy);
      NothingBegins(es);
    } else {
      var coded, rest :| Begins(s, rs[0], coded, rest) && IsStream(rest, rs[1..]);
      if !IsCarriedWhole(rs[0]) {
        NotCarried(s, rs[0], coded, rest, es, origin, proxy);
      } else if EndsFraming(rs[0]) {
        LosesFraming(s, rs[0], coded, rest, origin, proxy);
        StreamOnce(s, rs, es);
      } else {
        CarriedNext(s, rs[0], coded, rest, es, origin, proxy);
        if es != [] {
          ReceivedIff(rest, rs[1..], es[1..], origin, proxy);
          assert es == [es[0]] + es[1..];
          SameCons(es[0], es[1..], TransformResponse(rs[0], origin, proxy), Received(rs[1..], origin, proxy));
        }
      }
    }
  }

  lemma LosesFraming(s: seq<Byte>, r: Response, coded: seq<Byte>, rest: seq<Byte>, origin: seq<Byte>, proxy: seq<Byte>)
    requires origin != [] && Begins(s, r, coded, rest) && IsCarriedWhole(r) && EndsFraming(r)
    ensures Serve(s, origin, proxy) == Served(s, [], None)
  {
    hide Serve, Begins;
    Verbatim(s, r, coded, rest, origin, proxy);
  }

  // ----- When it gets the transformed responses -----

  /** An earlier response has cost the proxy the framing. */
  predicate IsLost(rs: seq<Response>, i: int)
  {
    exists k :: 0 <= k < i && k < |rs| && EndsFraming(rs[k])
  }

  lemma LostCons(r: Response, more: seq<Response>, i: nat)
    ensures IsLost([r] + more, i + 1) <==> EndsFraming(r) || IsLost(more, i)
    ensures !IsLost([r] + more, 0)
  {
    hide EndsFraming;
    var rs := [r] + more;
    assert rs[0] == r;
    assert forall k :: 0 <= k < |more| ==> rs[k + 1] == more[k];
    if k :| 0 <= k < i + 1 && k < |rs| && EndsFraming(rs[k]) && k > 0 {
      assert EndsFraming(more[k - 1]);
    }
    if k :| 0 <= k < i && k < |more| && EndsFraming(more[k]) {
      assert EndsFraming(rs[k + 1]);
    }
  }

  /** Position by position: before the framing is lost everything is carried, and what is received is
      transformed up to there. */
  lemma {:induction false} ReceivedMeaning(rs: seq<Response>, origin: seq<Byte>, proxy: seq<Byte>)
    requires origin != []
    ensures Receivable(rs) <==> forall i :: 0 <= i < |rs| ==> IsLost(rs, i) || IsCarriedWhole(rs[i])
    ensures |Received(rs, origin, proxy)| == |rs|
    ensures Receivable(rs) ==> forall i :: 0 <= i < |rs| ==>
              Received(rs, origin, proxy)[i] == if IsLost(rs, i) then rs[i] else TransformResponse(rs[i], origin, proxy)
  {
    hide EndsFraming, IsCarriedWhole, TransformResponse, IsLost;
    if rs != [] {
      var r, more := rs[0], rs[1..];
      assert rs == [r] + more;
      LostCons(r, more, 0);
      if EndsFraming(r) {
        if IsCarriedWhole(r) { UnchangedAtLoss(r, origin, proxy); }
        forall i | 0 < i < |rs| ensures IsLost(rs, i) { LostCons(r, more, i - 1); }
      } else {
        ReceivedMeaning(more, origin, proxy);
        ReceivableCons(r, more);
        forall i | 0 <= i < |rs|
          ensures i > 0 ==> (IsLost(rs, i) <==> IsLost(more, i - 1)) && rs[i] == more[i - 1]
        {
          if i > 0 { LostCons(r, more, i - 1); }
        }
      }
    }
  }

  lemma ReceivableCons(r: Response, more: seq<Response>)
    requires !EndsFraming(r)
    ensures (forall i :: 0 <= i < |[r] + more| ==> IsLost([r] + more, i) || IsCarriedWhole(([r] + more)[i])) <==>
            IsCarriedWhole(r) && forall i :: 0 <= i < |more| ==> IsLost(more, i) || IsCarriedWhole(more[i])
  {
    hide EndsFraming, IsCarriedWhole, IsLost;
    var rs := [r] + more;
    LostCons(r, more, 0);
    assert rs[0] == r;
    forall i | 0 <= i < |more|
      ensures rs[i + 1] == more[i] && (IsLost(rs, i + 1) <==> IsLost(more, i))
    {
      LostCons(r, more, i);
    }
    if forall i :: 0 <= i < |rs| ==> IsLost(rs, i) || IsCarriedWhole(rs[i]) {
      forall i | 0 <= i < |more| ensures IsLost(more, i) || IsCarriedWhole(more[i]) {
        assert IsLost(rs, i + 1) || IsCarriedWhole(rs[i + 1]);
      }
    }
    if IsCarriedWhole(r) && forall i :: 0 <= i < |more| ==> IsLost(more, i) || IsCarriedWhole(more[i]) {
      forall i | 0 <= i < |rs| ensures IsLost(rs, i) || IsCarriedWhole(rs[i]) {
        if i > 0 { assert IsLost(more, i - 1) || IsCarriedWhole(more[i - 1]); }
      }
    }
  }

  lemma UnchangedAtLoss(r: Response, origin: seq<Byte>, proxy: seq<Byte>)
    requires origin != [] && EndsFraming(r) && IsCarriedWhole(r)
    ensures TransformResponse(r, origin, proxy) == r
  {
  }

  function TransformResponses(rs: seq<Response>, origin: seq<Byte>, proxy: seq<Byte>): (t: seq<Response>)
    requires origin != []
    ensures |t| == |rs|
    ensures forall i :: 0 <= i < |rs| ==> t[i] == TransformResponse(rs[i], origin, proxy)
  {
    seq(|rs|, i requires 0 <= i < |rs| => TransformResponse(rs[i], origin, proxy))
  }

  /** Every response is carried, or comes after the framing is lost and needs no change. */
  predicate ArrivesTransformed(rs: seq<Response>, origin: seq<Byte>, proxy: seq<Byte>)
    requires origin != []
  {
    forall i :: 0 <= i < |rs| ==>
      if IsLost(rs, i) then Transform(rs[i].message, origin, proxy) == rs[i].message else IsCarriedWhole(rs[i])
  }

  /** For every stream of well-formed responses and all addresses: the proxy returns normally and the
      client gets the stream of the transformed responses if and only if it can carry those in front
      of which the framing is not lost, and the others need no change. */
  lemma WellFormedRefinement(s: seq<Byte>, rs: seq<Response>, origin: SocketAddr, proxy: SocketAddr)
    requires IsStream(s, rs)
    ensures var from, to := UrlBase(origin), UrlBase(proxy); var served := Serve(s, from, to);
            served.fault.None? && IsStream(served.sent, TransformResponses(rs, from, to)) <==>
            ArrivesTransformed(rs, from, to)
  {
    hide IsStream, Serve, IsLost, IsCarriedWhole, Transform, Receivable, Received;
    var from, to := UrlBase(origin), UrlBase(proxy);
    UrlBaseShape(proxy);
    ReceivedIff(s, rs, TransformResponses(rs, from, to), from, to);
    ReceivedMeaning(rs, from, to);
  }

  /** The rewritten responses that need no change: UTF-8 ones without the origin's base. */
  lemma UnchangedIff(m: Message, origin: SocketAddr, proxy: SocketAddr)
    requires IsRewritten(m.head, m.framing)
    ensures var from, to := UrlBase(origin), UrlBase(proxy);
            && (Transform(m, from, to) == m <==>
                Valid(m.head) && Valid(m.body) && (from == to || !Contains(m.body, from)))
            && (Intended(m, from, to) == m <==> from == to || !Contains(m.body, from))
  {
    hide IsRewritten, Replace, Lossy, Updated, Valid, UrlBase, AllAscii, Contains;
    var from, to := UrlBase(origin), UrlBase(proxy);
    UrlBaseShape(origin);
    UrlBaseAscii(origin);
    UrlBaseAscii(proxy);
    BasesShareHead(origin, proxy);
    RewrittenOctets(m.body, from, to);
    LossyIdentityIff(m.head);
    ReplaceFixedIff(m.body, from, to);
    ReplaceDecodes(m.body, from, to);
    if Replace(Lossy(m.body), from, to) == m.body { KeptIsValid(m.body, from, to); }
  }

  /** A text that decoding and replacing leave as it is, is UTF-8. */
  lemma KeptIsValid(body: seq<Byte>, from: seq<Byte>, to: seq<Byte>)
    requires AllAscii(from) && AllAscii(to) && from != [] && to != [] && from[0] == to[0]
    requires Replace(Lossy(body), from, to) == body
    ensures Valid(body)
  {
    ReplaceDecodes(body, from, to);
    LossyIdempotent(Replace(body, from, to));
    LossyIdentityIff(body);
  }

  function IntendedResponses(rs: seq<Response>, origin: seq<Byte>, proxy: seq<Byte>): (t: seq<Response>)
    requires origin != []
    ensures |t| == |rs|
    ensures forall i :: 0 <= i < |rs| ==> t[i] == rs[i].(message := Intended(rs[i].message, origin, proxy))
  {
    seq(|rs|, i requires 0 <= i < |rs| => rs[i].(message := Intended(rs[i].message, origin, proxy)))
  }

  /** Every response is carried and UTF-8 where it is rewritten, or comes after the framing is lost and
      contains nothing to rewrite. */
  predicate ArrivesIntended(rs: seq<Response>, origin: seq<Byte>, proxy: seq<Byte>)
    requires origin != []
  {
    forall i :: 0 <= i < |rs| ==>
      if IsLost(rs, i) then Intended(rs[i].message, origin, proxy) == rs[i].message
      else IsCarriedWhole(rs[i]) && IsText(rs[i].message, origin, proxy)
  }

  /** The same for the origin's own octets, rewritten: moreover every response that is rewritten must be UTF-8. */
  lemma WellFormedOctets(s: seq<Byte>, rs: seq<Response>, origin: SocketAddr, proxy: SocketAddr)
    requires IsStream(s, rs)
    ensures var from, to := UrlBase(origin), UrlBase(proxy); var served := Serve(s, from, to);
            served.fault.None? && IsStream(served.sent, IntendedResponses(rs, from, to)) <==>
            ArrivesIntended(rs, from, to)
  {
    hide IsStream, Serve, IsLost, IsCarriedWhole, Transform, Intended, Receivable, Received, IsText;
    var from, to := UrlBase(origin), UrlBase(proxy);
    UrlBaseShape(proxy);
    ReceivedIff(s, rs, IntendedResponses(rs, from, to), from, to);
    ReceivedMeaning(rs, from, to);
    StreamHeads(s, rs);
    forall i | 0 <= i < |rs|
      ensures Transform(rs[i].message, from, to) == Intended(rs[i].message, from, to) <==>
              IsText(rs[i].message, from, to)
    {
      TransformIsIntended(rs[i].message, origin, proxy);
    }
  }

  lemma {:induction false} StreamHeads(s: seq<Byte>, rs: seq<Response>)
    requires IsStream(s, rs)
    ensures forall i :: 0 <= i < |rs| ==> EndsLine(rs[i].message.head)
    decreases |rs|
  {
    hide Begins, EndsLine;
    if rs != [] {
      var coded, rest :| Begins(s, rs[0], coded, rest) && IsStream(rest, rs[1..]);
      HeadIsBlock(s, rs[0], coded, rest);
      StreamHeads(rest, rs[1..]);
    }
  }

  lemma HeadIsBlock(s: seq<Byte>, r: Response, coded: seq<Byte>, rest: seq<Byte>)
    requires Begins(s, r, coded, rest)
    ensures EndsLine(r.message.head)
  {
  }
}

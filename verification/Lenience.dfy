/** Inputs that no standard frames: what the proxy takes for a response although the origin has not
    completed it, and what the client then takes for one. */
module Lenience {
  import opened Bytes
  import opened Headers
  import opened Rewriting
  import opened Chunks
  import opened Walks
  import opened Connection
  import opened Runs
  import opened Refinement

  // ----- What the proxy takes -----

  /** The response in front of `s` as the proxy takes it: a chunked body that it buffers ends where
      its decoder ends, and need not be complete; all others must be well-framed. */
  function TakenMessage(s: seq<Byte>): Option<Parsed>
    requires ReadHead(s, NO_FRAMING).Complete?
  {
    var h := ReadHead(s, NO_FRAMING);
    if IsRewritten(h.raw, h.framing) then
      match BufferBody(h.framing, h.rest)
      case Err(_) => None
      case Ok(b) => Some(Parsed(Message(h.raw, h.framing, b.body), b.rest))
    else ParseMessage(s)
  }

  lemma TakenConsumes(s: seq<Byte>)
    requires ReadHead(s, NO_FRAMING).Complete? && TakenMessage(s).Some?
    ensures |TakenMessage(s).value.rest| < |s|
  {
    hide ReadChunked, Dechunk, IsRewritten;
    var h := ReadHead(s, NO_FRAMING);
    if IsRewritten(h.raw, h.framing) {
      BufferShrinks(h.raw, h.framing, h.rest);
    } else {
      ParseMessageConsumes(s);
    }
  }

  lemma BufferShrinks(raw: seq<Byte>, f: Framing, s: seq<Byte>)
    requires IsRewritten(raw, f) && BufferBody(f, s).Ok?
    ensures |BufferBody(f, s).value.rest| <= |s| && |BufferBody(f, s).value.body| <= MAX_REWRITABLE_BODY_SIZE
  {
    BufferBounded(s, MAX_REWRITABLE_BODY_SIZE);
    if f.chunked { ReadChunkedShrinks(s, [], MAX_REWRITABLE_BODY_SIZE); }
  }

  /** The whole input as the proxy takes it; a header block cut off at its end is no response. */
  function TakenStream(s: seq<Byte>): Option<seq<Message>>
    decreases |s|
  {
    if ReadHead(s, NO_FRAMING).Incomplete? then Some([])
    else match TakenMessage(s)
      case None => None
      case Some(p) =>
        TakenConsumes(s);
        var more := TakenStream(p.rest);
        if more.None? then None else Some([p.message] + more.value)
  }

  lemma TakenNext(s: seq<Byte>)
    requires ReadHead(s, NO_FRAMING).Complete? && TakenMessage(s).Some?
    ensures var p := TakenMessage(s).value;
            && (IsDelimited(p.message.framing) ==> Next(s) == Some(p.rest))
            && (!IsDelimited(p.message.framing) ==> Next(s).None? && p.rest == [])
  {
    hide ReadHead, ReadChunked, Dechunk, PassChunked, Announced;
    var h := ReadHead(s, NO_FRAMING);
    if h.framing.chunked {
      WalkersAgree(h.rest, [], MAX_REWRITABLE_BODY_SIZE);
      if !IsRewritten(h.raw, h.framing) { DechunkPassed(h.rest); }
    }
  }

  // ----- What the client makes of it -----

  /** The response in front is taken with an empty chunked body to be rewritten. */
  predicate EmptyAt(s: seq<Byte>)
  {
    var h := ReadHead(s, NO_FRAMING);
    h.Complete? && IsRewritten(h.raw, h.framing) && h.framing.chunked && Next(s).Some? && Announced(h.rest) == 0
  }

  predicate NoneEmpty(fronts: seq<seq<Byte>>)
  {
    forall i :: 0 <= i < |fronts| ==> !EmptyAt(fronts[i])
  }

  lemma NoneEmptyNext(s: seq<Byte>)
    requires NoneEmpty(Fronts(s))
    ensures !EmptyAt(s) && (Next(s).Some? ==> NoneEmpty(Fronts(Next(s).value)))
  {
    hide EmptyAt, Next;
    FrontsNext(s);
    if Next(s).Some? {
      FirstFront(s, Fronts(Next(s).value), x => !EmptyAt(x));
    }
  }

  /** A relayed response that is parsed whole is seen in front of what follows it. */
  lemma SeenNext(s: seq<Byte>, t: Message, origin: seq<Byte>, proxy: seq<Byte>)
    requires origin != [] && Respond(s, origin, proxy).Relayed? && Respond(s, origin, proxy).sent != []
    requires var r := Respond(s, origin, proxy); var tail := Serve(r.rest, origin, proxy).sent;
             ParseMessage(r.sent + tail) == Some(Parsed(t, tail))
    ensures var seen := ParseStream(Serve(Respond(s, origin, proxy).rest, origin, proxy).sent);
            ParseStream(Serve(s, origin, proxy).sent) == if seen.None? then None else Some([t] + seen.value)
  {
    hide Respond, ParseMessage;
    ServeRelayed(s, origin, proxy);
    var r := Respond(s, origin, proxy);
    assert r.sent + Serve(r.rest, origin, proxy).sent != [];
  }

  /** Octets that are forwarded but not a complete body are none for the client either, whatever
      follows them. */
  lemma {:induction false} ForwardedIncomplete(s: seq<Byte>, tail: seq<Byte>)
    requires PassChunked(s).Passed? && Dechunk(s).None? && (PassChunked(s).rest == [] ==> tail == [])
    ensures Dechunk(PassChunked(s).sent + tail).None?
    decreases |s|
  {
    hide ParseChunkSize, LineEnd;
    var line, after := FirstLine(s), AfterLine(s);
    PassTransparent(s);
    if PassChunked(s).rest == [] {
      AppendNothing(PassChunked(s).sent);
    } else if GoesOn(s) {
      var size := ParseChunkSize(line).value;
      PassOneChunk(s, size);
      LineBeforeRest(s);
      ForwardedChunk(s, size, tail);
    } else {
      PassedZero(s);
      FirstLineIsLine(s);
      FirstLineIsLine(after);
      ConcatAssoc(line, FirstLine(after), tail);
      FirstLineOf(line, FirstLine(after) + tail);
      FirstLineOf(FirstLine(after), tail);
    }
  }

  lemma {:induction false} ForwardedChunk(s: seq<Byte>, size: nat, tail: seq<Byte>)
    requires IsLine(FirstLine(s)) && ParseChunkSize(FirstLine(s)) == Some(size) && 0 < size <= |AfterLine(s)| - 2
    requires PassChunked(s).Passed? && Dechunk(s).None? && PassChunked(s).rest != []
    ensures Dechunk(PassChunked(s).sent + tail).None?
    decreases |s|, 0
  {
    hide ParseChunkSize, LineEnd, PassChunked;
    var line, after := FirstLine(s), AfterLine(s);
    var next := after[size + 2..];
    PassOneChunk(s, size);
    CutChunk(after, size);
    var crlf, sent := after[size..size + 2], PassChunked(next).sent;
    ConcatAssoc(line + (after[..size] + crlf), sent, tail);
    SplitChunk(line, after[..size], crlf, sent + tail);
    if crlf == CRLF {
      DechunkOneChunk(s, size);
      ForwardedIncomplete(next, tail);
      DechunkOneChunk(line + (after[..size] + crlf) + (sent + tail), size);
    }
  }

  /** So are the octets forwarded until a chunk turns out to be cut short or malformed. */
  lemma {:induction false} BrokenIncomplete(s: seq<Byte>)
    requires PassChunked(s).Broken?
    ensures Dechunk(PassChunked(s).sent).None?
    decreases |s|
  {
    hide ParseChunkSize, LineEnd, PassChunked;
    var line, after := FirstLine(s), AfterLine(s);
    if GoesOn(s) {
      var size := ParseChunkSize(line).value;
      var next, crlf := after[size + 2..], after[size..size + 2];
      PassOneChunk(s, size);
      LineBeforeRest(s);
      BrokenIncomplete(next);
      CutChunk(after, size);
      var sent := PassChunked(next).sent;
      SplitChunk(line, after[..size], crlf, sent);
      if crlf == CRLF { DechunkOneChunk(line + (after[..size] + crlf) + sent, size); }
    } else {
      BrokenEnd(s);
    }
  }

  lemma BrokenEnd(s: seq<Byte>)
    requires PassChunked(s).Broken? && !GoesOn(s)
    ensures Dechunk(PassChunked(s).sent).None?
  {
    hide ParseChunkSize, LineEnd;
    var line, after, size := FirstLine(s), AfterLine(s), ParseChunkSize(FirstLine(s));
    FirstLineAlone(s);
    FirstLineOfPrefix(s, []);
    AppendNothing(line);
    if size.Some? {
      FirstLineOfPrefix(s, after[..if |after| < size.value then |after| else size.value]);
    }
  }

  /** A response that is passed through without being complete leaves the client with none. */
  lemma PassedUnframed(s: seq<Byte>, origin: seq<Byte>, proxy: seq<Byte>)
    requires origin != [] && ReadHead(s, NO_FRAMING).Complete? && ParseMessage(s).None?
    requires var h := ReadHead(s, NO_FRAMING); !IsRewritten(h.raw, h.framing)
    ensures ParseStream(Serve(s, origin, proxy).sent).None?
  {
    hide ReadHead, Dechunk, PassChunked, IsRewritten;
    var h, r := ReadHead(s, NO_FRAMING), Respond(s, origin, proxy);
    if r.Relayed? {
      ServeRelayed(s, origin, proxy);
      var tail := Serve(r.rest, origin, proxy).sent;
      NothingServed(origin, proxy);
      if h.framing.chunked {
        var sent := PassChunked(h.rest).sent;
        ForwardedIncomplete(h.rest, tail);
        ReadHeadLocal(s, NO_FRAMING, sent + tail);
        ConcatAssoc(h.raw, sent, tail);
      } else {
        assert h.rest[..|h.rest|] == h.rest && h.rest[|h.rest|..] == [];
        AppendNothing(h.raw + h.rest);
      }
    } else {
      BrokenIncomplete(h.rest);
      ReadHeadLocal(s, NO_FRAMING, PassChunked(h.rest).sent);
    }
  }

  /** What the client parses: the transformation of what the proxy takes, up to a body that it cannot
      buffer, of which nothing is sent, or to an empty chunked one that is rewritten, whose stray bytes
      make all that is sent afterwards one more response. `None` if something incomplete is passed
      through before. */
  function View(s: seq<Byte>, origin: seq<Byte>, proxy: seq<Byte>): Option<seq<Message>>
    requires origin != []
    decreases |s|
  {
    var h := ReadHead(s, NO_FRAMING);
    if h.Incomplete? then Some([])
    else match TakenMessage(s)
      case None => if IsRewritten(h.raw, h.framing) then Some([]) else None
      case Some(p) =>
        TakenConsumes(s);
        var t := Transform(p.message, origin, proxy);
        if EmptyAt(s) then Some([t, Message(LAST_CHUNK, NO_FRAMING, Serve(p.rest, origin, proxy).sent)])
        else
          var more := View(p.rest, origin, proxy);
          if more.None? then None else Some([t] + more.value)
  }

  /** For every input whatsoever, and however the run ends: the client parses the view of the input. */
  lemma {:induction false} ClientParsesView(s: seq<Byte>, origin: seq<Byte>, proxy: seq<Byte>)
    requires origin != [] && 0 < |proxy| <= 102
    ensures ParseStream(Serve(s, origin, proxy).sent) == View(s, origin, proxy)
    decreases |s|
  {
    hide Respond, TakenMessage, EmptyAt, Transform, ReadHead, IsRewritten, ParseMessage, Serve, ParseStream;
    var h := ReadHead(s, NO_FRAMING);
    if h.Incomplete? {
      NothingSeen(s, origin, proxy);
    } else if TakenMessage(s).None? {
      NotTaken(s, origin, proxy);
    } else {
      var p := TakenMessage(s).value;
      TakenNext(s);
      TakenConsumes(s);
      if !IsDelimited(p.message.framing) {
        LastSeen(s, origin, proxy);
      } else if EmptyAt(s) {
        EmptySeen(s, origin, proxy);
      } else {
        TakenSeen(s, origin, proxy);
        ClientParsesView(p.rest, origin, proxy);
      }
    }
  }

  lemma NothingSeen(s: seq<Byte>, origin: seq<Byte>, proxy: seq<Byte>)
    requires origin != [] && ReadHead(s, NO_FRAMING).Incomplete?
    ensures ParseStream(Serve(s, origin, proxy).sent) == Some([])
  {
  }

  lemma NotTaken(s: seq<Byte>, origin: seq<Byte>, proxy: seq<Byte>)
    requires origin != [] && ReadHead(s, NO_FRAMING).Complete? && TakenMessage(s).None?
    ensures var h := ReadHead(s, NO_FRAMING);
            ParseStream(Serve(s, origin, proxy).sent) == if IsRewritten(h.raw, h.framing) then Some([]) else None
  {
    hide ParseMessage, BufferBody, IsRewritten;
    var h := ReadHead(s, NO_FRAMING);
    if IsRewritten(h.raw, h.framing) {
      UnbufferedSendsNothing(s, origin, proxy);
    } else {
      PassedUnframed(s, origin, proxy);
    }
  }

  /** The stray bytes after an empty body are seen as a response that takes all that is sent. */
  lemma EmptySeen(s: seq<Byte>, origin: seq<Byte>, proxy: seq<Byte>)
    requires origin != [] && 0 < |proxy| <= 102 && ReadHead(s, NO_FRAMING).Complete? && TakenMessage(s).Some?
    requires EmptyAt(s)
    ensures var p := TakenMessage(s).value;
            ParseStream(Serve(s, origin, proxy).sent) ==
            Some([Transform(p.message, origin, proxy),
                  Message(LAST_CHUNK, NO_FRAMING, Serve(p.rest, origin, proxy).sent)])
  {
    hide Transform, ReadHead, ReadChunked, PassChunked, Announced, IsRewritten, Respond, ParseMessage, Dechunk;
    var h, p := ReadHead(s, NO_FRAMING), TakenMessage(s).value;
    var t, more := Transform(p.message, origin, proxy), Serve(p.rest, origin, proxy);
    WalkersAgree(h.rest, [], MAX_REWRITABLE_BODY_SIZE);
    NextIff(s, origin, proxy);
    RelayBuffered(s, Buffered(p.message.body, p.rest), origin, proxy, more.sent);
    var sent := Respond(s, origin, proxy).sent + more.sent;
    ServeRelayed(s, origin, proxy);
    StrayParses(more.sent);
    assert p.message.body == [] && Stray(p.message) == LAST_CHUNK;
    assert ParseMessage(sent) == Some(Parsed(t, LAST_CHUNK + more.sent));
    if sent == [] { NothingParsed(); }
    var stray := Message(LAST_CHUNK, NO_FRAMING, more.sent);
    assert ParseStream(sent) == Some([t] + [stray]);
    assert [t] + [stray] == [t, stray];
  }

  lemma TakenSeen(s: seq<Byte>, origin: seq<Byte>, proxy: seq<Byte>)
    requires origin != [] && 0 < |proxy| <= 102 && ReadHead(s, NO_FRAMING).Complete? && TakenMessage(s).Some?
    requires IsDelimited(TakenMessage(s).value.message.framing) && !EmptyAt(s)
    ensures var p := TakenMessage(s).value; var seen := ParseStream(Serve(p.rest, origin, proxy).sent);
            ParseStream(Serve(s, origin, proxy).sent) ==
            if seen.None? then None else Some([Transform(p.message, origin, proxy)] + seen.value)
  {
    hide Transform, BufferBody, ParseStream, Serve;
    var h, p := ReadHead(s, NO_FRAMING), TakenMessage(s).value;
    var t, tail := Transform(p.message, origin, proxy), Serve(p.rest, origin, proxy).sent;
    if IsRewritten(h.raw, h.framing) {
      BufferShrinks(h.raw, h.framing, h.rest);
      RelayBuffered(s, Buffered(p.message.body, p.rest), origin, proxy, tail);
      RelayBuffered(s, Buffered(p.message.body, p.rest), origin, proxy, []);
      TakenNonEmpty(s);
      NothingBefore(tail);
    } else {
      RelayedMessage(s, origin, proxy, tail);
      NothingBefore(tail);
    }
    if Respond(s, origin, proxy).sent == [] {
      NothingParsed();
    }
    SeenNext(s, t, origin, proxy);
  }

  lemma NothingParsed()
    ensures ParseMessage([]).None? && ParseMessage([] + []).None?
  {
  }

  lemma TakenNonEmpty(s: seq<Byte>)
    requires ReadHead(s, NO_FRAMING).Complete? && TakenMessage(s).Some? && !EmptyAt(s)
    ensures IsRewritten(TakenMessage(s).value.message.head, TakenMessage(s).value.message.framing) ==>
            Stray(TakenMessage(s).value.message) == []
  {
    hide ReadHead, ReadChunked, PassChunked, Announced, IsRewritten, Dechunk;
    var h := ReadHead(s, NO_FRAMING);
    if IsRewritten(h.raw, h.framing) && h.framing.chunked {
      TakenNext(s);
      WalkersAgree(h.rest, [], MAX_REWRITABLE_BODY_SIZE);
      assert |TakenMessage(s).value.message.body| == Announced(h.rest) && Next(s).Some?;
    }
  }

  lemma LastSeen(s: seq<Byte>, origin: seq<Byte>, proxy: seq<Byte>)
    requires origin != [] && ReadHead(s, NO_FRAMING).Complete? && TakenMessage(s).Some?
    requires !IsDelimited(TakenMessage(s).value.message.framing)
    ensures Serve(s, origin, proxy) == Served(s, [], None)
    ensures ParseStream(s) == View(s, origin, proxy)
  {
    hide Dechunk, FixedBody, BufferBody;
    RefinesLast(s, origin, proxy);
    TakenNext(s);
    var m := TakenMessage(s).value.message;
    assert View([], origin, proxy) == Some([]) && [m] + [] == [m];
  }

  // ----- Inputs without empty bodies to be rewritten -----

  /** What the proxy takes up to the first response that it cannot take. */
  function TakenPrefix(s: seq<Byte>): seq<Message>
    decreases |s|
  {
    if ReadHead(s, NO_FRAMING).Incomplete? then []
    else match TakenMessage(s)
      case None => []
      case Some(p) => TakenConsumes(s); [p.message] + TakenPrefix(p.rest)
  }

  /** The response in front is passed through though it is not complete. */
  predicate PassedBrokenAt(s: seq<Byte>)
  {
    var h := ReadHead(s, NO_FRAMING);
    h.Complete? && !IsRewritten(h.raw, h.framing) && ParseMessage(s).None?
  }

  predicate SomePassedBroken(fronts: seq<seq<Byte>>)
  {
    exists i :: 0 <= i < |fronts| && PassedBrokenAt(fronts[i])
  }

  /** Without empty bodies, and however the run ends, in a fault too: if nothing incomplete was passed
      through, the view is the transformation of what was taken up to the end. */
  lemma {:induction false} ViewTransforms(s: seq<Byte>, origin: seq<Byte>, proxy: seq<Byte>)
    requires origin != [] && NoneEmpty(Fronts(s))
    ensures View(s, origin, proxy) ==
            if SomePassedBroken(Fronts(s)) then None else Some(TransformAll(TakenPrefix(s), origin, proxy))
    decreases |s|
  {
    hide TakenMessage, EmptyAt, Transform, ReadHead, PassedBrokenAt, Next, IsRewritten;
    NoneEmptyNext(s);
    FrontsNext(s);
    OnlyFront(s, PassedBrokenAt);
    if ReadHead(s, NO_FRAMING).Incomplete? {
      NothingTaken(origin, proxy);
      CutFront(s);
    } else if TakenMessage(s).None? {
      NothingTaken(origin, proxy);
      UntakenFront(s);
      if Next(s).Some? { FirstFront(s, Fronts(Next(s).value), PassedBrokenAt); }
    } else {
      var p := TakenMessage(s).value;
      TakenNext(s);
      TakenFront(s);
      TakenConsumes(s);
      TransformFirst(p.message, TakenPrefix(p.rest), origin, proxy);
      if IsDelimited(p.message.framing) {
        FirstFront(s, Fronts(p.rest), PassedBrokenAt);
        ViewTransforms(p.rest, origin, proxy);
      } else {
        NothingTaken(origin, proxy);
      }
    }
  }

  lemma NothingTaken(origin: seq<Byte>, proxy: seq<Byte>)
    requires origin != []
    ensures TakenStream([]) == Some([]) && TakenPrefix([]) == [] && TransformAll([], origin, proxy) == []
    ensures View([], origin, proxy) == Some([])
  {
  }

  lemma CutFront(s: seq<Byte>)
    requires ReadHead(s, NO_FRAMING).Incomplete?
    ensures Next(s).None? && !PassedBrokenAt(s)
  {
  }

  /** A response that is not taken is passed through incomplete, or ends the run. */
  lemma UntakenFront(s: seq<Byte>)
    requires ReadHead(s, NO_FRAMING).Complete? && TakenMessage(s).None?
    ensures var h := ReadHead(s, NO_FRAMING);
            if IsRewritten(h.raw, h.framing) then Next(s).None? && !PassedBrokenAt(s) else PassedBrokenAt(s)
  {
    hide ReadHead, ReadChunked, PassChunked, Announced, IsRewritten, ParseMessage;
    var h := ReadHead(s, NO_FRAMING);
    if h.framing.chunked {
      WalkersAgree(h.rest, [], MAX_REWRITABLE_BODY_SIZE);
    }
    RewrittenDelimited(h.raw, h.framing);
  }

  lemma RewrittenDelimited(raw: seq<Byte>, f: Framing)
    ensures IsRewritten(raw, f) ==> IsDelimited(f)
  {
  }

  lemma TakenFront(s: seq<Byte>)
    requires ReadHead(s, NO_FRAMING).Complete? && TakenMessage(s).Some?
    ensures !PassedBrokenAt(s)
  {
    hide ReadHead, ParseMessage;
  }

  /** The whole input is taken exactly when it is seen without a fault. */
  lemma {:induction false} TakenIff(s: seq<Byte>, origin: seq<Byte>, proxy: seq<Byte>)
    requires origin != [] && NoneEmpty(Fronts(s))
    ensures TakenStream(s).Some? <==> View(s, origin, proxy).Some? && Serve(s, origin, proxy).fault.None?
    ensures TakenStream(s).Some? ==> TakenStream(s).value == TakenPrefix(s)
    decreases |s|
  {
    hide TakenMessage, EmptyAt, Transform, ReadHead, Next, IsRewritten, Respond, BufferBody;
    NoneEmptyNext(s);
    if ReadHead(s, NO_FRAMING).Incomplete? {
      CutServed(s, origin, proxy);
    } else if TakenMessage(s).None? {
      UntakenFails(s, origin, proxy);
    } else {
      var p := TakenMessage(s).value;
      TakenNext(s);
      TakenConsumes(s);
      if IsDelimited(p.message.framing) {
        NextIff(s, origin, proxy);
        ServeRelayed(s, origin, proxy);
        TakenIff(p.rest, origin, proxy);
      } else {
        LastSeen(s, origin, proxy);
        NothingTaken(origin, proxy);
      }
    }
  }

  lemma CutServed(s: seq<Byte>, origin: seq<Byte>, proxy: seq<Byte>)
    requires origin != [] && ReadHead(s, NO_FRAMING).Incomplete?
    ensures Serve(s, origin, proxy).fault.None?
  {
  }

  lemma UntakenFails(s: seq<Byte>, origin: seq<Byte>, proxy: seq<Byte>)
    requires origin != [] && ReadHead(s, NO_FRAMING).Complete? && TakenMessage(s).None?
    ensures var h := ReadHead(s, NO_FRAMING);
            IsRewritten(h.raw, h.framing) ==> Serve(s, origin, proxy).fault.Some?
  {
    hide ReadHead, BufferBody, IsRewritten, ParseMessage;
    var h := ReadHead(s, NO_FRAMING);
    if IsRewritten(h.raw, h.framing) {
      UnbufferedSendsNothing(s, origin, proxy);
    }
  }

  /** So for every input without them: the proxy returns normally and the client parses `es` if and
      only if the proxy takes the whole input for responses and `es` are their transformations. */
  lemma TakenRefinement(s: seq<Byte>, es: seq<Message>, origin: SocketAddr, proxy: SocketAddr)
    requires NoneEmpty(Fronts(s))
    ensures SeenAs(s, es, UrlBase(origin), UrlBase(proxy)) <==>
            TakenStream(s).Some? && es == TransformAll(TakenStream(s).value, UrlBase(origin), UrlBase(proxy))
  {
    hide NoneEmpty, View, TakenStream, SomePassedBroken, Serve, ParseStream;
    UrlBaseShape(proxy);
    UrlBaseShape(origin);
    ClientParsesView(s, UrlBase(origin), UrlBase(proxy));
    ViewTransforms(s, UrlBase(origin), UrlBase(proxy));
    TakenIff(s, UrlBase(origin), UrlBase(proxy));
  }

  /** And when a body that is to be rewritten ends the run with a fault: the client parses exactly the
      transformations of the responses before it. */
  lemma SeenUpToFault(s: seq<Byte>, origin: SocketAddr, proxy: SocketAddr)
    requires NoneEmpty(Fronts(s)) && !SomePassedBroken(Fronts(s))
    ensures ParseStream(Serve(s, UrlBase(origin), UrlBase(proxy)).sent) ==
            Some(TransformAll(TakenPrefix(s), UrlBase(origin), UrlBase(proxy)))
  {
    hide NoneEmpty, View, SomePassedBroken, Serve, ParseStream, TakenPrefix, TransformAll;
    UrlBaseShape(proxy);
    UrlBaseShape(origin);
    ClientParsesView(s, UrlBase(origin), UrlBase(proxy));
    ViewTransforms(s, UrlBase(origin), UrlBase(proxy));
  }

  // ----- What the origin has not completed -----

  /** The proxy goes on or returns as if the response in front were complete, and it is not: its
      header block is cut off, or it is buffered and its chunks end without a zero chunk and a blank
      line, or some chunk without CRLF. */
  predicate LapsesAt(s: seq<Byte>)
  {
    var h := ReadHead(s, NO_FRAMING);
    if h.Incomplete? then s != []
    else IsRewritten(h.raw, h.framing) && h.framing.chunked && Next(s).Some? && !IsComplete(WalkOf(h.rest))
  }

  predicate SomeLapse(fronts: seq<seq<Byte>>)
  {
    exists i :: 0 <= i < |fronts| && LapsesAt(fronts[i])
  }

  lemma MessageLapse(s: seq<Byte>)
    requires ReadHead(s, NO_FRAMING).Complete? && TakenMessage(s).Some?
    ensures LapsesAt(s) <==> ParseMessage(s).None?
    ensures !LapsesAt(s) ==> ParseMessage(s) == TakenMessage(s)
  {
    hide ReadHead, ReadChunked, Dechunk, PassChunked, Announced, IsComplete;
    var h := ReadHead(s, NO_FRAMING);
    TakenNext(s);
    if h.framing.chunked {
      DechunkIff(h.rest);
      if Dechunk(h.rest).Some? {
        DechunkRead(h.rest, Dechunk(h.rest).value, MAX_REWRITABLE_BODY_SIZE);
      }
    }
  }

  /** An input the proxy takes for responses is a stream of complete ones exactly when nothing
      lapses, and then of the same ones. Otherwise, by the theorem above, the client sees complete
      responses that the origin did not complete. */
  lemma {:induction false} LapseIff(s: seq<Byte>)
    requires TakenStream(s).Some?
    ensures ParseStream(s).None? <==> SomeLapse(Fronts(s))
    ensures ParseStream(s).Some? ==> ParseStream(s) == TakenStream(s)
    decreases |s|
  {
    hide ReadHead, TakenMessage, ParseMessage, LapsesAt, Next, IsRewritten;
    FrontsNext(s);
    if ReadHead(s, NO_FRAMING).Incomplete? {
      IncompleteLapse(s);
      OnlyFront(s, LapsesAt);
    } else {
      var p := TakenMessage(s).value;
      TakenNext(s);
      MessageLapse(s);
      HeadNotEmpty(s);
      if IsDelimited(p.message.framing) {
        FirstFront(s, Fronts(p.rest), LapsesAt);
        TakenConsumes(s);
        LapseIff(p.rest);
      } else {
        OnlyFront(s, LapsesAt);
      }
    }
  }

  lemma HeadNotEmpty(s: seq<Byte>)
    requires ReadHead(s, NO_FRAMING).Complete?
    ensures s != []
  {
  }

  lemma IncompleteLapse(s: seq<Byte>)
    requires ReadHead(s, NO_FRAMING).Incomplete?
    ensures LapsesAt(s) <==> s != []
    ensures Next(s).None? && (s != [] ==> ParseStream(s).None?)
  {
  }

  /** The response in front is not complete: its header block is cut off, or its body is short, or its
      chunks are not those of a complete body. */
  predicate UncompletedAt(s: seq<Byte>)
  {
    match ReadHead(s, NO_FRAMING)
    case Incomplete => s != []
    case Complete(_, f, rest) =>
      if f.chunked then !IsComplete(WalkOf(rest))
      else f.contentLength.Some? && |rest| < f.contentLength.value
  }

  predicate SomeUncompleted(fronts: seq<seq<Byte>>)
  {
    exists i :: 0 <= i < |fronts| && UncompletedAt(fronts[i])
  }

  lemma UncompletedMessage(s: seq<Byte>)
    requires ReadHead(s, NO_FRAMING).Complete?
    ensures UncompletedAt(s) <==> ParseMessage(s).None?
    ensures ParseMessage(s).Some? && Next(s).Some? ==> Next(s).value == ParseMessage(s).value.rest
    ensures ParseMessage(s).Some? && Next(s).None? && EndsWell(s) ==> ParseMessage(s).value.rest == []
  {
    hide ReadHead, Dechunk, PassChunked, Announced, IsComplete, IsRewritten;
    var h := ReadHead(s, NO_FRAMING);
    if h.framing.chunked {
      DechunkIff(h.rest);
      if Dechunk(h.rest).Some? { DechunkPassed(h.rest); }
    }
  }

  lemma EndsWellNext(s: seq<Byte>)
    requires Next(s).Some?
    ensures Fronts(s)[|Fronts(s)| - 1] == Fronts(Next(s).value)[|Fronts(Next(s).value)| - 1]
  {
    FrontsNext(s);
  }

  /** An input that the proxy follows to its end is a stream of complete responses exactly when each
      front is complete. */
  lemma {:induction false} StreamIff(s: seq<Byte>)
    requires EndsWell(Fronts(s)[|Fronts(s)| - 1])
    ensures ParseStream(s).None? <==> SomeUncompleted(Fronts(s))
    decreases |s|
  {
    hide ReadHead, ParseMessage, UncompletedAt, Next, EndsWell;
    FrontsNext(s);
    OnlyFront(s, UncompletedAt);
    if ReadHead(s, NO_FRAMING).Incomplete? {
      IncompleteFront(s);
    } else {
      UncompletedMessage(s);
      HeadNotEmpty(s);
      NothingComplete();
      if Next(s).Some? {
        EndsWellNext(s);
        FirstFront(s, Fronts(Next(s).value), UncompletedAt);
        StreamIff(Next(s).value);
      }
    }
  }

  lemma IncompleteFront(s: seq<Byte>)
    requires ReadHead(s, NO_FRAMING).Incomplete?
    ensures Next(s).None? && (UncompletedAt(s) <==> s != []) && (s != [] ==> ParseStream(s).None?)
  {
  }

  lemma NothingComplete()
    ensures ParseStream([]) == Some([])
  {
  }

  /** Nothing incomplete is passed through, at least before an empty body that is rewritten. */
  predicate Followed(fronts: seq<seq<Byte>>)
  {
    fronts != [] ==> !PassedBrokenAt(fronts[0]) && (EmptyAt(fronts[0]) || Followed(fronts[1..]))
  }

  lemma {:induction false} ViewSomeIff(s: seq<Byte>, origin: seq<Byte>, proxy: seq<Byte>)
    requires origin != []
    ensures View(s, origin, proxy).Some? <==> Followed(Fronts(s))
    decreases |s|
  {
    hide TakenMessage, EmptyAt, Transform, ReadHead, PassedBrokenAt, Next, IsRewritten, Serve;
    FrontsNext(s);
    if ReadHead(s, NO_FRAMING).Incomplete? {
      CutFront(s);
    } else if TakenMessage(s).None? {
      UntakenFront(s);
    } else {
      var p := TakenMessage(s).value;
      TakenNext(s);
      TakenFront(s);
      TakenConsumes(s);
      if IsDelimited(p.message.framing) {
        assert Fronts(s)[1..] == Fronts(p.rest);
        ViewSomeIff(p.rest, origin, proxy);
      } else {
        NothingTaken(origin, proxy);
      }
    }
  }

  /** When the client parses complete responses that the origin did not complete, on every input:
      exactly when the proxy follows it to its end, passes nothing incomplete through, and some response
      is not complete. */
  lemma UncompletedIff(s: seq<Byte>, origin: SocketAddr, proxy: SocketAddr)
    ensures var served, fronts := Serve(s, UrlBase(origin), UrlBase(proxy)), Fronts(s);
            served.fault.None? && ParseStream(served.sent).Some? && ParseStream(s).None? <==>
            EndsWell(fronts[|fronts| - 1]) && Followed(fronts) && SomeUncompleted(fronts)
  {
    hide SomeUncompleted, ParseStream, Serve, EndsWell, Followed, Fronts, View;
    UrlBaseShape(origin);
    UrlBaseShape(proxy);
    var from, to := UrlBase(origin), UrlBase(proxy);
    ReturnsIff(s, from, to);
    ClientParsesView(s, from, to);
    ViewSomeIff(s, from, to);
    if EndsWell(Fronts(s)[|Fronts(s)| - 1]) { StreamIff(s); }
  }

  // ----- Position by position -----

  /** The response at position `i` of the view comes from the rewrite route. */
  predicate FromRewrite(fronts: seq<seq<Byte>>, i: nat)
  {
    i < |fronts| && RewrittenAt(fronts[i]) && forall j :: 0 <= j < i ==> !EmptyAt(fronts[j])
  }

  /** There it is the transformation of what was taken. */
  lemma {:induction false} ViewAt(s: seq<Byte>, i: nat, origin: seq<Byte>, proxy: seq<Byte>)
    requires origin != [] && FromRewrite(Fronts(s), i)
    requires View(s, origin, proxy).Some? && i < |View(s, origin, proxy).value|
    ensures var front := Fronts(s)[i];
            && ReadHead(front, NO_FRAMING).Complete? && TakenMessage(front).Some?
            && IsRewritten(TakenMessage(front).value.message.head, TakenMessage(front).value.message.framing)
            && View(s, origin, proxy).value[i] == Transform(TakenMessage(front).value.message, origin, proxy)
    decreases i
  {
    hide EmptyAt, Transform, ReadHead, Next, IsRewritten, Serve, ParseMessage, BufferBody;
    FrontsNext(s);
    if i > 0 {
      assert !EmptyAt(Fronts(s)[0]);
      var p := TakenMessage(s).value;
      TakenNext(s);
      TakenConsumes(s);
      if IsDelimited(p.message.framing) {
        forall j | 0 <= j < i - 1 ensures !EmptyAt(Fronts(p.rest)[j]) { assert !EmptyAt(Fronts(s)[j + 1]); }
        ViewAt(p.rest, i - 1, origin, proxy);
      } else {
        NothingTaken(origin, proxy);
      }
    }
  }
}

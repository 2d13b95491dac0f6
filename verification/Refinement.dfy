/** What is read back from the proxy's output, with the proxy's own header scan and a stricter
    chunk decoder, against what the origin sent. `Recipient` is about any other reader. */
module Refinement {
  import opened Bytes
  import opened Numbers
  import opened Utf8
  import opened Rewriting
  import opened Headers
  import opened Decoding
  import opened Chunks
  import opened Connection

  // ----- Reading a stream -----

  datatype Message = Message(head: seq<Byte>, framing: Framing, body: seq<Byte>)

  datatype Parsed = Parsed(message: Message, rest: seq<Byte>)

  /** The first response of a stream, with its decoded body: chunked coding takes precedence,
      then the length, else the body extends to the end of the stream. `None` when malformed. */
  function ParseMessage(s: seq<Byte>): Option<Parsed>
  {
    match ReadHead(s, NO_FRAMING)
    case Incomplete => None
    case Complete(raw, f, rest) =>
      if f.chunked then
        match Dechunk(rest)
        case None => None
        case Some(b) => Some(Parsed(Message(raw, f, b.body), b.rest))
      else if f.contentLength.Some? then
        match FixedBody(rest, f.contentLength.value)
        case Err(_) => None
        case Ok(b) => Some(Parsed(Message(raw, f, b.body), b.rest))
      else Some(Parsed(Message(raw, f, rest), []))
  }

  lemma ParseMessageConsumes(s: seq<Byte>)
    requires ParseMessage(s).Some?
    ensures |ParseMessage(s).value.rest| < |s|
  {
    var h := ReadHead(s, NO_FRAMING);
    if h.framing.chunked {
      var used := DechunkLocal(h.rest, []);
    }
  }

  /** A well-framed stream as its sequence of responses. */
  function ParseStream(s: seq<Byte>): Option<seq<Message>>
    decreases |s|
  {
    if s == [] then Some([])
    else match ParseMessage(s)
      case None => None
      case Some(p) =>
        ParseMessageConsumes(s);
        var more := ParseStream(p.rest);
        if more.None? then None else Some([p.message] + more.value)
  }

  // ----- What the proxy is for -----

  /** A response as the client is to see it: the rewritten body with a header that frames it on
      the rewrite route, the same response otherwise. */
  function Transform(m: Message, origin: seq<Byte>, proxy: seq<Byte>): Message
    requires origin != []
  {
    if IsRewritten(m.head, m.framing) then
      var body := Rewrite(m.body, origin, proxy);
      var resized := m.framing.contentLength.Some? && |body| != |m.body|;
      Message(RewrittenHead(m.head, m.framing, |m.body|, |body|),
              if resized then m.framing.(contentLength := Some(|body|)) else m.framing,
              body)
    else m
  }

  function TransformAll(ms: seq<Message>, origin: seq<Byte>, proxy: seq<Byte>): (r: seq<Message>)
    requires origin != []
    ensures |r| == |ms|
    ensures forall i :: 0 <= i < |ms| ==> r[i] == Transform(ms[i], origin, proxy)
  {
    if ms == [] then []
    else [Transform(ms[0], origin, proxy)] + TransformAll(ms[1..], origin, proxy)
  }

  /** The proxy can carry the response: a chunked body to be rewritten is non-empty and within the limit. */
  predicate IsCarried(m: Message)
  {
    IsRewritten(m.head, m.framing) && m.framing.chunked ==> 0 < |m.body| <= MAX_REWRITABLE_BODY_SIZE
  }

  // ----- Rewritten bodies stay in range -----

  lemma RewriteBound(body: seq<Byte>, from: seq<Byte>, to: seq<Byte>)
    requires from != [] && 0 < |to| <= 102 && |body| <= MAX_REWRITABLE_BODY_SIZE
    ensures |Rewrite(body, from, to)| <= USIZE_MAX
    ensures Rewrite(body, from, to) == [] <==> body == []
  {
    var text := Lossy(body);
    ReplaceBound(text, from, to);
    ProductBound(|text|, |to|);
  }

  lemma ProductBound(a: nat, b: nat)
    requires a <= 3 * MAX_REWRITABLE_BODY_SIZE && b <= 102
    ensures a * b <= USIZE_MAX
  {
    if a > 0 { MulMonotone(a, 3 * MAX_REWRITABLE_BODY_SIZE, b); }
  }

  // ----- One response, as relayed, is parsed as the transformed response -----

  /** Content-Length coherence: scanning the header emitted in front of a rewritten body, in the
      updated and in the untouched branch, gives back the framing with exactly the length of the
      emitted body, and stops exactly at the body. */
  lemma HeaderCoherence(s: seq<Byte>, oldLength: nat, newLength: nat, rest: seq<Byte>)
    requires ReadHead(s, NO_FRAMING).Complete? && newLength <= USIZE_MAX
    ensures var h := ReadHead(s, NO_FRAMING);
            var head := RewrittenHead(h.raw, h.framing, oldLength, newLength);
            ReadHead(head + rest, NO_FRAMING) ==
            Complete(head,
                     if h.framing.contentLength.Some? && newLength != oldLength
                     then h.framing.(contentLength := Some(newLength)) else h.framing,
                     rest)
  {
    var h := ReadHead(s, NO_FRAMING);
    if h.framing.contentLength.Some? && newLength != oldLength {
      ScanUpdated(s, NO_FRAMING, NO_FRAMING, newLength, rest);
    } else {
      ScanDecoded(s, NO_FRAMING, rest);
    }
  }

  /** The same seen from outside: what one pass sends for a response of known length on the rewrite
      route is a header block announcing exactly the octets that follow it. */
  lemma EmittedLength(s: seq<Byte>, origin: seq<Byte>, proxy: seq<Byte>)
    requires origin != [] && 0 < |proxy| <= 102 && ReadHead(s, NO_FRAMING).Complete?
    requires var h := ReadHead(s, NO_FRAMING);
             IsRewritten(h.raw, h.framing) && !h.framing.chunked && |h.rest| >= h.framing.contentLength.value
    ensures var h, r := ReadHead(s, NO_FRAMING), Respond(s, origin, proxy);
            && r.Relayed? && ReadHead(r.sent, NO_FRAMING).Complete?
            && ReadHead(r.sent, NO_FRAMING).rest == Rewrite(h.rest[..h.framing.contentLength.value], origin, proxy)
            && ReadHead(r.sent, NO_FRAMING).framing ==
               Framing(Some(|ReadHead(r.sent, NO_FRAMING).rest|), false)
  {
    var h := ReadHead(s, NO_FRAMING);
    var body := h.rest[..h.framing.contentLength.value];
    var rewritten := Rewrite(body, origin, proxy);
    RewriteBound(body, origin, proxy);
    HeaderCoherence(s, |body|, |rewritten|, rewritten);
  }

  lemma ParseHead(head: seq<Byte>, f: Framing, tail: seq<Byte>, rest: seq<Byte>, p: Parsed)
    requires ReadHead(head + (tail + rest), NO_FRAMING) == Complete(head, f, tail + rest) && IsDelimited(f)
    requires p.message.head == head && p.message.framing == f
    requires if f.chunked then Dechunk(tail + rest) == Some(Buffered(p.message.body, p.rest))
             else f.contentLength == Some(|tail|) && p.message.body == tail && p.rest == rest
    ensures ParseMessage(head + tail + rest) == Some(p)
  {
    ConcatAssoc(head, tail, rest);
    assert (tail + rest)[..|tail|] == tail && (tail + rest)[|tail|..] == rest;
  }

  /** What the proxy leaves in front of the next response: nothing, except the second zero chunk
      after an empty chunked body. */
  function Stray(m: Message): seq<Byte>
  {
    if IsRewritten(m.head, m.framing) && m.framing.chunked then Residue(m.body) else []
  }

  /** Whatever body the proxy buffers, well-framed or not, is parsed transformed. */
  lemma RelayBuffered(s: seq<Byte>, b: Buffered, origin: seq<Byte>, proxy: seq<Byte>, next: seq<Byte>)
    requires origin != [] && 0 < |proxy| <= 102 && ReadHead(s, NO_FRAMING).Complete?
    requires var h := ReadHead(s, NO_FRAMING); IsRewritten(h.raw, h.framing) && BufferBody(h.framing, h.rest) == Ok(b)
    requires |b.body| <= MAX_REWRITABLE_BODY_SIZE
    ensures var h, r := ReadHead(s, NO_FRAMING), Respond(s, origin, proxy);
            var m := Message(h.raw, h.framing, b.body);
            && r.Relayed? && r.rest == b.rest
            && ParseMessage(r.sent + next) == Some(Parsed(Transform(m, origin, proxy), Stray(m) + next))
  {
    var h := ReadHead(s, NO_FRAMING);
    var m := Message(h.raw, h.framing, b.body);
    var t := Transform(m, origin, proxy);
    RewriteBound(m.body, origin, proxy);
    if h.framing.chunked {
      HeaderCoherence(s, |m.body|, |t.body|, EncodeChunked(t.body) + next);
      DechunkEncoded(t.body, next);
      ParseHead(t.head, t.framing, EncodeChunked(t.body), next, Parsed(t, Stray(m) + next));
    } else {
      HeaderCoherence(s, |m.body|, |t.body|, t.body + next);
      ParseHead(t.head, t.framing, t.body, next, Parsed(t, next));
      NothingBefore(next);
    }
  }

  lemma RelayRewritten(s: seq<Byte>, origin: seq<Byte>, proxy: seq<Byte>, next: seq<Byte>)
    requires origin != [] && 0 < |proxy| <= 102 && ParseMessage(s).Some?
    requires var m := ParseMessage(s).value.message;
             IsRewritten(m.head, m.framing) && |m.body| <= MAX_REWRITABLE_BODY_SIZE
    ensures var p := ParseMessage(s).value; var r := Respond(s, origin, proxy);
            && r.Relayed? && r.rest == p.rest
            && ParseMessage(r.sent + next) == Some(Parsed(Transform(p.message, origin, proxy), Stray(p.message) + next))
  {
    hide Transform, Respond, Stray, BufferBody, ReadHead;
    BuffersParsed(s);
    var p := ParseMessage(s).value;
    RelayBuffered(s, Buffered(p.message.body, p.rest), origin, proxy, next);
  }

  /** The body of a well-framed response within the limit is what the proxy buffers. */
  lemma BuffersParsed(s: seq<Byte>)
    requires ParseMessage(s).Some?
    requires var m := ParseMessage(s).value.message; IsDelimited(m.framing) && |m.body| <= MAX_REWRITABLE_BODY_SIZE
    ensures var h, p := ReadHead(s, NO_FRAMING), ParseMessage(s).value;
            && h.Complete? && p.message.head == h.raw && p.message.framing == h.framing
            && BufferBody(h.framing, h.rest) == Ok(Buffered(p.message.body, p.rest))
  {
    hide ReadHead, Dechunk, ReadChunked;
    var h, p := ReadHead(s, NO_FRAMING), ParseMessage(s).value;
    if h.framing.chunked {
      DechunkRead(h.rest, Buffered(p.message.body, p.rest), MAX_REWRITABLE_BODY_SIZE);
    }
  }

  lemma RelayPassed(s: seq<Byte>, origin: seq<Byte>, proxy: seq<Byte>, next: seq<Byte>)
    requires origin != [] && ParseMessage(s).Some?
    requires var m := ParseMessage(s).value.message; IsDelimited(m.framing) && !IsRewritten(m.head, m.framing)
    ensures var p := ParseMessage(s).value; var r := Respond(s, origin, proxy);
            && r.Relayed? && r.rest == p.rest
            && ParseMessage(r.sent + next) == Some(Parsed(p.message, next))
  {
    var h, p := ReadHead(s, NO_FRAMING), ParseMessage(s).value;
    var m := p.message;
    if h.framing.chunked {
      var used := DechunkLocal(h.rest, next);
      DechunkPassed(h.rest);
      PassTransparent(h.rest);
      SameBeforeSuffix(PassChunked(h.rest).sent, used, p.rest);
      ReadHeadLocal(s, NO_FRAMING, used + next);
      ParseHead(h.raw, h.framing, used, next, Parsed(m, next));
    } else {
      ReadHeadLocal(s, NO_FRAMING, m.body + next);
      ParseHead(h.raw, h.framing, m.body, next, Parsed(m, next));
    }
  }

  /** One pass of the loop over a delimited response that the proxy can buffer: the client parses
      the transformed response, and what follows is parsed after the stray bytes, if any. */
  lemma RelayedMessage(s: seq<Byte>, origin: seq<Byte>, proxy: seq<Byte>, next: seq<Byte>)
    requires origin != [] && 0 < |proxy| <= 102 && ParseMessage(s).Some?
    requires var m := ParseMessage(s).value.message;
             IsDelimited(m.framing) && (IsRewritten(m.head, m.framing) ==> |m.body| <= MAX_REWRITABLE_BODY_SIZE)
    ensures var p := ParseMessage(s).value; var r := Respond(s, origin, proxy);
            && r.Relayed? && r.rest == p.rest && r.sent != []
            && ParseMessage(r.sent + next) == Some(Parsed(Transform(p.message, origin, proxy), Stray(p.message) + next))
  {
    var m := ParseMessage(s).value.message;
    if IsRewritten(m.head, m.framing) {
      RelayRewritten(s, origin, proxy, next);
      RelayRewritten(s, origin, proxy, []);
    } else {
      RelayPassed(s, origin, proxy, next);
      RelayPassed(s, origin, proxy, []);
      NothingBefore(next);
    }
    ParseMessageConsumes(Respond(s, origin, proxy).sent + []);
  }

  // ----- The whole connection -----

  lemma StrayScans(line: seq<Byte>, f: Framing)
    requires line == "0\r\n" || line == CRLF
    ensures ScanLine(f, line) == f
  {
    LossyAscii(line);
    assert Lower(line)[0] == line[0];
    assert CONTENT_LENGTH[0] == 'c' && TRANSFER_ENCODING[0] == 't';
  }

  lemma StrayHead(rest: seq<Byte>)
    ensures ReadHead(LAST_CHUNK + rest, NO_FRAMING) == Complete(LAST_CHUNK, NO_FRAMING, rest)
  {
    hide ReadHead, ScanLine;
    var zero: seq<Byte> := "0\r\n";
    assert zero[..2] == "0\r";
    assert zero + CRLF == LAST_CHUNK;
    StrayScans(zero, NO_FRAMING);
    StrayScans(CRLF, NO_FRAMING);
    ReadHeadCons(CRLF, rest, NO_FRAMING);
    ReadHeadMore(zero, CRLF, rest, NO_FRAMING);
  }

  /** The stray bytes of an empty chunked body make the client take them, and everything after
      them, for one more response without framing. */
  lemma StrayParses(rest: seq<Byte>)
    ensures ParseStream(LAST_CHUNK + rest) == Some([Message(LAST_CHUNK, NO_FRAMING, rest)])
  {
    hide ReadHead;
    StrayHead(rest);
    LastMessage(LAST_CHUNK + rest);
  }

  /** A response without framing is the last of its stream. */
  lemma LastMessage(s: seq<Byte>)
    requires ParseMessage(s).Some? && !IsDelimited(ParseMessage(s).value.message.framing)
    ensures var m := ParseMessage(s).value.message;
            ParseStream(s) == Some([m]) && m.head + m.body == s
  {
    var m := ParseMessage(s).value.message;
    assert ParseStream([]) == Some([]) && [m] + [] == [m];
  }

  predicate AllCarried(ms: seq<Message>)
  {
    forall i :: 0 <= i < |ms| ==> IsCarried(ms[i])
  }

  /** The proxy returns normally, and the client parses exactly `es`. */
  predicate SeenAs(s: seq<Byte>, es: seq<Message>, origin: seq<Byte>, proxy: seq<Byte>)
    requires origin != []
  {
    && Serve(s, origin, proxy).fault.None?
    && ParseStream(Serve(s, origin, proxy).sent) == Some(es)
  }

  /** What a client might be meant to see of `ms`: one response for each, delimited where it takes
      the rewrite route and the same where it does not. */
  predicate Plausible(es: seq<Message>, ms: seq<Message>)
  {
    |es| == |ms| && forall i :: 0 <= i < |ms| ==> PlausibleFor(es[i], ms[i])
  }

  predicate PlausibleFor(e: Message, m: Message)
  {
    if IsRewritten(m.head, m.framing) then IsDelimited(e.framing) else e == m
  }

  lemma PlausibleRest(e: Message, es: seq<Message>, m: Message, ms: seq<Message>)
    requires Plausible([e] + es, [m] + ms)
    ensures Plausible(es, ms) && PlausibleFor(e, m)
  {
    hide PlausibleFor;
    var xs, ys := [e] + es, [m] + ms;
    assert PlausibleFor(xs[0], ys[0]);
    forall i | 0 <= i < |ms| ensures PlausibleFor(es[i], ms[i]) {
      assert PlausibleFor(xs[i + 1], ys[i + 1]);
    }
  }

  /** The end of the connection: a response without framing is streamed as it is. */
  lemma RefinesLast(s: seq<Byte>, origin: seq<Byte>, proxy: seq<Byte>)
    requires origin != [] && ParseMessage(s).Some? && !IsDelimited(ParseMessage(s).value.message.framing)
    ensures Serve(s, origin, proxy) == Served(s, [], None)
    ensures var ms := [ParseMessage(s).value.message];
            ParseStream(s) == Some(ms) && TransformAll(ms, origin, proxy) == ms && AllCarried(ms)
  {
    LastMessage(s);
  }

  /** The stray bytes are never what the client should see, whatever follows. */
  lemma StrayNeverRight(rest: seq<Byte>, more: seq<Message>, es: seq<Message>, origin: seq<Byte>, proxy: seq<Byte>)
    requires origin != [] && ParseStream(rest) == Some(more) && Plausible(es, more)
    ensures ParseStream(LAST_CHUNK + Serve(rest, origin, proxy).sent) != Some(es)
  {
    var stray := Message(LAST_CHUNK, NO_FRAMING, Serve(rest, origin, proxy).sent);
    StrayParses(stray.body);
    if es == [stray] {
      assert PlausibleFor(es[0], more[0]) && es[0] == stray;
      assert more == [ParseMessage(rest).value.message];
      RefinesLast(rest, origin, proxy);
      LastMessage(rest);
    }
  }

  lemma TransformFirst(m: Message, more: seq<Message>, origin: seq<Byte>, proxy: seq<Byte>)
    requires origin != []
    ensures TransformAll([m] + more, origin, proxy) == [Transform(m, origin, proxy)] + TransformAll(more, origin, proxy)
  {
    hide Transform;
    assert ([m] + more)[1..] == more;
  }

  lemma CarriedFirst(m: Message, more: seq<Message>)
    ensures AllCarried([m] + more) <==> IsCarried(m) && AllCarried(more)
  {
    var all := [m] + more;
    if AllCarried(all) {
      assert IsCarried(all[0]);
      forall i | 0 <= i < |more| ensures IsCarried(more[i]) { assert IsCarried(all[i + 1]); }
    }
    if IsCarried(m) && AllCarried(more) {
      forall i | 0 <= i < |all| ensures IsCarried(all[i]) { assert i > 0 ==> all[i] == more[i - 1]; }
    }
  }

  lemma SameCons<T>(x: T, a: seq<T>, y: T, b: seq<T>)
    ensures [x] + a == [y] + b <==> x == y && a == b
  {
    assert ([x] + a)[0] == x && ([y] + b)[0] == y;
    assert ([x] + a)[1..] == a && ([y] + b)[1..] == b;
  }

  /** The client sees what is plausible exactly when every response can be carried and it is their
      transformation. */
  lemma {:induction false} Refines(s: seq<Byte>, es: seq<Message>, origin: seq<Byte>, proxy: seq<Byte>)
    requires origin != [] && 0 < |proxy| <= 102 && ParseStream(s).Some? && Plausible(es, ParseStream(s).value)
    ensures var ms := ParseStream(s).value;
            SeenAs(s, es, origin, proxy) <==> AllCarried(ms) && es == TransformAll(ms, origin, proxy)
    decreases |s|
  {
    hide IsRewritten, Transform, ParseMessage, Plausible;
    if s == [] {
      RefinesNothing(es, origin, proxy);
    } else {
      var p := ParseMessage(s).value;
      var m, more := p.message, ParseStream(p.rest).value;
      ParseMessageConsumes(s);
      PlausibleSize(es, [m] + more);
      assert es == [es[0]] + es[1..];
      PlausibleRest(es[0], es[1..], m, more);
      if !IsDelimited(m.framing) {
        RefinesLast(s, origin, proxy);
        PlausibleLast(es, m);
      } else {
        CarriedFirst(m, more);
        if IsRewritten(m.head, m.framing) && |m.body| > MAX_REWRITABLE_BODY_SIZE {
          OverLimitFails(s, origin, proxy);
        } else {
          Refines(p.rest, es[1..], origin, proxy);
          RefinesStep(s, p, more, es[0], es[1..], origin, proxy);
        }
      }
    }
  }

  lemma PlausibleSize(es: seq<Message>, ms: seq<Message>)
    requires Plausible(es, ms)
    ensures |es| == |ms|
  {
  }

  lemma PlausibleLast(es: seq<Message>, m: Message)
    requires Plausible(es, [m]) && !IsDelimited(m.framing)
    ensures es == [m]
  {
    assert PlausibleFor(es[0], [m][0]);
  }

  lemma RefinesNothing(es: seq<Message>, origin: seq<Byte>, proxy: seq<Byte>)
    requires origin != [] && Plausible(es, [])
    ensures es == TransformAll([], origin, proxy) && AllCarried([]) && SeenAs([], es, origin, proxy)
  {
  }

  /** Bodies over the limit are announced to be passed through without rewriting. For a well-framed
      response of a rewritable type that is so exactly when its Content-Length says so; a chunked
      one without such a field is an error instead, and nothing of it is sent. */
  lemma OversizePassedIff(s: seq<Byte>, origin: seq<Byte>, proxy: seq<Byte>)
    requires origin != [] && ParseMessage(s).Some?
    requires var m := ParseMessage(s).value.message;
             IsDelimited(m.framing) && ShouldRewrite(Lossy(m.head)) && |m.body| > MAX_REWRITABLE_BODY_SIZE
    ensures var m, r := ParseMessage(s).value.message, Respond(s, origin, proxy);
            && (r.Relayed? && r.sent + r.rest == s <==> TooLarge(m.framing))
            && (!TooLarge(m.framing) ==> m.framing.chunked && ReplySendsNothing(r))
  {
    hide ReadHead, Dechunk, ReadChunked, PassChunked, ShouldRewrite, Lossy;
    var h, p := ReadHead(s, NO_FRAMING), ParseMessage(s).value;
    if h.framing.chunked {
      DechunkRead(h.rest, Buffered(p.message.body, p.rest), MAX_REWRITABLE_BODY_SIZE);
    }
    if TooLarge(h.framing) {
      PassReplyTransparent(h.raw, h.framing, h.rest);
    }
  }

  predicate ReplySendsNothing(r: Reply) { r.Failed? && r.sent == [] }

  lemma OverLimitFails(s: seq<Byte>, origin: seq<Byte>, proxy: seq<Byte>)
    requires origin != [] && ParseMessage(s).Some?
    requires var m := ParseMessage(s).value.message;
             IsRewritten(m.head, m.framing) && |m.body| > MAX_REWRITABLE_BODY_SIZE
    ensures Serve(s, origin, proxy).fault.Some? && !IsCarried(ParseMessage(s).value.message)
  {
    var h, p := ReadHead(s, NO_FRAMING), ParseMessage(s).value;
    if h.framing.chunked {
      DechunkRead(h.rest, Buffered(p.message.body, p.rest), MAX_REWRITABLE_BODY_SIZE);
      UnbufferedSendsNothing(s, origin, proxy);
    }
  }

  lemma RefinesStep(s: seq<Byte>, p: Parsed, more: seq<Message>, e: Message, es: seq<Message>,
                    origin: seq<Byte>, proxy: seq<Byte>)
    requires origin != [] && 0 < |proxy| <= 102 && ParseMessage(s) == Some(p) && ParseStream(p.rest) == Some(more)
    requires IsDelimited(p.message.framing) && Plausible(es, more)
    requires IsRewritten(p.message.head, p.message.framing) ==> |p.message.body| <= MAX_REWRITABLE_BODY_SIZE
    requires SeenAs(p.rest, es, origin, proxy) <==> AllCarried(more) && es == TransformAll(more, origin, proxy)
    ensures SeenAs(s, [e] + es, origin, proxy) <==>
            IsCarried(p.message) && AllCarried(more) && [e] + es == TransformAll([p.message] + more, origin, proxy)
  {
    var m, tail := p.message, Serve(p.rest, origin, proxy);
    RelayedMessage(s, origin, proxy, tail.sent);
    var r, t := Respond(s, origin, proxy), Transform(m, origin, proxy);
    TransformFirst(m, more, origin, proxy);
    SameCons(e, es, t, TransformAll(more, origin, proxy));
    assert Serve(s, origin, proxy) == tail.(sent := r.sent + tail.sent);
    var seen := ParseStream(Stray(m) + tail.sent);
    assert ParseStream(r.sent + tail.sent) == if seen.None? then None else Some([t] + seen.value);
    if seen.Some? {
      SameCons(e, es, t, seen.value);
    }
    if Stray(m) == [] {
      NothingBefore(tail.sent);
      assert IsCarried(m);
    } else {
      StrayNeverRight(p.rest, more, es, origin, proxy);
    }
  }

  /** The main result. For every origin stream of well-framed responses (fixed length, chunked
      with an empty trailer section, or a last one that extends to the end) and all addresses: the
      proxy returns normally and the client parses exactly the transformed responses, in order
      and number, if and only if every chunked response to be rewritten has a non-empty body
      within the limit. */
  lemma ConnectionRefinement(s: seq<Byte>, origin: SocketAddr, proxy: SocketAddr)
    requires ParseStream(s).Some?
    ensures var ms, from, to := ParseStream(s).value, UrlBase(origin), UrlBase(proxy);
            SeenAs(s, TransformAll(ms, from, to), from, to) <==> AllCarried(ms)
  {
    var ms, from, to := ParseStream(s).value, UrlBase(origin), UrlBase(proxy);
    UrlBaseShape(proxy);
    TransformPlausible(ms, from, to);
    Refines(s, TransformAll(ms, from, to), from, to);
  }

  lemma TransformPlausible(ms: seq<Message>, origin: seq<Byte>, proxy: seq<Byte>)
    requires origin != []
    ensures Plausible(TransformAll(ms, origin, proxy), ms)
  {
    hide Rewrite, RewrittenHead;
  }

  // ----- The origin's own octets -----

  /** A response as its sender would want it rewritten: the origin's octets with the URL bases
      replaced, whatever their encoding, and the length brought up to date. */
  function Intended(m: Message, origin: seq<Byte>, proxy: seq<Byte>): Message
    requires origin != []
  {
    if IsRewritten(m.head, m.framing) then
      var body := Replace(m.body, origin, proxy);
      if m.framing.contentLength.Some? && |body| != |m.body|
      then Message(Updated(m.head, |body|), m.framing.(contentLength := Some(|body|)), body)
      else m.(body := body)
    else m
  }

  function IntendedAll(ms: seq<Message>, origin: seq<Byte>, proxy: seq<Byte>): (r: seq<Message>)
    requires origin != []
    ensures |r| == |ms|
    ensures forall i :: 0 <= i < |ms| ==> r[i] == Intended(ms[i], origin, proxy)
  {
    seq(|ms|, i requires 0 <= i < |ms| => Intended(ms[i], origin, proxy))
  }

  /** On the rewrite route, body and header are UTF-8; a Content-Length line that is replaced
      need not be. */
  predicate IsText(m: Message, origin: seq<Byte>, proxy: seq<Byte>)
    requires origin != []
  {
    IsRewritten(m.head, m.framing) ==>
      && Valid(m.body)
      && if m.framing.contentLength.Some? && |Replace(m.body, origin, proxy)| != |m.body|
         then KeptLinesValid(m.head) else Valid(m.head)
  }

  predicate AllText(ms: seq<Message>, origin: seq<Byte>, proxy: seq<Byte>)
    requires origin != []
  {
    forall i :: 0 <= i < |ms| ==> IsText(ms[i], origin, proxy)
  }

  lemma TransformIsIntended(m: Message, origin: SocketAddr, proxy: SocketAddr)
    requires EndsLine(m.head)
    ensures var from, to := UrlBase(origin), UrlBase(proxy);
            Transform(m, from, to) == Intended(m, from, to) <==> IsText(m, from, to)
  {
    hide IsRewritten, Replace, Lossy, Updated, KeptLinesValid, Valid, UrlBase, AllAscii;
    var from, to := UrlBase(origin), UrlBase(proxy);
    UrlBaseAscii(origin);
    UrlBaseAscii(proxy);
    BasesShareHead(origin, proxy);
    RewrittenOctets(m.body, from, to);
    LossyIdentityIff(m.head);
    LossyIdentityIff(m.body);
    UpdatedOctets(m.head, |Replace(m.body, from, to)|);
  }

  lemma BasesShareHead(origin: SocketAddr, proxy: SocketAddr)
    ensures UrlBase(origin) != [] && UrlBase(proxy) != [] && UrlBase(origin)[0] == UrlBase(proxy)[0]
  {
    UrlBaseShape(origin);
    UrlBaseShape(proxy);
  }

  predicate EndsLine(head: seq<Byte>) { head != [] && head[|head| - 1] == '\n' }

  lemma ParsedHead(s: seq<Byte>)
    requires ParseMessage(s).Some?
    ensures EndsLine(ParseMessage(s).value.message.head)
  {
    hide ReadHead, Dechunk, FixedBody;
    HeadEndsLine(s, NO_FRAMING);
  }

  lemma {:induction false} ParsedHeads(s: seq<Byte>)
    requires ParseStream(s).Some?
    ensures forall i :: 0 <= i < |ParseStream(s).value| ==> EndsLine(ParseStream(s).value[i].head)
    decreases |s|
  {
    hide ParseMessage, EndsLine;
    if s != [] {
      var p := ParseMessage(s).value;
      ParsedHead(s);
      ParseMessageConsumes(s);
      ParsedHeads(p.rest);
    }
  }

  /** Rewriting without decoding, which is what the client should see, is what it does see if and
      only if moreover every rewritten response is UTF-8: lossy decoding damages all others. */
  lemma OctetRefinement(s: seq<Byte>, origin: SocketAddr, proxy: SocketAddr)
    requires ParseStream(s).Some?
    ensures var ms, from, to := ParseStream(s).value, UrlBase(origin), UrlBase(proxy);
            SeenAs(s, IntendedAll(ms, from, to), from, to) <==> AllCarried(ms) && AllText(ms, from, to)
  {
    hide Transform, Intended, IsText;
    var ms, from, to := ParseStream(s).value, UrlBase(origin), UrlBase(proxy);
    UrlBaseShape(proxy);
    IntendedPlausible(ms, from, to);
    Refines(s, IntendedAll(ms, from, to), from, to);
    ParsedHeads(s);
    forall i | 0 <= i < |ms|
      ensures IntendedAll(ms, from, to)[i] == TransformAll(ms, from, to)[i] <==> IsText(ms[i], from, to)
    {
      TransformIsIntended(ms[i], origin, proxy);
    }
    SameMessages(IntendedAll(ms, from, to), TransformAll(ms, from, to));
  }

  lemma IntendedPlausible(ms: seq<Message>, origin: seq<Byte>, proxy: seq<Byte>)
    requires origin != []
    ensures Plausible(IntendedAll(ms, origin, proxy), ms)
  {
    hide Replace, Updated;
  }

  lemma SameMessages(a: seq<Message>, b: seq<Message>)
    requires |a| == |b|
    ensures a == b <==> forall i :: 0 <= i < |a| ==> a[i] == b[i]
  {
  }

  lemma ReplacedText(text: seq<Byte>, from: seq<Byte>, to: seq<Byte>)
    requires Headed(from) && Headed(to) && from[0] == to[0]
    ensures NeitherPrefix(from, to) ==> !Contains(Replace(text, from, to), from)
    ensures !Contains(text, to) ==> Replace(Replace(text, from, to), to, from) == text
    ensures |Replace(text, from, to)| == |text| + Times(Occurrences(text, from), |to| - |from|)
  {
    if NeitherPrefix(from, to) { ReplaceComplete(text, from, to); }
    if !Contains(text, to) { ReplaceInverse(text, from, to); }
    ReplaceLength(text, from, to);
  }

  /** A rewritten body contains no origin base when neither base is a prefix of the other. If its
      text was free of the proxy base, replacing back gives the text, and the origin's own octets if
      and only if they are UTF-8. The length differs by the number of origin bases times the
      difference of the bases. */
  lemma RewrittenBody(m: Message, from: seq<Byte>, to: seq<Byte>)
    requires IsRewritten(m.head, m.framing)
    requires Headed(from) && Headed(to) && from[0] == to[0]
    ensures NeitherPrefix(from, to) ==> !Contains(Transform(m, from, to).body, from)
    ensures !Contains(Lossy(m.body), to) ==> Replace(Transform(m, from, to).body, to, from) == Lossy(m.body)
    ensures !Contains(Lossy(m.body), to) ==>
              (Replace(Transform(m, from, to).body, to, from) == m.body <==> Valid(m.body))
    ensures |Transform(m, from, to).body| == |Lossy(m.body)| + Times(Occurrences(Lossy(m.body), from), |to| - |from|)
  {
    ReplacedText(Lossy(m.body), from, to);
    LossyIdentityIff(m.body);
  }
}

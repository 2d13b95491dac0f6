/** One proxied connection, origin to client, as a function of what the origin sends. */
module Connection {
  import opened Bytes
  import opened Utf8
  import opened Rewriting
  import opened Headers
  import opened Chunks

  const MAX_REWRITABLE_BODY_SIZE: nat := 10 * 1024 * 1024

  /** A length or chunked; with neither the body extends to the end of the connection. */
  predicate IsDelimited(f: Framing) { f.chunked || f.contentLength.Some? }

  predicate TooLarge(f: Framing) { f.contentLength.Some? && f.contentLength.value > MAX_REWRITABLE_BODY_SIZE }

  /** The response takes the rewrite route. */
  predicate IsRewritten(raw: seq<Byte>, f: Framing)
  {
    IsDelimited(f) && ShouldRewrite(Lossy(raw)) && !TooLarge(f)
  }

  /** The substitution applied to a buffered body. */
  function Rewrite(body: seq<Byte>, origin: seq<Byte>, proxy: seq<Byte>): seq<Byte>
    requires origin != []
  {
    Replace(Lossy(body), origin, proxy)
  }

  /** The header block sent in front of a rewritten body. */
  function RewrittenHead(raw: seq<Byte>, f: Framing, oldLength: nat, newLength: nat): seq<Byte>
  {
    if f.contentLength.Some? && newLength != oldLength then Updated(Lossy(raw), newLength) else Lossy(raw)
  }

  // ----- One response -----

  /** What one pass of the connection loop does: the input ends before a blank line (the header
      bytes read so far are dropped); a body is streamed to the end; a response is relayed and
      the loop goes on; or the loop ends with a fault after sending `sent`. */
  datatype Reply =
    | Closed(dropped: seq<Byte>)
    | Streamed(sent: seq<Byte>)
    | Relayed(sent: seq<Byte>, rest: seq<Byte>)
    | Failed(sent: seq<Byte>, fault: Fault)

  function FixedBody(s: seq<Byte>, len: nat): Result<Buffered>
  {
    if |s| < len then Err(UnexpectedEof) else Ok(Buffered(s[..len], s[len..]))
  }

  /** The body buffered on the rewrite route. */
  function BufferBody(f: Framing, s: seq<Byte>): Result<Buffered>
    requires IsDelimited(f)
  {
    if f.chunked then ReadChunked(s, [], MAX_REWRITABLE_BODY_SIZE) else FixedBody(s, f.contentLength.value)
  }

  function RewriteReply(raw: seq<Byte>, f: Framing, s: seq<Byte>, origin: seq<Byte>, proxy: seq<Byte>): Reply
    requires IsDelimited(f) && origin != []
  {
    match BufferBody(f, s)
    case Err(fault) => Failed([], fault)
    case Ok(b) =>
      var body := Rewrite(b.body, origin, proxy);
      Relayed(RewrittenHead(raw, f, |b.body|, |body|) + (if f.chunked then EncodeChunked(body) else body), b.rest)
  }

  /** On the fixed-length route a short body is forwarded as far as it goes, without a fault. */
  function PassReply(raw: seq<Byte>, f: Framing, s: seq<Byte>): Reply
    requires IsDelimited(f)
  {
    if f.chunked then
      match PassChunked(s)
      case Passed(sent, rest) => Relayed(raw + sent, rest)
      case Broken(sent, fault) => Failed(raw + sent, fault)
    else
      var n := if |s| < f.contentLength.value then |s| else f.contentLength.value;
      Relayed(raw + s[..n], s[n..])
  }

  function Respond(s: seq<Byte>, origin: seq<Byte>, proxy: seq<Byte>): Reply
    requires origin != []
  {
    match ReadHead(s, NO_FRAMING)
    case Incomplete => Closed(s)
    case Complete(raw, f, rest) =>
      if !IsDelimited(f) then Streamed(raw + rest)
      else if IsRewritten(raw, f) then RewriteReply(raw, f, rest, origin, proxy)
      else PassReply(raw, f, rest)
  }

  lemma {:induction false} ReadChunkedShrinks(s: seq<Byte>, body: seq<Byte>, maxSize: nat)
    requires ReadChunked(s, body, maxSize).Ok?
    ensures |ReadChunked(s, body, maxSize).value.rest| <= |s|
    decreases |s|
  {
    if s != [] {
      var after, size := AfterLine(s), ParseChunkSize(FirstLine(s)).value;
      if size > 0 {
        ReadChunkedShrinks(after[size + 2..], body + after[..size], maxSize);
      }
    }
  }

  /** A pass of the loop that goes on has consumed input. */
  lemma RespondConsumes(s: seq<Byte>, origin: seq<Byte>, proxy: seq<Byte>)
    requires origin != [] && Respond(s, origin, proxy).Relayed?
    ensures |Respond(s, origin, proxy).rest| < |s|
  {
    var h := ReadHead(s, NO_FRAMING);
    if h.framing.chunked {
      if IsRewritten(h.raw, h.framing) {
        ReadChunkedShrinks(h.rest, [], MAX_REWRITABLE_BODY_SIZE);
      } else {
        PassTransparent(h.rest);
      }
    }
  }

  // ----- The whole connection -----

  /** All bytes sent to the client, the header bytes dropped at the end of input, and how the
      loop returned (`None` is `Ok(())`). */
  datatype Served = Served(sent: seq<Byte>, dropped: seq<Byte>, fault: Option<Fault>)

  function Serve(s: seq<Byte>, origin: seq<Byte>, proxy: seq<Byte>): Served
    requires origin != []
    decreases |s|
  {
    match Respond(s, origin, proxy)
    case Closed(dropped) => Served([], dropped, None)
    case Streamed(sent) => Served(sent, [], None)
    case Failed(sent, fault) => Served(sent, [], Some(fault))
    case Relayed(sent, rest) =>
      RespondConsumes(s, origin, proxy);
      var more := Serve(rest, origin, proxy);
      more.(sent := sent + more.sent)
  }

  /** Where the loop stands after `n` relayed responses: what it has sent and what is unread. */
  datatype Stage = Stage(sent: seq<Byte>, unread: seq<Byte>)

  /** `None` when the loop returns before relaying `n` responses. */
  function After(s: seq<Byte>, n: nat, origin: seq<Byte>, proxy: seq<Byte>): Option<Stage>
    requires origin != []
    decreases n
  {
    if n == 0 then Some(Stage([], s))
    else match Respond(s, origin, proxy)
      case Relayed(sent, rest) =>
        var more := After(rest, n - 1, origin, proxy);
        if more.None? then None else Some(Stage(sent + more.value.sent, more.value.unread))
      case _ => None
  }

  lemma NothingServed(origin: seq<Byte>, proxy: seq<Byte>)
    requires origin != []
    ensures Serve([], origin, proxy) == Served([], [], None)
  {
  }

  lemma ServeRelayed(s: seq<Byte>, origin: seq<Byte>, proxy: seq<Byte>)
    requires origin != [] && Respond(s, origin, proxy).Relayed?
    ensures var r := Respond(s, origin, proxy); var more := Serve(r.rest, origin, proxy);
            Serve(s, origin, proxy) == more.(sent := r.sent + more.sent)
  {
  }

  /** Serving is compositional: the output is what was sent so far, then the output for the rest. */
  lemma {:induction false} ServeFrom(s: seq<Byte>, n: nat, origin: seq<Byte>, proxy: seq<Byte>)
    requires origin != [] && After(s, n, origin, proxy).Some?
    ensures var stage := After(s, n, origin, proxy).value; var more := Serve(stage.unread, origin, proxy);
            Serve(s, origin, proxy) == more.(sent := stage.sent + more.sent)
    decreases n
  {
    hide Respond;
    if n == 0 {
      NothingBefore(Serve(s, origin, proxy).sent);
    } else {
      var r := Respond(s, origin, proxy);
      var stage := After(r.rest, n - 1, origin, proxy).value;
      ServeRelayed(s, origin, proxy);
      ServeFrom(r.rest, n - 1, origin, proxy);
      ConcatAssoc(r.sent, stage.sent, Serve(stage.unread, origin, proxy).sent);
    }
  }

  // ----- All or nothing on the rewrite route -----

  /** Whatever precedes it, a response on the rewrite route whose body cannot be buffered (short,
      malformed or over the limit) ends the connection with nothing of it sent: the client's
      stream is exactly the output of the earlier responses. */
  lemma AllOrNothing(s: seq<Byte>, n: nat, origin: seq<Byte>, proxy: seq<Byte>)
    requires origin != [] && After(s, n, origin, proxy).Some?
    requires var h := ReadHead(After(s, n, origin, proxy).value.unread, NO_FRAMING);
             h.Complete? && IsRewritten(h.raw, h.framing) && BufferBody(h.framing, h.rest).Err?
    ensures var h := ReadHead(After(s, n, origin, proxy).value.unread, NO_FRAMING);
            Serve(s, origin, proxy) ==
            Served(After(s, n, origin, proxy).value.sent, [], Some(BufferBody(h.framing, h.rest).fault))
  {
    var stage := After(s, n, origin, proxy).value;
    ServeFrom(s, n, origin, proxy);
    UnbufferedSendsNothing(stage.unread, origin, proxy);
    AppendNothing(stage.sent);
  }

  lemma UnbufferedSendsNothing(s: seq<Byte>, origin: seq<Byte>, proxy: seq<Byte>)
    requires origin != []
    requires var h := ReadHead(s, NO_FRAMING);
             h.Complete? && IsRewritten(h.raw, h.framing) && BufferBody(h.framing, h.rest).Err?
    ensures var h := ReadHead(s, NO_FRAMING);
            Serve(s, origin, proxy) == Served([], [], Some(BufferBody(h.framing, h.rest).fault))
  {
  }

  // ----- Bounded buffering -----

  /** The most held while the body in front of `s` is buffered: a fixed-length body in one vector
      of its announced length. */
  function BodyPeak(f: Framing, s: seq<Byte>): Held
    requires IsDelimited(f)
  {
    if f.chunked then PeakHeld(s, 0, MAX_REWRITABLE_BODY_SIZE) else Held(f.contentLength.value, f.contentLength.value)
  }

  /** On both framing paths and on every input, malformed or cut short: within the limit, copies
      counted once, and a buffered body is all that was held. */
  lemma BufferWithinLimit(raw: seq<Byte>, f: Framing, s: seq<Byte>)
    requires IsRewritten(raw, f)
    ensures WithinHeld(BodyPeak(f, s), Held(2 * MAX_REWRITABLE_BODY_SIZE, MAX_REWRITABLE_BODY_SIZE))
    ensures BufferBody(f, s).Ok? ==> BodyPeak(f, s).octets == |BufferBody(f, s).value.body|
  {
    BufferBounded(s, MAX_REWRITABLE_BODY_SIZE);
  }

  /** The most held for the response in front of `s`; bodies passed through are not buffered. */
  function ReplyPeak(s: seq<Byte>): Held
  {
    match ReadHead(s, NO_FRAMING)
    case Incomplete => NOTHING
    case Complete(raw, f, rest) => if IsRewritten(raw, f) then BodyPeak(f, rest) else NOTHING
  }

  /** The most held at any moment of the connection. */
  function ServePeak(s: seq<Byte>, origin: seq<Byte>, proxy: seq<Byte>): Held
    requires origin != []
    decreases |s|
  {
    match Respond(s, origin, proxy)
    case Relayed(_, rest) =>
      RespondConsumes(s, origin, proxy);
      MaxHeld(ReplyPeak(s), ServePeak(rest, origin, proxy))
    case _ => ReplyPeak(s)
  }

  /** Whatever the origin sends, however many responses and however the connection ends: never
      more than the limit of body octets, and never more than twice the limit with the copies. */
  lemma {:induction false} ServeWithinLimit(s: seq<Byte>, origin: seq<Byte>, proxy: seq<Byte>)
    requires origin != []
    ensures WithinHeld(ServePeak(s, origin, proxy), Held(2 * MAX_REWRITABLE_BODY_SIZE, MAX_REWRITABLE_BODY_SIZE))
    decreases |s|
  {
    hide IsRewritten, BodyPeak, Respond;
    var h, r := ReadHead(s, NO_FRAMING), Respond(s, origin, proxy);
    if h.Complete? && IsRewritten(h.raw, h.framing) {
      BufferWithinLimit(h.raw, h.framing, h.rest);
    }
    if r.Relayed? {
      RespondConsumes(s, origin, proxy);
      ServeWithinLimit(r.rest, origin, proxy);
    }
  }

  // ----- Byte transparency -----

  lemma PassReplyTransparent(raw: seq<Byte>, f: Framing, s: seq<Byte>)
    requires IsDelimited(f)
    ensures match PassReply(raw, f, s)
            case Relayed(sent, rest) => sent + rest == raw + s
            case Failed(sent, _) => sent <= raw + s
            case _ => true
  {
    hide PassChunked;
    if f.chunked {
      PassTransparent(s);
      match PassChunked(s)
      case Passed(sent, rest) => ConcatAssoc(raw, sent, rest);
      case Broken(sent, _) => assert s == sent + s[|sent|..]; ConcatAssoc(raw, sent, s[|sent|..]);
    } else {
      var n := if |s| < f.contentLength.value then |s| else f.contentLength.value;
      assert s == s[..n] + s[n..];
      ConcatAssoc(raw, s[..n], s[n..]);
    }
  }

  /** The input ends inside a header block: followed response by response, bodies by their length
      or their chunks, the last block begun has no blank line. */
  predicate CutInHeader(s: seq<Byte>)
    decreases |s|
  {
    match ReadHead(s, NO_FRAMING)
    case Incomplete => s != []
    case Complete(_, f, rest) =>
      if f.chunked then
        PassTransparent(rest);
        match PassChunked(rest)
        case Passed(_, next) => CutInHeader(next)
        case Broken(_, _) => false
      else if f.contentLength.Some? then
        CutInHeader(rest[if |rest| < f.contentLength.value then |rest| else f.contentLength.value..])
      else false
  }

  /** A pass that relays a response, rewritten or not, ends where its body ends. */
  lemma CutRelayed(s: seq<Byte>, origin: seq<Byte>, proxy: seq<Byte>)
    requires origin != [] && Respond(s, origin, proxy).Relayed?
    ensures CutInHeader(s) <==> CutInHeader(Respond(s, origin, proxy).rest)
  {
    hide IsRewritten, PassChunked, ReadChunked;
    var h := ReadHead(s, NO_FRAMING);
    if h.framing.chunked {
      WalkersAgree(h.rest, [], MAX_REWRITABLE_BODY_SIZE);
    }
  }

  /** Whatever is rewritten on the way: a normal return has dropped received bytes if and only if
      the input ends inside a header block, and they are that block. */
  lemma {:induction false} DroppedIff(s: seq<Byte>, origin: seq<Byte>, proxy: seq<Byte>)
    requires origin != [] && Serve(s, origin, proxy).fault.None?
    ensures Serve(s, origin, proxy).dropped != [] <==> CutInHeader(s)
    decreases |s|
  {
    hide IsRewritten;
    var r := Respond(s, origin, proxy);
    if r.Relayed? {
      RespondConsumes(s, origin, proxy);
      ServeRelayed(s, origin, proxy);
      CutRelayed(s, origin, proxy);
      DroppedIff(r.rest, origin, proxy);
    }
  }

  lemma TransparentStep(sent: seq<Byte>, rest: seq<Byte>, more: Served)
    ensures more.sent + more.dropped == rest ==> (sent + more.sent) + more.dropped == sent + rest
    ensures more.sent <= rest ==> sent + more.sent <= sent + rest
  {
    if more.sent + more.dropped == rest { ConcatAssoc(sent, more.sent, more.dropped); }
    if more.sent <= rest {
      assert rest == more.sent + rest[|more.sent|..];
      ConcatAssoc(sent, more.sent, rest[|more.sent|..]);
    }
  }

  /** What is dropped at the end contains no complete header block. */
  lemma {:induction false} DroppedIsHeader(s: seq<Byte>, origin: seq<Byte>, proxy: seq<Byte>)
    requires origin != []
    ensures ReadHead(Serve(s, origin, proxy).dropped, NO_FRAMING).Incomplete?
    decreases |s|
  {
    hide IsRewritten;
    var r := Respond(s, origin, proxy);
    if r.Relayed? {
      RespondConsumes(s, origin, proxy);
      DroppedIsHeader(r.rest, origin, proxy);
    }
  }
}

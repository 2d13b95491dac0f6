/** Where the responses of a connection begin, by its input alone, and what that says of a whole run:
    how it ends, whether it panics, and whether all it buffers stays within the limit. */
module Runs {
  import opened Bytes
  import opened Numbers
  import opened Headers
  import opened Chunks
  import opened Walks
  import opened Connection

  /** What is unread after the response in front, if the loop goes on after it: its body has arrived
      as announced, and fits the limit where it is buffered; a body of known length that is passed
      through may be short. */
  function Next(s: seq<Byte>): (r: Option<seq<Byte>>)
    ensures r.Some? ==> |r.value| < |s|
  {
    match ReadHead(s, NO_FRAMING)
    case Incomplete => None
    case Complete(raw, f, rest) =>
      if f.chunked then
        PassTransparent(rest);
        match PassChunked(rest)
        case Passed(_, next) =>
          if IsRewritten(raw, f) && Announced(rest) > MAX_REWRITABLE_BODY_SIZE then None else Some(next)
        case Broken(_, _) => None
      else if f.contentLength.None? then None
      else if f.contentLength.value <= |rest| then Some(rest[f.contentLength.value..])
      else if IsRewritten(raw, f) then None
      else Some([])
  }

  /** The loop goes on exactly there, whatever the addresses. */
  lemma NextIff(s: seq<Byte>, origin: seq<Byte>, proxy: seq<Byte>)
    requires origin != []
    ensures Respond(s, origin, proxy).Relayed? <==> Next(s).Some?
    ensures Next(s).Some? ==> Respond(s, origin, proxy).rest == Next(s).value
  {
    hide ReadHead, PassChunked, ReadChunked, Announced;
    var h := ReadHead(s, NO_FRAMING);
    if h.Complete? && h.framing.chunked {
      WalkersAgree(h.rest, [], MAX_REWRITABLE_BODY_SIZE);
    }
  }

  /** The unread input at the beginning of each pass of the loop. */
  function Fronts(s: seq<Byte>): (r: seq<seq<Byte>>)
    ensures r != [] && r[0] == s
    decreases |s|
  {
    if Next(s).None? then [s] else [s] + Fronts(Next(s).value)
  }

  lemma FrontsNext(s: seq<Byte>)
    ensures Next(s).None? ==> Fronts(s) == [s]
    ensures Next(s).Some? ==> Fronts(s) == [s] + Fronts(Next(s).value)
  {
  }

  // ----- How a run ends -----

  /** The loop returns without a fault from a front that ends the input inside a header block, or
      that has no framing. */
  predicate EndsWell(s: seq<Byte>)
  {
    var h := ReadHead(s, NO_FRAMING);
    h.Incomplete? || !IsDelimited(h.framing)
  }

  lemma {:induction false} ReturnsIff(s: seq<Byte>, origin: seq<Byte>, proxy: seq<Byte>)
    requires origin != []
    ensures Serve(s, origin, proxy).fault.None? <==> EndsWell(Fronts(s)[|Fronts(s)| - 1])
    decreases |s|
  {
    hide Fronts, Next;
    NextIff(s, origin, proxy);
    FrontsNext(s);
    if Next(s).Some? {
      ReturnsIff(Next(s).value, origin, proxy);
      hide Respond;
    }
  }

  // ----- Whether it panics -----

  /** A chunked body to be buffered announces, after chunks that fit the limit, one whose size adds up
      with theirs to more than a `usize`. */
  predicate PanicsAt(s: seq<Byte>)
  {
    var h := ReadHead(s, NO_FRAMING);
    && h.Complete? && IsRewritten(h.raw, h.framing) && h.framing.chunked
    && Overflows(WalkOf(h.rest).steps, 0, MAX_REWRITABLE_BODY_SIZE)
  }

  lemma {:induction false} ForwardingNeverPanics(s: seq<Byte>)
    ensures PassChunked(s).Broken? ==> PassChunked(s).fault != Panicked
    decreases |s|
  {
    hide ParseChunkSize, LineEnd;
    if GoesOn(s) {
      var size := ParseChunkSize(FirstLine(s)).value;
      PassOneChunk(s, size);
      hide PassChunked;
      ForwardingNeverPanics(AfterLine(s)[size + 2..]);
    }
  }

  lemma PanicsAtIff(s: seq<Byte>, origin: seq<Byte>, proxy: seq<Byte>)
    requires origin != []
    ensures PanicsAt(s) <==> Respond(s, origin, proxy).Failed? && Respond(s, origin, proxy).fault == Panicked
  {
    hide ReadHead, PassChunked, ReadChunked, Overflows;
    var h := ReadHead(s, NO_FRAMING);
    if h.Complete? && h.framing.chunked {
      PanicIff(h.rest, [], MAX_REWRITABLE_BODY_SIZE);
      ForwardingNeverPanics(h.rest);
    }
  }

  lemma OnlyFront<T>(s: T, p: T -> bool)
    ensures (exists i :: 0 <= i < |[s]| && p([s][i])) <==> p(s)
    ensures (forall i :: 0 <= i < |[s]| ==> p([s][i])) <==> p(s)
  {
    assert [s][0] == s;
  }

  lemma FirstFront<T>(s: T, more: seq<T>, p: T -> bool)
    ensures (exists i :: 0 <= i < |[s] + more| && p(([s] + more)[i])) <==>
            p(s) || exists i :: 0 <= i < |more| && p(more[i])
    ensures (forall i :: 0 <= i < |[s] + more| ==> p(([s] + more)[i])) <==>
            p(s) && forall i :: 0 <= i < |more| ==> p(more[i])
  {
    var all := [s] + more;
    assert all[0] == s;
    assert forall i :: 0 <= i < |more| ==> all[i + 1] == more[i];
    if i :| 0 <= i < |more| && p(more[i]) { assert p(all[i + 1]); }
    if i :| 0 <= i < |more| && !p(more[i]) { assert !p(all[i + 1]); }
    if i :| 0 <= i < |all| && p(all[i]) && !p(s) { assert p(more[i - 1]); }
    if i :| 0 <= i < |all| && !p(all[i]) && p(s) { assert !p(more[i - 1]); }
  }

  predicate SomePanics(fronts: seq<seq<Byte>>)
  {
    exists i :: 0 <= i < |fronts| && PanicsAt(fronts[i])
  }

  /** A connection panics exactly when one of its responses makes the decoder do so. */
  lemma {:induction false} ServePanicIff(s: seq<Byte>, origin: seq<Byte>, proxy: seq<Byte>)
    requires origin != []
    ensures Serve(s, origin, proxy).fault == Some(Panicked) <==> SomePanics(Fronts(s))
    decreases |s|
  {
    hide Fronts, Next, PanicsAt;
    NextIff(s, origin, proxy);
    FrontsNext(s);
    PanicsAtIff(s, origin, proxy);
    if Next(s).Some? {
      ServePanicIff(Next(s).value, origin, proxy);
      FirstFront(s, Fronts(Next(s).value), PanicsAt);
      hide Respond;
    } else {
      OnlyFront(s, PanicsAt);
    }
  }

  /** So never, if no announced size exceeds what a `usize` has left above the limit. */
  lemma ServeNeverPanics(s: seq<Byte>, origin: seq<Byte>, proxy: seq<Byte>)
    requires origin != []
    requires forall i :: 0 <= i < |Fronts(s)| ==> SizesBelow(Fronts(s)[i], USIZE_MAX - MAX_REWRITABLE_BODY_SIZE)
    ensures Serve(s, origin, proxy).fault != Some(Panicked)
  {
    hide Serve, Fronts, WalkOf, IsRewritten, ReadHead;
    ServePanicIff(s, origin, proxy);
  }

  /** No chunk announced in the response in front is larger than `bound`. */
  predicate SizesBelow(s: seq<Byte>, bound: nat)
  {
    var h := ReadHead(s, NO_FRAMING);
    h.Complete? ==> forall i :: 0 <= i < |WalkOf(h.rest).steps| ==> WalkOf(h.rest).steps[i].size <= bound
  }

  // ----- Whether all that is held stays within the limit -----

  /** If the response in front is chunked and to be buffered, each of its chunks that is read fits
      twice on top of those before it. */
  predicate LimitHoldsAt(s: seq<Byte>)
  {
    var h := ReadHead(s, NO_FRAMING);
    h.Complete? && IsRewritten(h.raw, h.framing) && h.framing.chunked ==>
      KeepsLimit(WalkOf(h.rest).steps, 0, MAX_REWRITABLE_BODY_SIZE)
  }

  lemma LimitHoldsAtIff(s: seq<Byte>)
    ensures ReplyPeak(s).copies <= MAX_REWRITABLE_BODY_SIZE <==> LimitHoldsAt(s)
  {
    hide ReadHead, PeakHeld, KeepsLimit;
    var h := ReadHead(s, NO_FRAMING);
    if h.Complete? {
      PeakIff(h.rest, 0, MAX_REWRITABLE_BODY_SIZE);
    }
  }

  predicate AllHold(fronts: seq<seq<Byte>>)
  {
    forall i :: 0 <= i < |fronts| ==> LimitHoldsAt(fronts[i])
  }

  /** A connection holds no more than the limit at any moment, copies included, exactly when that is
      so for each of its responses. */
  lemma {:induction false} ServeLimitIff(s: seq<Byte>, origin: seq<Byte>, proxy: seq<Byte>)
    requires origin != []
    ensures ServePeak(s, origin, proxy).copies <= MAX_REWRITABLE_BODY_SIZE <==> AllHold(Fronts(s))
    decreases |s|
  {
    hide Fronts, Next, LimitHoldsAt, ReplyPeak;
    NextIff(s, origin, proxy);
    FrontsNext(s);
    LimitHoldsAtIff(s);
    if Next(s).Some? {
      ServeLimitIff(Next(s).value, origin, proxy);
      FirstFront(s, Fronts(Next(s).value), LimitHoldsAt);
    } else {
      OnlyFront(s, LimitHoldsAt);
    }
    hide Respond;
  }

  // ----- Byte transparency -----

  /** The response in front is to be rewritten. */
  predicate RewrittenAt(s: seq<Byte>)
  {
    var h := ReadHead(s, NO_FRAMING);
    h.Complete? && IsRewritten(h.raw, h.framing)
  }

  /** No response of the input takes the rewrite route. */
  predicate NeverRewritten(s: seq<Byte>)
  {
    forall i :: 0 <= i < |Fronts(s)| ==> !RewrittenAt(Fronts(s)[i])
  }

  lemma NeverRewrittenNext(s: seq<Byte>)
    requires NeverRewritten(s)
    ensures !RewrittenAt(s) && (Next(s).Some? ==> NeverRewritten(Next(s).value))
  {
    hide RewrittenAt, Next;
    FrontsNext(s);
    if Next(s).Some? {
      FirstFront(s, Fronts(Next(s).value), x => !RewrittenAt(x));
    }
  }

  /** Without rewriting, what is sent is a prefix of the input; and after a normal return it is every
      byte received, if and only if the input does not end inside a header block. */
  lemma ByteTransparency(s: seq<Byte>, origin: seq<Byte>, proxy: seq<Byte>)
    requires origin != [] && NeverRewritten(s)
    ensures var served := Serve(s, origin, proxy);
            && served.sent <= s
            && (served.fault.None? ==> (served.sent == s <==> !CutInHeader(s)))
  {
    var served := Serve(s, origin, proxy);
    SentThenDropped(s, origin, proxy);
    if served.fault.None? {
      DroppedIff(s, origin, proxy);
      AppendNothing(served.sent);
    }
  }

  lemma {:induction false} SentThenDropped(s: seq<Byte>, origin: seq<Byte>, proxy: seq<Byte>)
    requires origin != [] && NeverRewritten(s)
    ensures var served := Serve(s, origin, proxy);
            && (served.fault.None? ==> served.sent + served.dropped == s)
            && (served.fault.Some? ==> served.sent <= s)
    decreases |s|
  {
    hide NeverRewritten, IsRewritten, Next;
    var h := ReadHead(s, NO_FRAMING);
    NeverRewrittenNext(s);
    if h.Incomplete? {
      NothingBefore(s);
    } else if !IsDelimited(h.framing) {
      AppendNothing(s);
    } else {
      PassReplyTransparent(h.raw, h.framing, h.rest);
      var r := Respond(s, origin, proxy);
      if r.Relayed? {
        RespondConsumes(s, origin, proxy);
        NextIff(s, origin, proxy);
        SentThenDropped(r.rest, origin, proxy);
        TransparentStep(r.sent, r.rest, Serve(r.rest, origin, proxy));
      }
    }
  }

  /** A stream cut inside its header block: a normal return with nothing sent. */
  lemma CutHeader(line: seq<Byte>, origin: seq<Byte>, proxy: seq<Byte>)
    requires origin != [] && IsLine(line) && !IsBlank(line)
    ensures NeverRewritten(line) && CutInHeader(line)
    ensures Serve(line, origin, proxy) == Served([], line, None)
  {
    ReadHeadCons(line, [], NO_FRAMING);
    AppendNothing(line);
    FrontsNext(line);
  }

  lemma CutHeaderWitness(origin: seq<Byte>, proxy: seq<Byte>)
    requires origin != []
    ensures exists s :: NeverRewritten(s) && CutInHeader(s)
                        && Serve(s, origin, proxy).fault.None? && Serve(s, origin, proxy).sent != s
  {
    var s: seq<Byte> := "HTTP/1.1 200 OK\r\n";
    assert s[..|s| - 1] == "HTTP/1.1 200 OK\r";
    assert IsLine(s) && !IsBlank(s);
    CutHeader(s, origin, proxy);
  }
}

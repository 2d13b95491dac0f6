/** The chunks met along an input, whatever is wrong with it: when the walks over it succeed, when
    the decoder panics, and when what it holds stays within the limit. */
module Walks {
  import opened Bytes
  import opened Numbers
  import opened Chunks

  /** An announced data chunk: its size, whether its octets arrive, and whether CRLF follows them. */
  datatype Step = Step(size: nat, arrives: bool, closed: bool)

  /** Where a walk ends: where the input does, at a zero chunk (`clean` if its size line is complete and
      a blank line follows), at a malformed size line, or at a chunk that is cut short. */
  datatype End = AtInputEnd | AtZero(clean: bool) | AtMalformed | AtCut

  datatype Walk = Walk(steps: seq<Step>, end: End)

  /** A chunk that is not cut short, with what follows its size line. */
  function Arrived(after: seq<Byte>, size: nat): Step
    requires size + 2 <= |after|
  {
    Step(size, true, after[size..size + 2] == CRLF)
  }

  function WalkOf(s: seq<Byte>): Walk
    decreases |s|
  {
    var line, after := FirstLine(s), AfterLine(s);
    if line == [] then Walk([], AtInputEnd)
    else match ParseChunkSize(line)
      case None => Walk([], AtMalformed)
      case Some(size) =>
        if size == 0 then Walk([], AtZero(IsLine(line) && IsBlank(FirstLine(after))))
        else if |after| < size + 2 then Walk([Step(size, size <= |after|, false)], AtCut)
        else
          var more := WalkOf(after[size + 2..]);
          Walk([Arrived(after, size)] + more.steps, more.end)
  }

  /** A walk that goes no further than the chunk announced in front, if any. */
  lemma WalkEnds(s: seq<Byte>)
    ensures var after, size := AfterLine(s), ParseChunkSize(FirstLine(s));
            && (s == [] ==> WalkOf(s) == Walk([], AtInputEnd))
            && (s != [] && size.None? ==> WalkOf(s) == Walk([], AtMalformed))
            && (s != [] && size == Some(0) ==>
                  WalkOf(s) == Walk([], AtZero(IsLine(FirstLine(s)) && IsBlank(FirstLine(after)))))
            && (s != [] && size.Some? && 0 < size.value && |after| < size.value + 2 ==>
                  WalkOf(s) == Walk([Step(size.value, size.value <= |after|, false)], AtCut))
  {
    hide ParseChunkSize, LineEnd;
  }

  lemma WalkOneChunk(s: seq<Byte>, size: nat)
    requires s != [] && ParseChunkSize(FirstLine(s)) == Some(size) && 0 < size <= |AfterLine(s)| - 2
    ensures var after := AfterLine(s); var more := WalkOf(after[size + 2..]);
            WalkOf(s) == Walk([Arrived(after, size)] + more.steps, more.end)
  {
    hide ParseChunkSize, LineEnd;
  }

  /** The walk goes on after the chunk announced in front. */
  predicate GoesOn(s: seq<Byte>)
  {
    var size := ParseChunkSize(FirstLine(s));
    s != [] && size.Some? && 0 < size.value <= |AfterLine(s)| - 2
  }

  // ----- When the walks succeed -----

  function Total(steps: seq<Step>): nat { if steps == [] then 0 else steps[0].size + Total(steps[1..]) }

  predicate AllClosed(steps: seq<Step>) { forall i :: 0 <= i < |steps| ==> steps[i].closed }

  /** The body is complete: every chunk is closed, and the zero chunk and a blank line follow. */
  predicate IsComplete(w: Walk) { w.end == AtZero(true) && AllClosed(w.steps) }

  lemma TotalCons(step: Step, more: seq<Step>)
    ensures Total([step] + more) == step.size + Total(more)
    ensures AllClosed([step] + more) <==> step.closed && AllClosed(more)
  {
    var steps := [step] + more;
    assert steps[0] == step && steps[1..] == more;
    if AllClosed(steps) {
      forall i | 0 <= i < |more| ensures more[i].closed { assert steps[i + 1].closed; }
    }
  }

  /** The fault of a walk that ends there. */
  function EndFault(end: End): Option<Fault>
  {
    match end
    case AtMalformed => Some(InvalidData)
    case AtCut => Some(UnexpectedEof)
    case _ => None
  }

  function PassFault(p: Passage): Option<Fault> { if p.Broken? then Some(p.fault) else None }

  /** Forwarding fails exactly where the walk meets a malformed size, or a chunk that is cut short. */
  lemma {:induction false} PassedIff(s: seq<Byte>)
    ensures PassFault(PassChunked(s)) == EndFault(WalkOf(s).end)
    ensures Announced(s) == Total(WalkOf(s).steps)
    decreases |s|
  {
    hide ParseChunkSize, LineEnd, WalkOf, PassChunked, Announced, Total;
    if GoesOn(s) {
      var size := ParseChunkSize(FirstLine(s)).value;
      var next := AfterLine(s)[size + 2..];
      PassGoesOn(s, size);
      WalkOneChunk(s, size);
      PassedIff(next);
      TotalCons(Arrived(AfterLine(s), size), WalkOf(next).steps);
    } else {
      WalkEnds(s);
      PassEnds(s);
      TotalEnds(s);
    }
  }

  lemma PassGoesOn(s: seq<Byte>, size: nat)
    requires s != [] && ParseChunkSize(FirstLine(s)) == Some(size) && 0 < size <= |AfterLine(s)| - 2
    ensures var next := AfterLine(s)[size + 2..];
            PassFault(PassChunked(s)) == PassFault(PassChunked(next)) && Announced(s) == size + Announced(next)
  {
    hide ParseChunkSize, LineEnd, PassChunked, Announced;
    PassOneChunk(s, size);
    AnnouncedOneChunk(s, size);
  }

  lemma TotalEnds(s: seq<Byte>)
    requires !GoesOn(s)
    ensures var size := ParseChunkSize(FirstLine(s));
            Total(WalkOf(s).steps) == if s == [] || size.None? then 0 else size.value
  {
    hide ParseChunkSize, LineEnd, WalkOf;
    WalkEnds(s);
  }

  lemma PassEnds(s: seq<Byte>)
    requires !GoesOn(s)
    ensures var size := ParseChunkSize(FirstLine(s));
            && PassFault(PassChunked(s)) == (if s == [] || size == Some(0) then None
                                            else if size.None? then Some(InvalidData) else Some(UnexpectedEof))
            && Announced(s) == if s == [] || size.None? then 0 else size.value
  {
    hide ParseChunkSize, LineEnd;
  }

  /** Buffering fails for want of input exactly when the announced total fits and the last chunk is cut short. */
  lemma {:induction false} EofIff(s: seq<Byte>, body: seq<Byte>, maxSize: nat)
    requires |body| <= maxSize <= USIZE_MAX
    ensures ReadChunked(s, body, maxSize) == Err(UnexpectedEof) <==>
            |body| + Total(WalkOf(s).steps) <= maxSize && WalkOf(s).end == AtCut
    decreases |s|
  {
    hide ParseChunkSize, LineEnd, WalkOf, Total;
    if GoesOn(s) {
      var size := ParseChunkSize(FirstLine(s)).value;
      var after := AfterLine(s);
      WalkOneChunk(s, size);
      TotalCons(Arrived(after, size), WalkOf(after[size + 2..]).steps);
      if |body| + size <= maxSize {
        ReadOneChunk(s, size, body, maxSize);
        hide ReadChunked;
        EofIff(after[size + 2..], body + after[..size], maxSize);
      }
    } else {
      WalkEnds(s);
      TotalEnds(s);
    }
  }

  /** Why buffering fails, on every input: a panic on overflow; for want of input; and for malformed or
      oversize bodies otherwise. */
  lemma ReadFaults(s: seq<Byte>, maxSize: nat)
    requires maxSize <= USIZE_MAX
    ensures var w := WalkOf(s);
            ReadChunked(s, [], maxSize).Err? <==> Total(w.steps) > maxSize || w.end == AtMalformed || w.end == AtCut
    ensures ReadChunked(s, [], maxSize).Err? ==>
              var w := WalkOf(s);
              ReadChunked(s, [], maxSize).fault ==
              if Overflows(w.steps, 0, maxSize) then Panicked
              else if Total(w.steps) <= maxSize && w.end == AtCut then UnexpectedEof
              else InvalidData
  {
    hide ParseChunkSize, WalkOf, ReadChunked, PassChunked, Overflows, Total;
    WalkersAgree(s, [], maxSize);
    PassedIff(s);
    PanicIff(s, [], maxSize);
    EofIff(s, [], maxSize);
  }

  // ----- How much is forwarded when the walk fails -----

  /** Octets of the line ending of a chunk that is cut short: one, if only one has arrived. */
  function Dangling(s: seq<Byte>): (n: nat)
    ensures n <= 1
    decreases |s|
  {
    var after, size := AfterLine(s), ParseChunkSize(FirstLine(s));
    if GoesOn(s) then Dangling(after[size.value + 2..])
    else if s != [] && size.Some? && 0 < size.value && |after| == size.value + 1 then 1
    else 0
  }

  /** For want of input: all that has arrived has been forwarded, but for a single octet of the line
      ending of the last chunk. */
  lemma {:induction false} EofSent(s: seq<Byte>)
    requires WalkOf(s).end == AtCut
    ensures PassChunked(s) == Broken(s[..|s| - Dangling(s)], UnexpectedEof)
    decreases |s|
  {
    hide ParseChunkSize, LineEnd, PassChunked, WalkOf;
    var line, after, size := FirstLine(s), AfterLine(s), ParseChunkSize(FirstLine(s));
    if GoesOn(s) {
      var next := after[size.value + 2..];
      WalkOneChunk(s, size.value);
      PassOneChunk(s, size.value);
      EofSent(next);
      CutBefore(s, size.value + 2, Dangling(s));
    } else {
      WalkEnds(s);
      CutSent(s);
      CutBefore(s, if |after| < size.value then |after| else size.value, 0);
    }
  }

  lemma CutSent(s: seq<Byte>)
    requires s != [] && !GoesOn(s) && ParseChunkSize(FirstLine(s)).Some? && ParseChunkSize(FirstLine(s)) != Some(0)
    ensures var after, size := AfterLine(s), ParseChunkSize(FirstLine(s)).value;
            PassChunked(s) ==
            Broken(FirstLine(s) + after[..if |after| < size then |after| else size], UnexpectedEof)
  {
    hide ParseChunkSize, LineEnd;
  }

  lemma CutBefore(s: seq<Byte>, k: nat, d: nat)
    requires s != [] && k <= |AfterLine(s)| && d <= |AfterLine(s)| - k
    ensures |FirstLine(s)| + |AfterLine(s)| == |s|
    ensures FirstLine(s) + AfterLine(s)[..k] == s[..|FirstLine(s)| + k]
    ensures FirstLine(s) + AfterLine(s)[..k] + AfterLine(s)[k..][..|AfterLine(s)| - k - d] == s[..|s| - d]
  {
    var line, after := FirstLine(s), AfterLine(s);
    assert s == line + after;
    assert after[..k] + after[k..][..|after| - k - d] == after[..|after| - d];
  }

  /** At a malformed size: everything up to and with the malformed line. */
  lemma {:induction false} MalformedSent(s: seq<Byte>) returns (k: nat)
    requires WalkOf(s).end == AtMalformed
    ensures k < |s| && ParseChunkSize(FirstLine(s[k..])).None?
    ensures PassChunked(s) == Broken(s[..k + |FirstLine(s[k..])|], InvalidData)
    decreases |s|
  {
    hide ParseChunkSize, LineEnd, PassChunked, WalkOf;
    var line, after, size := FirstLine(s), AfterLine(s), ParseChunkSize(FirstLine(s));
    if GoesOn(s) {
      var next := after[size.value + 2..];
      WalkOneChunk(s, size.value);
      PassOneChunk(s, size.value);
      var j := MalformedSent(next);
      k := |line| + size.value + 2 + j;
      assert s == line + after;
      assert s[k..] == next[j..];
      assert line + after[..size.value + 2] + next[..j + |FirstLine(next[j..])|] == s[..k + |FirstLine(s[k..])|];
    } else {
      WalkEnds(s);
      MalformedFirst(s);
      k := 0;
      assert s[0..] == s;
    }
  }

  lemma MalformedFirst(s: seq<Byte>)
    requires s != [] && ParseChunkSize(FirstLine(s)).None?
    ensures PassChunked(s) == Broken(FirstLine(s), InvalidData) && FirstLine(s) == s[..|FirstLine(s)|]
  {
    hide ParseChunkSize, LineEnd;
  }

  /** The stricter decoder succeeds exactly on complete bodies. */
  lemma {:induction false} DechunkIff(s: seq<Byte>)
    ensures Dechunk(s).Some? <==> IsComplete(WalkOf(s))
    decreases |s|
  {
    hide ParseChunkSize, LineEnd, WalkOf;
    var after, size := AfterLine(s), ParseChunkSize(FirstLine(s));
    if GoesOn(s) {
      WalkOneChunk(s, size.value);
      LineBeforeRest(s);
      DechunkIff(after[size.value + 2..]);
      TotalCons(Arrived(after, size.value), WalkOf(after[size.value + 2..]).steps);
    } else {
      WalkEnds(s);
    }
  }

  lemma LineBeforeRest(s: seq<Byte>)
    requires AfterLine(s) != []
    ensures IsLine(FirstLine(s))
  {
    FirstLineIsLine(s);
  }

  // ----- When the decoder panics -----

  /** The bound check after the first `k` chunks adds beyond the range of a `usize`. */
  predicate OverflowsAt(steps: seq<Step>, k: nat, held: nat, maxSize: nat)
    requires k < |steps|
  {
    held + Total(steps[..k]) <= maxSize && held + Total(steps[..k]) + steps[k].size > USIZE_MAX
  }

  predicate Overflows(steps: seq<Step>, held: nat, maxSize: nat)
  {
    exists k :: 0 <= k < |steps| && OverflowsAt(steps, k, held, maxSize)
  }

  lemma TakeCons(step: Step, more: seq<Step>, k: nat)
    requires k <= |more|
    ensures Total(([step] + more)[..k + 1]) == step.size + Total(more[..k])
  {
    assert ([step] + more)[..k + 1] == [step] + more[..k];
    TotalCons(step, more[..k]);
  }

  lemma OverflowsCons(step: Step, more: seq<Step>, held: nat, maxSize: nat)
    requires held <= maxSize
    ensures Overflows([step] + more, held, maxSize) <==>
            held + step.size > USIZE_MAX || Overflows(more, held + step.size, maxSize)
  {
    var steps, sum := [step] + more, held + step.size;
    assert steps[..0] == [];
    assert OverflowsAt(steps, 0, held, maxSize) <==> held + step.size > USIZE_MAX;
    forall k | 0 <= k < |more|
      ensures OverflowsAt(steps, k + 1, held, maxSize) <==> OverflowsAt(more, k, sum, maxSize)
    {
      TakeCons(step, more, k);
    }
    if k :| 0 < k < |steps| && OverflowsAt(steps, k, held, maxSize) {
      assert OverflowsAt(more, k - 1, sum, maxSize);
    }
    if k :| 0 <= k < |more| && OverflowsAt(more, k, sum, maxSize) {
      assert OverflowsAt(steps, k + 1, held, maxSize);
    }
  }

  lemma NoneAboveLimit(steps: seq<Step>, held: nat, maxSize: nat)
    requires held > maxSize
    ensures !Overflows(steps, held, maxSize)
  {
  }

  /** On every input: the decoder panics exactly when some chunk, after chunks that fit, is of a size
      whose sum with theirs no `usize` can hold. */
  lemma {:induction false} PanicIff(s: seq<Byte>, body: seq<Byte>, maxSize: nat)
    requires |body| <= maxSize <= USIZE_MAX
    ensures ReadChunked(s, body, maxSize) == Err(Panicked) <==> Overflows(WalkOf(s).steps, |body|, maxSize)
    decreases |s|
  {
    hide ParseChunkSize, LineEnd, WalkOf, Overflows;
    var after, size := AfterLine(s), ParseChunkSize(FirstLine(s));
    if GoesOn(s) {
      var step, more := Arrived(after, size.value), WalkOf(after[size.value + 2..]).steps;
      WalkOneChunk(s, size.value);
      OverflowsCons(step, more, |body|, maxSize);
      if |body| + size.value <= maxSize {
        ReadOneChunk(s, size.value, body, maxSize);
        hide ReadChunked;
        PanicIff(after[size.value + 2..], body + after[..size.value], maxSize);
      } else {
        NoneAboveLimit(more, |body| + size.value, maxSize);
      }
    } else {
      PanicAtEnd(s, body, maxSize);
    }
  }

  lemma PanicAtEnd(s: seq<Byte>, body: seq<Byte>, maxSize: nat)
    requires |body| <= maxSize <= USIZE_MAX && !GoesOn(s)
    ensures ReadChunked(s, body, maxSize) == Err(Panicked) <==> Overflows(WalkOf(s).steps, |body|, maxSize)
  {
    hide ParseChunkSize, LineEnd, WalkOf, Overflows;
    WalkEnds(s);
    NoSteps(|body|, maxSize);
    if WalkOf(s).steps != [] {
      var step := WalkOf(s).steps[0];
      OverflowsCons(step, [], |body|, maxSize);
      NoSteps(|body| + step.size, maxSize);
      assert [step] + [] == [step];
    }
  }

  lemma NoSteps(held: nat, maxSize: nat)
    ensures !Overflows([], held, maxSize)
  {
  }

  /** No panic as long as every announced size fits a `usize` together with the limit. */
  lemma NeverPanics(s: seq<Byte>, maxSize: nat)
    requires maxSize <= USIZE_MAX
    requires forall i :: 0 <= i < |WalkOf(s).steps| ==> WalkOf(s).steps[i].size <= USIZE_MAX - maxSize
    ensures ReadChunked(s, [], maxSize) != Err(Panicked)
  {
    hide WalkOf, ReadChunked;
    PanicIff(s, [], maxSize);
  }

  // ----- When the limit holds for the copies too -----

  /** Each chunk that is read fits twice on top of what was there before it. */
  predicate KeepsLimit(steps: seq<Step>, held: nat, maxSize: nat)
  {
    forall k :: 0 <= k < |steps| ==> KeepsLimitAt(steps, k, held, maxSize)
  }

  predicate KeepsLimitAt(steps: seq<Step>, k: nat, held: nat, maxSize: nat)
    requires k < |steps|
  {
    var before := held + Total(steps[..k]);
    before + steps[k].size <= maxSize && steps[k].arrives ==> before + 2 * steps[k].size <= maxSize
  }

  lemma KeepsLimitCons(step: Step, more: seq<Step>, held: nat, maxSize: nat)
    ensures KeepsLimit([step] + more, held, maxSize) <==>
            && (held + step.size <= maxSize && step.arrives ==> held + 2 * step.size <= maxSize)
            && KeepsLimit(more, held + step.size, maxSize)
  {
    var steps, sum := [step] + more, held + step.size;
    assert steps[..0] == [];
    assert KeepsLimitAt(steps, 0, held, maxSize) <==>
           (held + step.size <= maxSize && step.arrives ==> held + 2 * step.size <= maxSize);
    forall k | 0 <= k < |more|
      ensures KeepsLimitAt(steps, k + 1, held, maxSize) <==> KeepsLimitAt(more, k, sum, maxSize)
    {
      TakeCons(step, more, k);
    }
    if KeepsLimit(steps, held, maxSize) {
      forall k | 0 <= k < |more| ensures KeepsLimitAt(more, k, sum, maxSize) {
        assert KeepsLimitAt(steps, k + 1, held, maxSize);
      }
    }
    if KeepsLimitAt(steps, 0, held, maxSize) && KeepsLimit(more, held + step.size, maxSize) {
      forall k | 0 <= k < |steps| ensures KeepsLimitAt(steps, k, held, maxSize) {
        if k > 0 { assert KeepsLimitAt(more, k - 1, sum, maxSize); }
      }
    }
  }

  lemma KeptAboveLimit(steps: seq<Step>, held: nat, maxSize: nat)
    requires held > maxSize
    ensures KeepsLimit(steps, held, maxSize)
  {
  }

  /** On every input, decodable or not: the vectors together stay within the limit exactly when each
      chunk that is read fits twice on top of what was there before it. */
  lemma {:induction false} PeakIff(s: seq<Byte>, held: nat, maxSize: nat)
    requires held <= maxSize
    ensures PeakHeld(s, held, maxSize).copies <= maxSize <==> KeepsLimit(WalkOf(s).steps, held, maxSize)
    decreases |s|
  {
    hide ParseChunkSize, LineEnd, WalkOf, KeepsLimit, PeakHeld;
    var after, size := AfterLine(s), ParseChunkSize(FirstLine(s));
    if GoesOn(s) {
      var step, more := Arrived(after, size.value), WalkOf(after[size.value + 2..]).steps;
      WalkOneChunk(s, size.value);
      KeepsLimitCons(step, more, held, maxSize);
      if held + size.value <= maxSize {
        PeakOfChunk(s, size.value, held, maxSize);
        PeakIff(after[size.value + 2..], held + size.value, maxSize);
      } else {
        PeakOfEnd(s, held, maxSize);
        KeptAboveLimit(more, held + size.value, maxSize);
      }
    } else {
      PeakAtEnd(s, held, maxSize);
    }
  }

  lemma PeakAtEnd(s: seq<Byte>, held: nat, maxSize: nat)
    requires held <= maxSize && !GoesOn(s)
    ensures PeakHeld(s, held, maxSize).copies <= maxSize <==> KeepsLimit(WalkOf(s).steps, held, maxSize)
  {
    hide ParseChunkSize, LineEnd, WalkOf, KeepsLimit, PeakHeld;
    var size := ParseChunkSize(FirstLine(s));
    WalkEnds(s);
    NothingKept(held, maxSize);
    if s == [] || size.None? || size == Some(0) {
      PeakOfEnd(s, held, maxSize);
    } else {
      var step := WalkOf(s).steps[0];
      KeepsLimitCons(step, [], held, maxSize);
      NothingKept(held + step.size, maxSize);
      assert [step] + [] == [step];
      if held + size.value <= maxSize {
        PeakOfChunk(s, size.value, held, maxSize);
      } else {
        PeakOfEnd(s, held, maxSize);
      }
    }
  }

  lemma NothingKept(held: nat, maxSize: nat)
    ensures KeepsLimit([], held, maxSize)
  {
  }

  // ----- The same for the chunks of the grammar -----

  function StepsOf(chunks: seq<Chunk>): (r: seq<Step>)
    ensures |r| == |chunks|
    ensures forall i :: 0 <= i < |chunks| ==> r[i] == Step(|chunks[i].data|, true, true)
  {
    seq(|chunks|, i requires 0 <= i < |chunks| => Step(|chunks[i].data|, true, true))
  }

  /** Rendered chunks are walked one by one. */
  lemma {:induction false} WalkRendered(chunks: seq<Chunk>, rest: seq<Byte>)
    requires AreChunks(chunks)
    ensures WalkOf(RenderChunks(chunks) + rest) == Walk(StepsOf(chunks) + WalkOf(rest).steps, WalkOf(rest).end)
  {
    hide ParseChunkSize, LineEnd, WalkOf, IsChunk;
    if chunks == [] {
      NothingBefore(rest);
      assert StepsOf(chunks) + WalkOf(rest).steps == WalkOf(rest).steps;
    } else {
      var line, data, more := SizeLine(chunks[0].digits, chunks[0].ext), chunks[0].data, RenderChunks(chunks[1..]);
      ChunkLine(chunks[0]);
      ConcatAssoc(line + (data + CRLF), more, rest);
      SplitChunk(line, data, CRLF, more + rest);
      WalkOneChunk(line + (data + CRLF) + (more + rest), |data|);
      WalkRendered(chunks[1..], rest);
      assert StepsOf(chunks) == [Step(|data|, true, true)] + StepsOf(chunks[1..]);
      var steps := WalkOf(rest).steps;
      assert [Step(|data|, true, true)] + (StepsOf(chunks[1..]) + steps) == StepsOf(chunks) + steps;
    }
  }

  lemma ChunkLine(c: Chunk)
    requires IsChunk(c)
    ensures var line := SizeLine(c.digits, c.ext);
            IsLine(line) && ParseChunkSize(line) == Some(|c.data|)
  {
    SizeLineParses(c.digits, c.ext);
  }

  lemma {:induction false} TotalOf(chunks: seq<Chunk>)
    ensures Total(StepsOf(chunks)) == |Data(chunks)|
  {
    if chunks != [] {
      assert StepsOf(chunks)[1..] == StepsOf(chunks[1..]);
      TotalOf(chunks[1..]);
    }
  }

  /** After chunks within the limit, a size line whose chunk does not arrive makes the decoder panic
      exactly when the two do not fit a `usize` together. */
  lemma PanicAfter(chunks: seq<Chunk>, digits: seq<Byte>, ext: seq<Byte>, rest: seq<Byte>, maxSize: nat)
    requires AreChunks(chunks) && |Data(chunks)| <= maxSize <= USIZE_MAX
    requires IsHexRun(digits) && IsExtension(ext)
    requires 0 < Value(digits, 16) <= USIZE_MAX && |rest| < Value(digits, 16) + 2
    ensures ReadChunked(RenderChunks(chunks) + (SizeLine(digits, ext) + rest), [], maxSize) == Err(Panicked) <==>
            |Data(chunks)| + Value(digits, 16) > USIZE_MAX
  {
    hide ParseChunkSize, LineEnd, WalkOf, ReadChunked, Overflows, IsExtension, AllDigits, Value;
    var tail, size := SizeLine(digits, ext) + rest, Value(digits, 16);
    var s := RenderChunks(chunks) + tail;
    SizeLineParses(digits, ext);
    FirstLineOf(SizeLine(digits, ext), rest);
    WalkEnds(tail);
    WalkRendered(chunks, tail);
    PanicIff(s, [], maxSize);
    OneMoreStep(chunks, Step(size, size <= |rest|, false), maxSize);
  }

  lemma OneMoreStep(chunks: seq<Chunk>, step: Step, maxSize: nat)
    requires |Data(chunks)| <= maxSize <= USIZE_MAX
    ensures Overflows(StepsOf(chunks) + [step], 0, maxSize) <==> |Data(chunks)| + step.size > USIZE_MAX
  {
    var steps, n := StepsOf(chunks) + [step], |chunks|;
    assert steps[..n] == StepsOf(chunks);
    TotalOf(chunks);
    assert OverflowsAt(steps, n, 0, maxSize) <==> |Data(chunks)| + step.size > USIZE_MAX;
    forall k | 0 <= k < n ensures !OverflowsAt(steps, k, 0, maxSize) {
      assert steps[..k] == StepsOf(chunks)[..k];
      TotalPart(StepsOf(chunks), k);
    }
  }

  lemma {:induction false} TotalPart(steps: seq<Step>, k: nat)
    requires k < |steps|
    ensures Total(steps[..k]) + steps[k].size <= Total(steps)
  {
    if k > 0 {
      assert steps[..k][1..] == steps[1..][..k - 1];
      TotalPart(steps[1..], k - 1);
    }
  }

  /** A body of the grammar within the limit: its vectors stay within it too exactly when each chunk
      fits twice after the chunks before it. */
  lemma LimitKeptIff(chunks: seq<Chunk>, last: Chunk, rest: seq<Byte>, held: nat, maxSize: nat)
    requires IsChunking(chunks, last) && held + |Data(chunks)| <= maxSize
    ensures PeakHeld(Render(chunks, last) + rest, held, maxSize).copies <= maxSize <==>
            forall i :: 0 <= i < |chunks| ==> held + |Data(chunks[..i])| + 2 * |chunks[i].data| <= maxSize
  {
    hide ParseChunkSize, LineEnd, WalkOf, PeakHeld, IsChunk;
    var zero := SizeLine(last.digits, last.ext);
    var tail := zero + CRLF + rest;
    RenderParts(chunks, last);
    ConcatAssoc(RenderChunks(chunks), zero + CRLF, rest);
    ConcatAssoc(zero, CRLF, rest);
    ChunkLine(last);
    FirstLineOf(zero, CRLF + rest);
    WalkEnds(tail);
    WalkRendered(chunks, tail);
    PeakIff(Render(chunks, last) + rest, held, maxSize);
    var steps := StepsOf(chunks);
    assert steps + [] == steps;
    forall k | 0 <= k < |chunks|
      ensures KeepsLimitAt(steps, k, held, maxSize) <==> held + |Data(chunks[..k])| + 2 * |chunks[k].data| <= maxSize
    {
      assert steps[..k] == StepsOf(chunks[..k]);
      TotalOf(chunks[..k]);
      TotalOf(chunks);
      TotalPart(steps, k);
    }
  }
}

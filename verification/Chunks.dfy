/** The chunked transfer coding (section 7.1 of RFC 9112): the proxy's buffering decoder, its
    forwarding walker, its encoder, a stricter reference decoder, and the grammar. */
module Chunks {
  import opened Bytes
  import opened Numbers
  import opened Trimming

  datatype Fault = UnexpectedEof | InvalidData | Panicked

  datatype Result<+T> = Ok(value: T) | Err(fault: Fault)

  // ----- Size lines -----

  /** `parse_chunk_size`: hex digits up to a semicolon, a space or the line ending. */
  function ParseChunkSize(line: seq<Byte>): Option<nat>
  {
    ParseUsize(Trim(line[..Span(line, {';', '\r', '\n', ' '})]), 16)
  }

  /** Succeeds exactly when the text before the first delimiter, trimmed and freed of one `+`,
      is a non-empty run of hex digits whose value fits a `usize`; the value is positional. */
  lemma ChunkSizeMeaning(line: seq<Byte>)
    ensures var digits := StripPlus(Trim(line[..Span(line, {';', '\r', '\n', ' '})]));
            ParseChunkSize(line) ==
            if digits != [] && AllDigits(digits, 16) && Value(digits, 16) <= USIZE_MAX
            then Some(Value(digits, 16)) else None
  {
    ParseUsizeMeaning(Trim(line[..Span(line, {';', '\r', '\n', ' '})]), 16);
  }

  /** Chunk extensions with the white space that may precede them (section 7.1.1 of RFC 9112),
      with no LF inside. */
  predicate IsExtension(ext: seq<Byte>)
  {
    && '\n' !in ext
    && exists n :: 0 <= n <= |ext| && IsExtensionAt(ext, n)
  }

  /** White space up to `n`, then a semicolon or nothing. */
  predicate IsExtensionAt(ext: seq<Byte>, n: nat)
  {
    && n <= |ext|
    && (forall i :: 0 <= i < n ==> ext[i] == ' ' || ext[i] == '\t')
    && (n < |ext| ==> ext[n] == ';')
  }

  lemma NoExtension()
    ensures IsExtension([])
  {
    assert IsExtensionAt([], 0);
  }

  predicate IsHexRun(digits: seq<Byte>) { digits != [] && AllDigits(digits, 16) }

  /** A size line: any hex digits (either case, leading zeros), an extension, CRLF. */
  function SizeLine(digits: seq<Byte>, ext: seq<Byte>): seq<Byte> { digits + ext + CRLF }

  /** The part of a size line before the first delimiter is the digits and some tabs. */
  lemma {:induction false} SizePart(digits: seq<Byte>, ext: seq<Byte>, k: nat)
    requires IsHexRun(digits)
    requires k <= |ext| && (forall i :: 0 <= i < k ==> ext[i] == '\t')
    requires k == |ext| || ext[k] == ' ' || ext[k] == ';'
    ensures var line := SizeLine(digits, ext);
            Trim(line[..Span(line, {';', '\r', '\n', ' '})]) == digits
  {
    var line := SizeLine(digits, ext);
    var stops := {';', '\r', '\n', ' '};
    var tabs, more := ext[..k], ext[k..] + CRLF;
    HexDigitsArePlain(digits);
    assert line == (digits + tabs) + more;
    SpanIs(digits + tabs, stops, more);
    assert line[..|digits + tabs|] == [] + digits + tabs;
    TrimAscii([], digits, tabs);
  }

  lemma HexDigitsArePlain(digits: seq<Byte>)
    requires AllDigits(digits, 16)
    ensures forall i :: 0 <= i < |digits| ==>
              IsGraphic(digits[i]) && digits[i] != ';' && digits[i] != '+' && digits[i] != '\n'
  {
  }

  lemma FirstNonTab(ext: seq<Byte>) returns (k: nat)
    requires IsExtension(ext)
    ensures k <= |ext| && (forall i :: 0 <= i < k ==> ext[i] == '\t')
    ensures k == |ext| || ext[k] == ' ' || ext[k] == ';'
  {
    var n :| 0 <= n <= |ext| && IsExtensionAt(ext, n);
    k := 0;
    while k < n && ext[k] == '\t'
      invariant k <= n && forall i :: 0 <= i < k ==> ext[i] == '\t'
    {
      k := k + 1;
    }
  }

  /** Every size line of the grammar is a complete line that parses to its value. */
  lemma SizeLineParses(digits: seq<Byte>, ext: seq<Byte>)
    requires IsHexRun(digits) && IsExtension(ext) && Value(digits, 16) <= USIZE_MAX
    ensures IsLine(SizeLine(digits, ext))
    ensures ParseChunkSize(SizeLine(digits, ext)) == Some(Value(digits, 16))
  {
    HexDigitsArePlain(digits);
    var line := SizeLine(digits, ext);
    assert line[..|line| - 1] == digits + ext + ['\r'];
    var k := FirstNonTab(ext);
    SizePart(digits, ext, k);
    ChunkSizeMeaning(line);
  }

  /** Parsing inverts the `{:x}\r\n` printer for every `usize`. */
  lemma PrintedSizeParses(n: nat)
    requires n <= USIZE_MAX
    ensures IsLine(Print(n, 16) + CRLF) && ParseChunkSize(Print(n, 16) + CRLF) == Some(n)
  {
    PrintValue(n, 16);
    NoExtension();
    SizeLineParses(Print(n, 16), []);
    assert Print(n, 16) + [] == Print(n, 16);
  }

  // ----- The buffering decoder (read_chunked_body) -----

  datatype Buffered = Buffered(body: seq<Byte>, rest: seq<Byte>)

  /** `body` is what has been collected so far. The bound check adds two `usize`: past their
      range the addition panics in debug builds, and in release builds wraps to a small number
      and the allocation of the chunk panics. */
  function ReadChunked(s: seq<Byte>, body: seq<Byte>, maxSize: nat): Result<Buffered>
    decreases |s|
  {
    var line, after := FirstLine(s), AfterLine(s);
    if line == [] then Ok(Buffered(body, after))
    else match ParseChunkSize(line)
      case None => Err(InvalidData)
      case Some(size) =>
        if size == 0 then Ok(Buffered(body, AfterLine(after)))
        else if |body| + size > USIZE_MAX then Err(Panicked)
        else if |body| + size > maxSize then Err(InvalidData)
        else if |after| < size + 2 then Err(UnexpectedEof)
        else ReadChunked(after[size + 2..], body + after[..size], maxSize)
  }

  // ----- The forwarding walker (pass_through_chunked) -----

  datatype Passage = Passed(sent: seq<Byte>, rest: seq<Byte>) | Broken(sent: seq<Byte>, fault: Fault)

  function SentFirst(bytes: seq<Byte>, p: Passage): Passage
  {
    match p
    case Passed(sent, rest) => Passed(bytes + sent, rest)
    case Broken(sent, fault) => Broken(bytes + sent, fault)
  }

  function PassChunked(s: seq<Byte>): Passage
    decreases |s|
  {
    var line, after := FirstLine(s), AfterLine(s);
    if line == [] then Passed([], after)
    else match ParseChunkSize(line)
      case None => Broken(line, InvalidData)
      case Some(size) =>
        if size == 0 then Passed(line + FirstLine(after), AfterLine(after))
        else if |after| < size + 2 then
          Broken(line + after[..if |after| < size then |after| else size], UnexpectedEof)
        else SentFirst(line + after[..size + 2], PassChunked(after[size + 2..]))
  }

  /** `p` forwarded bytes of `s`: all that was consumed on success, a prefix on failure. */
  predicate ForwardedOf(p: Passage, s: seq<Byte>)
  {
    match p
    case Passed(sent, rest) => sent + rest == s
    case Broken(sent, _) => sent <= s
  }

  lemma ForwardedFirst(line: seq<Byte>, after: seq<Byte>, k: nat, p: Passage)
    requires k <= |after| && ForwardedOf(p, after[k..])
    ensures ForwardedOf(SentFirst(line + after[..k], p), line + after)
  {
    var chunk, next := after[..k], after[k..];
    assert line + after == line + (chunk + next) == (line + chunk) + next;
    match p
    case Passed(sent, rest) => assert (line + chunk + sent) + rest == (line + chunk) + (sent + rest);
    case Broken(sent, _) => assert next == sent + next[|sent|..];
      assert (line + chunk) + next == (line + chunk + sent) + next[|sent|..];
  }

  lemma ForwardedPart(line: seq<Byte>, after: seq<Byte>, k: nat, fault: Fault)
    requires k <= |after|
    ensures ForwardedOf(Broken(line + after[..k], fault), line + after)
    ensures ForwardedOf(Passed(line + after[..k], after[k..]), line + after)
    ensures ForwardedOf(Broken(line, fault), line + after)
  {
    assert line + after == (line + after[..k]) + after[k..];
  }

  lemma PassOneChunk(s: seq<Byte>, size: nat)
    requires s != [] && ParseChunkSize(FirstLine(s)) == Some(size) && 0 < size <= |AfterLine(s)| - 2
    ensures var line, after := FirstLine(s), AfterLine(s);
            PassChunked(s) == SentFirst(line + after[..size + 2], PassChunked(after[size + 2..]))
  {
  }

  /** What is forwarded is a prefix of the input, and on success all that was consumed. */
  lemma {:induction false} PassTransparent(s: seq<Byte>)
    ensures ForwardedOf(PassChunked(s), s)
    decreases |s|
  {
    if s != [] {
      var line, after := FirstLine(s), AfterLine(s);
      FirstLineIsLine(s);
      match ParseChunkSize(line)
      case None => ForwardedPart(line, after, 0, InvalidData);
      case Some(size) =>
        if size == 0 {
          ForwardedPart(line, after, LineEnd(after), InvalidData);
        } else if |after| < size + 2 {
          ForwardedPart(line, after, if |after| < size then |after| else size, UnexpectedEof);
        } else {
          PassTransparent(after[size + 2..]);
          PassOneChunk(s, size);
          ForwardedFirst(line, after, size + 2, PassChunked(after[size + 2..]));
        }
    }
  }

  // ----- The two walkers agree -----

  /** Total of the chunk sizes announced along the input, up to the zero chunk, the end of
      input or the first malformed or truncated chunk. */
  function Announced(s: seq<Byte>): nat
    decreases |s|
  {
    var line, after := FirstLine(s), AfterLine(s);
    if line == [] then 0
    else match ParseChunkSize(line)
      case None => 0
      case Some(size) =>
        size + if size == 0 || |after| < size + 2 then 0 else Announced(after[size + 2..])
  }

  lemma AnnouncedOneChunk(s: seq<Byte>, size: nat)
    requires s != [] && ParseChunkSize(FirstLine(s)) == Some(size) && 0 < size <= |AfterLine(s)| - 2
    ensures Announced(s) == size + Announced(AfterLine(s)[size + 2..])
  {
    hide ParseChunkSize;
  }

  /** A walk that does not go on after a chunk within the limit. */
  lemma WalkersEnd(s: seq<Byte>, body: seq<Byte>, maxSize: nat)
    requires |body| <= maxSize <= USIZE_MAX
    requires var size := ParseChunkSize(FirstLine(s));
             || s == [] || size.None? || size == Some(0)
             || |body| + size.value > maxSize || |AfterLine(s)| < size.value + 2
    ensures ReadChunked(s, body, maxSize).Ok? <==> PassChunked(s).Passed? && |body| + Announced(s) <= maxSize
    ensures ReadChunked(s, body, maxSize).Ok? ==>
            ReadChunked(s, body, maxSize).value == Buffered(body, PassChunked(s).rest) && Announced(s) == 0
  {
    hide ParseChunkSize;
  }

  /** On every input, malformed included: buffering succeeds exactly when forwarding succeeds
      and the announced total fits; both then consume the same bytes. */
  lemma {:induction false} WalkersAgree(s: seq<Byte>, body: seq<Byte>, maxSize: nat)
    requires |body| <= maxSize <= USIZE_MAX
    ensures ReadChunked(s, body, maxSize).Ok? <==>
            PassChunked(s).Passed? && |body| + Announced(s) <= maxSize
    ensures ReadChunked(s, body, maxSize).Ok? ==>
            && ReadChunked(s, body, maxSize).value.rest == PassChunked(s).rest
            && body <= ReadChunked(s, body, maxSize).value.body
            && |ReadChunked(s, body, maxSize).value.body| == |body| + Announced(s)
    decreases |s|
  {
    hide ParseChunkSize, LineEnd, ReadChunked, PassChunked, Announced;
    var after, size := AfterLine(s), ParseChunkSize(FirstLine(s));
    if s == [] || size.None? || size == Some(0) || |body| + size.value > maxSize || |after| < size.value + 2 {
      WalkersEnd(s, body, maxSize);
    } else {
      ReadOneChunk(s, size.value, body, maxSize);
      PassOneChunk(s, size.value);
      AnnouncedOneChunk(s, size.value);
      WalkersAgree(after[size.value + 2..], body + after[..size.value], maxSize);
    }
  }

  // ----- What the buffering decoder holds -----

  /** Octets of the vectors `body` and `chunk`: all of them, and those that are not in both. */
  datatype Held = Held(copies: nat, octets: nat)

  const NOTHING: Held := Held(0, 0)

  function MaxHeld(a: Held, b: Held): Held
  {
    Held(if a.copies < b.copies then b.copies else a.copies, if a.octets < b.octets then b.octets else a.octets)
  }

  predicate WithinHeld(a: Held, b: Held) { a.copies <= b.copies && a.octets <= b.octets }

  /** The most held while a chunk is read after `held` octets. Its vector is allocated before it is
      read, and lives until its line ending has been read: by then its octets are in the body too. */
  function ChunkHeld(after: seq<Byte>, size: nat, held: nat): Held
  {
    Held(held + size + if |after| < size then 0 else size, held + size)
  }

  /** The most held at any moment of decoding `s` after `held` octets, however the decoding ends. */
  function PeakHeld(s: seq<Byte>, held: nat, maxSize: nat): Held
    decreases |s|
  {
    var line, after := FirstLine(s), AfterLine(s);
    if line == [] then Held(held, held)
    else match ParseChunkSize(line)
      case None => Held(held, held)
      case Some(size) =>
        if size == 0 || held + size > maxSize then Held(held, held)
        else if |after| < size + 2 then ChunkHeld(after, size, held)
        else MaxHeld(ChunkHeld(after, size, held), PeakHeld(after[size + 2..], held + size, maxSize))
  }

  lemma PeakOfChunk(s: seq<Byte>, size: nat, held: nat, maxSize: nat)
    requires s != [] && ParseChunkSize(FirstLine(s)) == Some(size) && 0 < size && held + size <= maxSize
    ensures var after := AfterLine(s);
            && (|after| < size + 2 ==> PeakHeld(s, held, maxSize) == ChunkHeld(after, size, held))
            && (size + 2 <= |after| ==>
                  PeakHeld(s, held, maxSize) ==
                  MaxHeld(ChunkHeld(after, size, held), PeakHeld(after[size + 2..], held + size, maxSize)))
  {
    hide ParseChunkSize, LineEnd, ChunkHeld, MaxHeld;
  }

  lemma PeakOfEnd(s: seq<Byte>, held: nat, maxSize: nat)
    requires var size := ParseChunkSize(FirstLine(s));
             s == [] || size.None? || size == Some(0) || held + size.value > maxSize
    ensures PeakHeld(s, held, maxSize) == Held(held, held)
  {
    hide ParseChunkSize, LineEnd;
  }

  lemma {:induction false} PeakBounded(s: seq<Byte>, held: nat, maxSize: nat)
    requires held <= maxSize
    ensures held <= PeakHeld(s, held, maxSize).octets <= maxSize
    ensures held <= PeakHeld(s, held, maxSize).copies <= 2 * maxSize - held
    decreases |s|
  {
    hide ParseChunkSize, LineEnd, PeakHeld;
    var after, size := AfterLine(s), ParseChunkSize(FirstLine(s));
    if s == [] || size.None? || size == Some(0) || held + size.value > maxSize {
      PeakOfEnd(s, held, maxSize);
    } else {
      PeakOfChunk(s, size.value, held, maxSize);
      if size.value + 2 <= |after| {
        PeakBounded(after[size.value + 2..], held + size.value, maxSize);
      }
    }
  }

  lemma {:induction false} PeakOfBody(s: seq<Byte>, body: seq<Byte>, maxSize: nat)
    requires |body| <= maxSize <= USIZE_MAX && ReadChunked(s, body, maxSize).Ok?
    ensures PeakHeld(s, |body|, maxSize).octets == |ReadChunked(s, body, maxSize).value.body|
    decreases |s|
  {
    hide ParseChunkSize, LineEnd, PeakHeld;
    var after, size := AfterLine(s), ParseChunkSize(FirstLine(s));
    if s == [] || size == Some(0) {
      PeakOfEnd(s, |body|, maxSize);
    } else {
      PeakOfChunk(s, size.value, |body|, maxSize);
      ReadOneChunk(s, size.value, body, maxSize);
      PeakOfBody(after[size.value + 2..], body + after[..size.value], maxSize);
      PeakBounded(after[size.value + 2..], |body| + size.value, maxSize);
    }
  }

  /** On every input, decodable or not, the decoder never holds more than `maxSize` octets of the
      body, nor more than twice as many with the copies; a body it returns is all it has held. */
  lemma BufferBounded(s: seq<Byte>, maxSize: nat)
    requires maxSize <= USIZE_MAX
    ensures WithinHeld(PeakHeld(s, 0, maxSize), Held(2 * maxSize, maxSize))
    ensures ReadChunked(s, [], maxSize).Ok? ==>
              PeakHeld(s, 0, maxSize).octets == |ReadChunked(s, [], maxSize).value.body| <= maxSize
  {
    PeakBounded(s, 0, maxSize);
    if ReadChunked(s, [], maxSize).Ok? {
      PeakOfBody(s, [], maxSize);
    }
  }

  /** Twice the limit is reached exactly when the first chunk is of that size and arrives. */
  lemma TwiceHeldIff(s: seq<Byte>, maxSize: nat)
    requires 0 < maxSize
    ensures PeakHeld(s, 0, maxSize).copies == 2 * maxSize <==>
            s != [] && ParseChunkSize(FirstLine(s)) == Some(maxSize) && maxSize <= |AfterLine(s)|
  {
    hide ParseChunkSize, LineEnd;
    if s != [] {
      var after, size := AfterLine(s), ParseChunkSize(FirstLine(s));
      if size.Some? && 0 < size.value <= maxSize && size.value + 2 <= |after| {
        PeakBounded(after[size.value + 2..], size.value, maxSize);
      }
    }
  }

  lemma ReadOneChunk(s: seq<Byte>, size: nat, body: seq<Byte>, maxSize: nat)
    requires s != [] && ParseChunkSize(FirstLine(s)) == Some(size) && 0 < size <= |AfterLine(s)| - 2
    requires |body| + size <= maxSize <= USIZE_MAX
    ensures ReadChunked(s, body, maxSize) ==
            ReadChunked(AfterLine(s)[size + 2..], body + AfterLine(s)[..size], maxSize)
  {
  }

  /** A size line and a chunk put in front of `next`. */
  lemma SplitChunk(line: seq<Byte>, data: seq<Byte>, crlf: seq<Byte>, next: seq<Byte>)
    requires IsLine(line) && |crlf| == 2
    ensures var s, n := line + (data + crlf) + next, |data|;
            && FirstLine(s) == line && |AfterLine(s)| >= n + 2
            && AfterLine(s)[..n] == data && AfterLine(s)[n..n + 2] == crlf && AfterLine(s)[n + 2..] == next
  {
    assert line + (data + crlf) + next == line + (data + crlf + next);
    FirstLineOf(line, data + crlf + next);
  }

  lemma ReadComposed(line: seq<Byte>, data: seq<Byte>, crlf: seq<Byte>, next: seq<Byte>, body: seq<Byte>, maxSize: nat)
    requires IsLine(line) && ParseChunkSize(line) == Some(|data|) && data != [] && |crlf| == 2
    requires |body| + |data| <= maxSize <= USIZE_MAX
    ensures ReadChunked(line + (data + crlf) + next, body, maxSize) == ReadChunked(next, body + data, maxSize)
  {
    SplitChunk(line, data, crlf, next);
    ReadOneChunk(line + (data + crlf) + next, |data|, body, maxSize);
  }

  lemma CutChunk(after: seq<Byte>, size: nat)
    requires size + 2 <= |after|
    ensures after[..size + 2] == after[..size] + after[size..size + 2]
  {
  }

  lemma ReadLast(s: seq<Byte>, more: seq<Byte>, body: seq<Byte>, maxSize: nat)
    requires s != [] && ParseChunkSize(FirstLine(s)) == Some(0)
    requires AfterLine(s) == [] ==> more == []
    ensures ReadChunked(FirstLine(s) + more, body, maxSize) == Ok(Buffered(body, AfterLine(more)))
  {
    FirstLineOfPrefix(s, more);
  }

  /** Decoding the forwarded bytes gives the buffered body, and nothing is left. */
  lemma {:induction false} DecodeForwarded(s: seq<Byte>, body: seq<Byte>, maxSize: nat)
    requires |body| <= maxSize <= USIZE_MAX && ReadChunked(s, body, maxSize).Ok?
    ensures PassChunked(s).Passed?
    ensures ReadChunked(PassChunked(s).sent, body, maxSize) ==
            Ok(Buffered(ReadChunked(s, body, maxSize).value.body, []))
    decreases |s|
  {
    WalkersAgree(s, body, maxSize);
    if s != [] {
      var line, after := FirstLine(s), AfterLine(s);
      var size := ParseChunkSize(line).value;
      if size == 0 {
        ReadLast(s, FirstLine(after), body, maxSize);
        FirstLineAlone(after);
      } else {
        FirstLineIsLine(s);
        ReadOneChunk(s, size, body, maxSize);
        PassOneChunk(s, size);
        DecodeForwarded(after[size + 2..], body + after[..size], maxSize);
        var sent := PassChunked(after[size + 2..]).sent;
        CutChunk(after, size);
        ReadComposed(line, after[..size], after[size..size + 2], sent, body, maxSize);
      }
    }
  }

  /** The first line is the same after cutting or replacing what follows it, unless the line
      was unterminated, in which case nothing can follow. */
  lemma FirstLineOfPrefix(s: seq<Byte>, more: seq<Byte>)
    requires AfterLine(s) == [] ==> more == []
    ensures FirstLine(FirstLine(s) + more) == FirstLine(s) && AfterLine(FirstLine(s) + more) == more
  {
    var line := FirstLine(s);
    if AfterLine(s) != [] {
      FirstLineIsLine(s);
      FirstLineOf(line, more);
    } else {
      assert line + more == s;
    }
  }

  lemma FirstLineAlone(s: seq<Byte>)
    ensures AfterLine(FirstLine(s)) == []
  {
    FirstLineOfPrefix(s, []);
    assert FirstLine(s) + [] == FirstLine(s);
  }

  // ----- A stricter decoder -----

  /** Complete size lines, read as the proxy reads them, CRLF after each chunk, and a blank line
      after the zero chunk. */
  function Dechunk(s: seq<Byte>): Option<Buffered>
    decreases |s|
  {
    var line, after := FirstLine(s), AfterLine(s);
    if !IsLine(line) then None
    else match ParseChunkSize(line)
      case None => None
      case Some(size) =>
        if size == 0 then
          if IsBlank(FirstLine(after)) then Some(Buffered([], AfterLine(after))) else None
        else if |after| < size + 2 || after[size..size + 2] != CRLF then None
        else match Dechunk(after[size + 2..])
          case None => None
          case Some(b) => Some(Buffered(after[..size] + b.body, b.rest))
  }

  lemma DechunkOneChunk(s: seq<Byte>, size: nat)
    requires IsLine(FirstLine(s)) && ParseChunkSize(FirstLine(s)) == Some(size)
    requires 0 < size <= |AfterLine(s)| - 2 && AfterLine(s)[size..size + 2] == CRLF
    ensures var after := AfterLine(s); var d := Dechunk(after[size + 2..]);
            Dechunk(s) == if d.None? then None else Some(Buffered(after[..size] + d.value.body, d.value.rest))
  {
  }

  /** Whatever the stricter decoder accepts is forwarded, up to the same place ... */
  lemma {:induction false} DechunkPassed(s: seq<Byte>)
    requires Dechunk(s).Some?
    ensures PassChunked(s).Passed? && PassChunked(s).rest == Dechunk(s).value.rest
    ensures |Dechunk(s).value.body| == Announced(s)
    decreases |s|
  {
    hide ParseChunkSize, PassChunked, Announced;
    var size := ParseChunkSize(FirstLine(s)).value;
    if size == 0 {
      PassedZero(s);
    } else {
      DechunkOneChunk(s, size);
      PassOneChunk(s, size);
      AnnouncedOneChunk(s, size);
      DechunkPassed(AfterLine(s)[size + 2..]);
    }
  }

  lemma PassedZero(s: seq<Byte>)
    requires s != [] && ParseChunkSize(FirstLine(s)) == Some(0)
    ensures PassChunked(s) == Passed(FirstLine(s) + FirstLine(AfterLine(s)), AfterLine(AfterLine(s)))
    ensures Announced(s) == 0
  {
    hide ParseChunkSize;
  }

  /** ... and buffered, when it fits. */
  lemma {:induction false} DechunkBuffered(s: seq<Byte>, body: seq<Byte>, maxSize: nat)
    requires Dechunk(s).Some? && |body| + |Dechunk(s).value.body| <= maxSize <= USIZE_MAX
    ensures ReadChunked(s, body, maxSize) == Ok(Buffered(body + Dechunk(s).value.body, Dechunk(s).value.rest))
    decreases |s|
  {
    var size := ParseChunkSize(FirstLine(s)).value;
    if size == 0 {
      assert body + [] == body;
    } else {
      var data, next := AfterLine(s)[..size], AfterLine(s)[size + 2..];
      DechunkOneChunk(s, size);
      ReadOneChunk(s, size, body, maxSize);
      DechunkBuffered(next, body + data, maxSize);
      ConcatAssoc(body, data, Dechunk(next).value.body);
    }
  }

  /** In the terms of a complete body: accepted and decoded within the limit, refused above it. */
  lemma DechunkRead(s: seq<Byte>, b: Buffered, maxSize: nat)
    requires Dechunk(s) == Some(b) && maxSize <= USIZE_MAX
    ensures |b.body| <= maxSize ==> ReadChunked(s, [], maxSize) == Ok(b)
    ensures |b.body| > maxSize ==> ReadChunked(s, [], maxSize).Err?
    ensures PassChunked(s).Passed? && PassChunked(s).rest == b.rest
  {
    DechunkPassed(s);
    WalkersAgree(s, [], maxSize);
    if |b.body| <= maxSize {
      DechunkBuffered(s, [], maxSize);
      assert [] + b.body == b.body;
    }
  }

  /** A well-formed chunk in front of a decodable stream. */
  lemma DechunkPut(line: seq<Byte>, data: seq<Byte>, next: seq<Byte>, d: Buffered)
    requires IsLine(line) && ParseChunkSize(line) == Some(|data|) && data != [] && Dechunk(next) == Some(d)
    ensures Dechunk(line + (data + CRLF) + next) == Some(Buffered(data + d.body, d.rest))
  {
    SplitChunk(line, data, CRLF, next);
    DechunkOneChunk(line + (data + CRLF) + next, |data|);
  }

  lemma DechunkComposed(line: seq<Byte>, data: seq<Byte>, more: seq<Byte>, rest: seq<Byte>, d: Buffered)
    requires IsLine(line) && ParseChunkSize(line) == Some(|data|) && data != [] && Dechunk(more + rest) == Some(d)
    ensures Dechunk(line + (data + CRLF) + more + rest) == Some(Buffered(data + d.body, d.rest))
  {
    ConcatAssoc(line + (data + CRLF), more, rest);
    DechunkPut(line, data, more + rest, d);
  }

  lemma UsedChunk(line: seq<Byte>, after: seq<Byte>, k: nat, used: seq<Byte>, rest: seq<Byte>)
    requires k <= |after| && after[k..] == used + rest
    ensures line + after == line + after[..k] + used + rest
  {
    assert after == after[..k] + (used + rest);
  }

  lemma DechunkLast(line: seq<Byte>, blank: seq<Byte>, rest: seq<Byte>)
    requires IsLine(line) && ParseChunkSize(line) == Some(0) && IsBlank(blank)
    ensures Dechunk(line + blank + rest) == Some(Buffered([], rest))
  {
    assert line + blank + rest == line + (blank + rest);
    FirstLineOf(line, blank + rest);
    FirstLineOf(blank, rest);
  }

  /** The stricter decoder's verdict does not depend on what follows: `s` splits into the
      consumed bytes and the rest, and any other rest may take its place. */
  lemma {:induction false} DechunkLocal(s: seq<Byte>, rest: seq<Byte>) returns (used: seq<Byte>)
    requires Dechunk(s).Some?
    ensures used != [] && s == used + Dechunk(s).value.rest
    ensures Dechunk(used + rest) == Some(Buffered(Dechunk(s).value.body, rest))
    decreases |s|
  {
    var line, after := FirstLine(s), AfterLine(s);
    var size := ParseChunkSize(line).value;
    FirstLineIsLine(s);
    if size == 0 {
      used := line + FirstLine(after);
      DechunkLast(line, FirstLine(after), rest);
      FirstLineIsLine(after);
      ConcatAssoc(line, FirstLine(after), AfterLine(after));
    } else {
      var next := after[size + 2..];
      DechunkOneChunk(s, size);
      var u := DechunkLocal(next, rest);
      used := line + (after[..size] + CRLF) + u;
      CutChunk(after, size);
      DechunkComposed(line, after[..size], u, rest, Buffered(Dechunk(next).value.body, rest));
      UsedChunk(line, after, size + 2, u, Dechunk(next).value.rest);
    }
  }

  // ----- Every chunking of the grammar decodes -----

  datatype Chunk = Chunk(digits: seq<Byte>, ext: seq<Byte>, data: seq<Byte>)

  predicate IsChunk(c: Chunk)
  {
    && IsHexRun(c.digits) && IsExtension(c.ext)
    && Value(c.digits, 16) == |c.data| <= USIZE_MAX
  }

  /** `chunked-body` with an empty trailer section: data chunks, then a zero chunk. */
  predicate IsChunking(chunks: seq<Chunk>, last: Chunk)
  {
    AreChunks(chunks) && IsChunk(last) && last.data == []
  }

  function Render(chunks: seq<Chunk>, last: Chunk): seq<Byte>
  {
    if chunks == [] then SizeLine(last.digits, last.ext) + CRLF
    else SizeLine(chunks[0].digits, chunks[0].ext) + (chunks[0].data + CRLF) + Render(chunks[1..], last)
  }

  /** The data chunks alone. */
  function RenderChunks(chunks: seq<Chunk>): seq<Byte>
  {
    if chunks == [] then []
    else SizeLine(chunks[0].digits, chunks[0].ext) + (chunks[0].data + CRLF) + RenderChunks(chunks[1..])
  }

  predicate AreChunks(chunks: seq<Chunk>)
  {
    forall i :: 0 <= i < |chunks| ==> IsChunk(chunks[i]) && chunks[i].data != []
  }

  lemma {:induction false} RenderParts(chunks: seq<Chunk>, last: Chunk)
    ensures Render(chunks, last) == RenderChunks(chunks) + (SizeLine(last.digits, last.ext) + CRLF)
  {
    if chunks == [] {
      NothingBefore(SizeLine(last.digits, last.ext) + CRLF);
    } else {
      RenderParts(chunks[1..], last);
      ConcatAssoc(SizeLine(chunks[0].digits, chunks[0].ext) + (chunks[0].data + CRLF), RenderChunks(chunks[1..]),
                  SizeLine(last.digits, last.ext) + CRLF);
    }
  }

  function Data(chunks: seq<Chunk>): seq<Byte>
  {
    if chunks == [] then [] else chunks[0].data + Data(chunks[1..])
  }

  /** It reads back any chunking of the grammar, in any hex spelling and with any extensions. */
  lemma {:induction false} DechunkRender(chunks: seq<Chunk>, last: Chunk, rest: seq<Byte>)
    requires IsChunking(chunks, last)
    ensures Dechunk(Render(chunks, last) + rest) == Some(Buffered(Data(chunks), rest))
  {
    if chunks == [] {
      SizeLineParses(last.digits, last.ext);
      DechunkLast(SizeLine(last.digits, last.ext), CRLF, rest);
    } else {
      var c := chunks[0];
      SizeLineParses(c.digits, c.ext);
      DechunkRender(chunks[1..], last, rest);
      DechunkComposed(SizeLine(c.digits, c.ext), c.data, Render(chunks[1..], last), rest,
                      Buffered(Data(chunks[1..]), rest));
    }
  }

  /** The buffering decoder inverts every chunking within the limit, and leaves exactly what
      follows; over the limit it fails. */
  lemma ReadChunkedInverts(chunks: seq<Chunk>, last: Chunk, rest: seq<Byte>, maxSize: nat)
    requires IsChunking(chunks, last) && maxSize <= USIZE_MAX
    ensures var s := Render(chunks, last) + rest;
            && (|Data(chunks)| <= maxSize ==> ReadChunked(s, [], maxSize) == Ok(Buffered(Data(chunks), rest)))
            && (|Data(chunks)| > maxSize ==> ReadChunked(s, [], maxSize).Err?)
            && PassChunked(s) == Passed(Render(chunks, last), rest)
  {
    var s := Render(chunks, last) + rest;
    DechunkRender(chunks, last, rest);
    DechunkRead(s, Buffered(Data(chunks), rest), maxSize);
    PassTransparent(s);
    SameBeforeSuffix(PassChunked(s).sent, Render(chunks, last), rest);
  }

  // ----- The trailer section -----

  /** The data of a chunked body, and what follows the size line of its zero chunk: its trailer
      section (section 7.1.2 of RFC 9112), of which both walkers read one line. */
  function DataSection(s: seq<Byte>): Option<Buffered>
    decreases |s|
  {
    var line, after := FirstLine(s), AfterLine(s);
    if !IsLine(line) then None
    else match ParseChunkSize(line)
      case None => None
      case Some(size) =>
        if size == 0 then Some(Buffered([], after))
        else if |after| < size + 2 then None
        else match DataSection(after[size + 2..])
          case None => None
          case Some(b) => Some(Buffered(after[..size] + b.body, b.rest))
  }

  lemma SectionOneChunk(s: seq<Byte>, size: nat)
    requires IsLine(FirstLine(s)) && ParseChunkSize(FirstLine(s)) == Some(size) && 0 < size <= |AfterLine(s)| - 2
    ensures var after := AfterLine(s); var d := DataSection(after[size + 2..]);
            DataSection(s) == if d.None? then None else Some(Buffered(after[..size] + d.value.body, d.value.rest))
  {
    hide ParseChunkSize, LineEnd;
  }

  /** Every rendering of data chunks and a zero chunk is read as that, whatever follows. */
  lemma {:induction false} SectionRendered(chunks: seq<Chunk>, last: Chunk, more: seq<Byte>)
    requires IsChunking(chunks, last)
    ensures DataSection(RenderChunks(chunks) + (SizeLine(last.digits, last.ext) + more)) ==
            Some(Buffered(Data(chunks), more))
  {
    hide ParseChunkSize, LineEnd;
    var zero := SizeLine(last.digits, last.ext);
    if chunks == [] {
      SizeLineParses(last.digits, last.ext);
      FirstLineOf(zero, more);
      NothingBefore(zero + more);
    } else {
      var c := chunks[0];
      var line, next := SizeLine(c.digits, c.ext), RenderChunks(chunks[1..]);
      SizeLineParses(c.digits, c.ext);
      SectionRendered(chunks[1..], last, more);
      ConcatAssoc(line + (c.data + CRLF), next, zero + more);
      SplitChunk(line, c.data, CRLF, next + (zero + more));
      hide DataSection;
      SectionOneChunk(line + (c.data + CRLF) + (next + (zero + more)), |c.data|);
    }
  }

  /** Both walkers read the data and one line of the trailer section. */
  lemma {:induction false} SectionWalked(s: seq<Byte>, body: seq<Byte>, maxSize: nat)
    requires DataSection(s).Some? && |body| <= maxSize <= USIZE_MAX
    ensures var b := DataSection(s).value;
            && PassChunked(s).Passed? && PassChunked(s).rest == AfterLine(b.rest) && Announced(s) == |b.body|
            && (|body| + |b.body| <= maxSize ==>
                  ReadChunked(s, body, maxSize) == Ok(Buffered(body + b.body, AfterLine(b.rest))))
    decreases |s|
  {
    hide ParseChunkSize, LineEnd, PassChunked, ReadChunked, Announced;
    var after, size := AfterLine(s), ParseChunkSize(FirstLine(s)).value;
    if size == 0 {
      PassedZero(s);
      ReadZero(s, body, maxSize);
      AppendNothing(body);
    } else {
      SectionOneChunk(s, size);
      PassOneChunk(s, size);
      AnnouncedOneChunk(s, size);
      var d := DataSection(after[size + 2..]).value;
      if |body| + size <= maxSize {
        ReadOneChunk(s, size, body, maxSize);
        SectionWalked(after[size + 2..], body + after[..size], maxSize);
        ConcatAssoc(body, after[..size], d.body);
      } else {
        SectionWalked(after[size + 2..], body, maxSize);
      }
    }
  }

  lemma ReadZero(s: seq<Byte>, body: seq<Byte>, maxSize: nat)
    requires s != [] && ParseChunkSize(FirstLine(s)) == Some(0)
    ensures ReadChunked(s, body, maxSize) == Ok(Buffered(body, AfterLine(AfterLine(s))))
  {
    hide ParseChunkSize, LineEnd;
  }

  // ----- The encoder (write_chunked_body) -----

  const LAST_CHUNK: seq<Byte> := "0\r\n\r\n"

  /** One chunk with all the data, whatever its length, then the terminating chunk. */
  function EncodeChunked(body: seq<Byte>): seq<Byte>
  {
    Print(|body|, 16) + CRLF + (body + CRLF) + LAST_CHUNK
  }

  function OneChunk(body: seq<Byte>): seq<Chunk>
  {
    if body == [] then [] else [Chunk(Print(|body|, 16), [], body)]
  }

  function LastChunk(): Chunk { Chunk(Print(0, 16), [], []) }

  /** A body as one chunk is a chunking of it ... */
  lemma OneChunkIsChunking(body: seq<Byte>)
    requires |body| <= USIZE_MAX
    ensures IsChunking(OneChunk(body), LastChunk()) && Data(OneChunk(body)) == body
  {
    PrintValue(|body|, 16);
    PrintValue(0, 16);
    NoExtension();
    assert body != [] ==> OneChunk(body)[1..] == [] && body + [] == body;
  }

  /** ... and it is what the encoder writes, unless the body is empty. */
  lemma EncodedIsChunking(body: seq<Byte>)
    requires 0 < |body| <= USIZE_MAX
    ensures IsChunking(OneChunk(body), LastChunk()) && Data(OneChunk(body)) == body
    ensures EncodeChunked(body) == Render(OneChunk(body), LastChunk())
  {
    OneChunkIsChunking(body);
    PrintedZero();
    var line, none: seq<Chunk> := Print(|body|, 16), OneChunk(body)[1..];
    assert none == [];
    assert line + [] == line && Print(0, 16) + [] == Print(0, 16);
    assert Render(none, LastChunk()) == Print(0, 16) + [] + CRLF + CRLF;
  }

  /** What stays unread after decoding an encoded body: nothing, except that an empty body is
      written as two zero chunks and the second one is left over. */
  function Residue(body: seq<Byte>): seq<Byte> { if body == [] then LAST_CHUNK else [] }

  lemma PrintedZero()
    ensures Print(0, 16) + CRLF + CRLF == LAST_CHUNK
  {
  }

  lemma DechunkLastChunk(rest: seq<Byte>)
    ensures Dechunk(LAST_CHUNK + rest) == Some(Buffered([], rest))
  {
    hide Print, ParseChunkSize, Dechunk;
    PrintedSizeParses(0);
    PrintedZero();
    DechunkLast(Print(0, 16) + CRLF, CRLF, rest);
  }

  /** Strict decoding of the encoder's output. */
  lemma DechunkEncoded(body: seq<Byte>, rest: seq<Byte>)
    requires |body| <= USIZE_MAX
    ensures Dechunk(EncodeChunked(body) + rest) == Some(Buffered(body, Residue(body) + rest))
  {
    var line := Print(|body|, 16) + CRLF;
    PrintedSizeParses(|body|);
    if body == [] {
      DechunkLast(line, CRLF, LAST_CHUNK + rest);
      EncodedEmpty(line, rest);
    } else {
      DechunkLastChunk(rest);
      DechunkComposed(line, body, LAST_CHUNK, rest, Buffered([], rest));
      assert body + [] == body && [] + rest == rest;
    }
  }

  lemma EncodedEmpty(line: seq<Byte>, rest: seq<Byte>)
    ensures line + ([] + CRLF) + LAST_CHUNK + rest == line + CRLF + (LAST_CHUNK + rest)
  {
  }

  /** Encode/decode round trip of the proxy's own pair, with the exact residue. */
  lemma ReadEncoded(body: seq<Byte>, rest: seq<Byte>, maxSize: nat)
    requires |body| <= maxSize <= USIZE_MAX
    ensures ReadChunked(EncodeChunked(body) + rest, [], maxSize) == Ok(Buffered(body, Residue(body) + rest))
  {
    DechunkEncoded(body, rest);
    DechunkRead(EncodeChunked(body) + rest, Buffered(body, Residue(body) + rest), maxSize);
  }

  /** Re-encoding a decoded body is a normal form: it decodes to the same bytes, and encoding
      what was decoded from it changes nothing. */
  lemma EncodedNormalForm(s: seq<Byte>, maxSize: nat)
    requires maxSize <= USIZE_MAX && ReadChunked(s, [], maxSize).Ok?
    requires ReadChunked(s, [], maxSize).value.body != []
    ensures var e := EncodeChunked(ReadChunked(s, [], maxSize).value.body);
            && ReadChunked(e, [], maxSize) == Ok(Buffered(ReadChunked(s, [], maxSize).value.body, []))
            && EncodeChunked(ReadChunked(e, [], maxSize).value.body) == e
  {
    hide EncodeChunked, PeakHeld, PassChunked, Dechunk, Announced;
    var body := ReadChunked(s, [], maxSize).value.body;
    BufferBounded(s, maxSize);
    DechunkEncoded(body, []);
    AppendNothing(EncodeChunked(body));
    AppendNothing(Residue(body));
    DechunkRead(EncodeChunked(body), Buffered(body, []), maxSize);
  }
}

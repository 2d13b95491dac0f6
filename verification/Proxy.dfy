/** The proxy's loops as they run, against a stream that may deliver its bytes in any pieces and
    a client that may stop accepting bytes at any octet. */
module Proxy {
  import opened Bytes
  import opened Numbers
  import opened Utf8
  import opened Headers
  import opened Chunks
  import opened Rewriting
  import opened Connection
  import opened Runs
  import opened Refinement
  import opened Streams

  const BUFFER_SIZE: nat := 8192

  /** The buffered read half of the origin connection: all that is still to be delivered. */
  class Reader {
    var unread: seq<Byte>

    constructor (input: seq<Byte>)
      ensures unread == input
    {
      unread := input;
    }

    /** `read_until(b'\n')`: empty only at the end of input; a last line may lack its LF. */
    method ReadLine() returns (line: seq<Byte>)
      modifies this
      ensures line == FirstLine(old(unread)) && unread == AfterLine(old(unread))
    {
      line := FirstLine(unread);
      unread := AfterLine(unread);
    }

    /** `read(&mut buf[..limit])`: any number of available bytes, 0 only at the end of input. */
    method Read(buf: array<Byte>, limit: nat) returns (n: nat)
      requires 0 < limit <= buf.Length
      modifies this, buf
      ensures n <= limit && n <= |old(unread)| && (n == 0 ==> old(unread) == [])
      ensures buf[..n] == old(unread)[..n] && unread == old(unread)[n..]
    {
      var k: nat :| k <= limit && k <= |unread| && (k == 0 ==> unread == []);
      n := k;
      forall i | 0 <= i < n {
        buf[i] := unread[i];
      }
      assert buf[..n] == unread[..n];
      unread := unread[n..];
    }

    /** `read_exact`: fails when the input is too short, having consumed what there was. */
    method ReadExact(n: nat) returns (bytes: Option<seq<Byte>>)
      modifies this
      ensures |old(unread)| < n ==> bytes.None? && unread == []
      ensures n <= |old(unread)| ==> bytes == Some(old(unread)[..n]) && unread == old(unread)[n..]
    {
      if |unread| < n {
        bytes, unread := None, [];
      } else {
        bytes, unread := Some(unread[..n]), unread[n..];
      }
    }
  }

  /** How long the other end of a connection stays: for all that is sent, or until it has taken so many
      octets. Then the write fails that goes beyond them, or already the one that completes them. */
  datatype Patience = Endless | Until(octets: nat, failsFull: bool)

  /** The other end stays while `bytes` are written after `before`. */
  predicate Fits(p: Patience, before: seq<Byte>, bytes: seq<Byte>)
  {
    var n := |before| + |bytes|;
    p.Endless? || bytes == [] || n < p.octets || (n == p.octets && !p.failsFull)
  }

  /** What it takes of them. */
  function Taken(p: Patience, before: seq<Byte>, bytes: seq<Byte>): seq<Byte>
  {
    if Fits(p, before, bytes) then bytes
    else bytes[..if |before| < p.octets then p.octets - |before| else 0]
  }

  /** `bytes` were written after `before`, successfully if and only if the other end stayed; `after` is
      all that it has got then. */
  predicate Written(p: Patience, before: seq<Byte>, after: seq<Byte>, ok: bool, bytes: seq<Byte>)
  {
    ok == Fits(p, before, bytes) && after == before + Taken(p, before, bytes)
  }

  /** The write half of a connection: all the bytes that the other end has received. How long that
      stays is fixed, and not known to the proxy. */
  class Writer {
    const patience: Patience
    var sent: seq<Byte>

    constructor (p: Patience)
      ensures patience == p && sent == []
    {
      patience, sent := p, [];
    }

    /** `write_all`: fails exactly where the other end no longer stays, having delivered what it takes. */
    method WriteAll(bytes: seq<Byte>) returns (ok: bool)
      modifies this
      ensures Written(patience, old(sent), sent, ok, bytes)
    {
      ok, sent := Fits(patience, sent, bytes), sent + Taken(patience, sent, bytes);
    }
  }

  lemma WrittenIff(p: Patience, before: seq<Byte>, after: seq<Byte>, ok: bool, bytes: seq<Byte>)
    requires Written(p, before, after, ok, bytes)
    ensures ok <==> Fits(p, before, bytes)
    ensures ok ==> after == before + bytes
  {
  }

  /** Two writes succeed exactly when their bytes do in one, and deliver the same. */
  lemma WrittenNext(p: Patience, before: seq<Byte>, a: seq<Byte>, b: seq<Byte>, after: seq<Byte>, ok: bool)
    requires Fits(p, before, a) && Written(p, before + a, after, ok, b)
    ensures Written(p, before, after, ok, a + b)
  {
    if !ok {
      var n := if |before + a| < p.octets then p.octets - |before + a| else 0;
      if a != [] { assert (a + b)[..|a| + n] == a + b[..n]; }
      ConcatAssoc(before, a, b[..n]);
      if a == [] { NothingBefore(b); AppendNothing(before); }
    } else {
      ConcatAssoc(before, a, b);
    }
  }

  /** A write that fails is a failure of all that was to follow. */
  lemma WrittenGone(p: Patience, before: seq<Byte>, a: seq<Byte>, total: seq<Byte>, after: seq<Byte>)
    requires Written(p, before, after, false, a) && a <= total
    ensures Written(p, before, after, false, total)
  {
  }

  /** How a loop ended: it returned, or a write to the client failed. */
  datatype Outcome = Returned(fault: Option<Fault>) | ClientGone

  /** If the client stays for them it has received `bytes`, and the loop returned with `fault`; otherwise
      it has received what it takes of them, and the loop ended with the failed write. */
  predicate Delivered(p: Patience, before: seq<Byte>, after: seq<Byte>, o: Outcome, bytes: seq<Byte>,
                      fault: Option<Fault>)
  {
    Written(p, before, after, o.Returned?, bytes) && (o.Returned? ==> o.fault == fault)
  }

  lemma DeliveredNext(p: Patience, before: seq<Byte>, done: seq<Byte>, bytes: seq<Byte>,
                      after: seq<Byte>, o: Outcome, fault: Option<Fault>)
    requires Fits(p, before, done) && Delivered(p, before + done, after, o, bytes, fault)
    ensures Delivered(p, before, after, o, done + bytes, fault)
  {
    WrittenNext(p, before, done, bytes, after, o.Returned?);
  }

  lemma DeliveredGone(p: Patience, before: seq<Byte>, bytes: seq<Byte>, total: seq<Byte>, after: seq<Byte>,
                      fault: Option<Fault>)
    requires Written(p, before, after, false, bytes) && bytes <= total
    ensures Delivered(p, before, after, ClientGone, total, fault)
  {
    WrittenGone(p, before, bytes, total, after);
  }

  // ----- The copy loop of the fixed-length and chunked routes -----

  function Min(a: nat, b: nat): nat { if a < b then a else b }

  /** Forwards `len` bytes, or all there are, in pieces of at most `BUFFER_SIZE`. */
  method CopyUpTo(reader: Reader, writer: Writer, len: nat) returns (ok: bool)
    modifies reader, writer
    ensures var n := Min(len, |old(reader.unread)|);
            && Written(writer.patience, old(writer.sent), writer.sent, ok, old(reader.unread)[..n])
            && (ok ==> reader.unread == old(reader.unread)[n..])
  {
    ghost var input, before, p := reader.unread, writer.sent, writer.patience;
    ghost var n := Min(len, |input|);
    var remaining := len;
    var buf := new Byte[BUFFER_SIZE](_ => '\0');
    NothingWritten(p, before, input);
    while remaining > 0
      invariant len - remaining <= n && remaining <= len
      invariant fresh(buf) && buf.Length == BUFFER_SIZE
      invariant Written(p, before, writer.sent, true, input[..len - remaining])
      invariant reader.unread == input[len - remaining..]
    {
      var toRead := Min(remaining, BUFFER_SIZE);
      ghost var k := len - remaining;
      var bytesRead := reader.Read(buf, toRead);
      if bytesRead == 0 {
        break;
      }
      CopyStep(input, k, bytesRead, n);
      var written := writer.WriteAll(buf[..bytesRead]);
      WrittenNext(p, before, input[..k], input[k..k + bytesRead], writer.sent, written);
      if !written {
        WrittenGone(p, before, input[..k + bytesRead], input[..n], writer.sent);
        return false;
      }
      remaining := remaining - bytesRead;
    }
    return true;
  }

  lemma NothingWritten(p: Patience, before: seq<Byte>, input: seq<Byte>)
    ensures input[..0] == [] && Written(p, before, before, true, [])
  {
    AppendNothing(before);
  }

  lemma CopyStep(input: seq<Byte>, k: nat, m: nat, n: nat)
    requires k <= n <= |input| && m <= |input[k..]|
    ensures input[k..][..m] == input[k..k + m] && input[k..][m..] == input[k + m..]
    ensures input[..k] + input[k..k + m] == input[..k + m]
  {
  }

  /** `tokio::io::copy`: forwards everything up to the end of input. */
  method CopyToEnd(reader: Reader, writer: Writer) returns (ok: bool)
    modifies reader, writer
    ensures Written(writer.patience, old(writer.sent), writer.sent, ok, old(reader.unread))
    ensures ok ==> reader.unread == []
  {
    ghost var input, before, p := reader.unread, writer.sent, writer.patience;
    ghost var k := 0;
    var buf := new Byte[BUFFER_SIZE](_ => '\0');
    NothingWritten(p, before, input);
    while true
      invariant fresh(buf) && buf.Length == BUFFER_SIZE && k <= |input|
      invariant Written(p, before, writer.sent, true, input[..k]) && reader.unread == input[k..]
      decreases |input| - k
    {
      var bytesRead := reader.Read(buf, BUFFER_SIZE);
      if bytesRead == 0 {
        assert k == |input| && input[..k] == input;
        return true;
      }
      CopyStep(input, k, bytesRead, |input|);
      var written := writer.WriteAll(buf[..bytesRead]);
      WrittenNext(p, before, input[..k], input[k..k + bytesRead], writer.sent, written);
      if !written {
        WrittenGone(p, before, input[..k + bytesRead], input, writer.sent);
        return false;
      }
      k := k + bytesRead;
    }
  }

  // ----- Chunked bodies -----

  function PassageFault(p: Passage): Option<Fault>
  {
    match p
    case Passed(_, _) => None
    case Broken(_, fault) => Some(fault)
  }

  /** What is forwarded of a chunk, its line ending included, and the fault when it is cut short. */
  function ChunkBytes(after: seq<Byte>, size: nat): seq<Byte>
  {
    if |after| < size + 2 then after[..Min(size, |after|)] else after[..size + 2]
  }

  function ChunkFault(after: seq<Byte>, size: nat): Option<Fault>
  {
    if |after| < size + 2 then Some(UnexpectedEof) else None
  }

  /** The part of `pass_through_chunked` that forwards the data of one chunk and its line ending. */
  method ForwardChunk(reader: Reader, writer: Writer, size: nat) returns (o: Outcome)
    modifies reader, writer
    ensures var after, p := old(reader.unread), writer.patience;
            && Delivered(p, old(writer.sent), writer.sent, o, ChunkBytes(after, size), ChunkFault(after, size))
            && (o == Returned(None) ==> reader.unread == after[size + 2..])
  {
    ghost var after, before, p := reader.unread, writer.sent, writer.patience;
    ghost var n := Min(size, |after|);
    ghost var total := ChunkBytes(after, size);
    var ok := CopyUpTo(reader, writer, size);
    if !ok {
      assert |after| >= size + 2 ==> after[..n] <= after[..size + 2];
      DeliveredGone(p, before, after[..n], total, writer.sent, ChunkFault(after, size));
      return ClientGone;
    }
    var crlf := reader.ReadExact(2);
    if crlf.None? {
      return Returned(Some(UnexpectedEof));
    }
    assert after[..size] + after[size..][..2] == after[..size + 2] && after[size..][2..] == after[size + 2..];
    ok := writer.WriteAll(crlf.value);
    WrittenNext(p, before, after[..size], crlf.value, writer.sent, ok);
    o := if ok then Returned(None) else ClientGone;
  }

  /** The part of `pass_through_chunked` that forwards the one line after the zero chunk. */
  method ForwardTrailer(reader: Reader, writer: Writer) returns (o: Outcome)
    modifies reader, writer
    ensures Delivered(writer.patience, old(writer.sent), writer.sent, o, FirstLine(old(reader.unread)), None)
    ensures reader.unread == AfterLine(old(reader.unread))
  {
    var trailer := reader.ReadLine();
    var ok := writer.WriteAll(trailer);
    o := if ok then Returned(None) else ClientGone;
  }

  /** One pass of the loop of `pass_through_chunked`: the loop goes on after a complete chunk,
      having forwarded `bytes`. */
  method ForwardNext(reader: Reader, writer: Writer) returns (o: Outcome, more: bool, ghost bytes: seq<Byte>)
    modifies reader, writer
    ensures more ==>
              && Written(writer.patience, old(writer.sent), writer.sent, true, bytes)
              && |reader.unread| < |old(reader.unread)|
              && PassChunked(old(reader.unread)) == SentFirst(bytes, PassChunked(reader.unread))
    ensures !more ==>
              var p := PassChunked(old(reader.unread));
              && Delivered(writer.patience, old(writer.sent), writer.sent, o, p.sent, PassageFault(p))
              && (o == Returned(None) ==> reader.unread == p.rest)
  {
    hide PassChunked, ParseChunkSize, Written, Fits;
    ghost var s, before, p := reader.unread, writer.sent, writer.patience;
    ghost var total, fault := PassChunked(s).sent, PassageFault(PassChunked(s));
    more, bytes := false, [];
    var sizeLine := reader.ReadLine();
    ghost var after := reader.unread;
    ForwardedEnd(s);
    if sizeLine == [] {
      NothingWritten(p, before, []);
      return Returned(None), false, [];
    }
    LineSentFirst(s);
    var ok := writer.WriteAll(sizeLine);
    if !ok {
      DeliveredGone(p, before, sizeLine, total, writer.sent, fault);
      return ClientGone, false, [];
    }
    WrittenIff(p, before, writer.sent, true, sizeLine);
    var chunkSize := ParseChunkSize(sizeLine);
    if chunkSize.None? {
      return Returned(Some(InvalidData)), false, [];
    }
    if chunkSize.value == 0 {
      o := ForwardTrailer(reader, writer);
      DeliveredNext(p, before, sizeLine, FirstLine(after), writer.sent, o, None);
      return;
    }
    o := ForwardChunk(reader, writer, chunkSize.value);
    bytes := sizeLine + ChunkBytes(after, chunkSize.value);
    ForwardedStep(s, chunkSize.value);
    DeliveredNext(p, before, sizeLine, ChunkBytes(after, chunkSize.value), writer.sent, o,
                  ChunkFault(after, chunkSize.value));
    if o.ClientGone? {
      DeliveredGone(p, before, bytes, total, writer.sent, fault);
    }
    more := o == Returned(None);
  }

  /** `pass_through_chunked`. */
  method PassThroughChunked(reader: Reader, writer: Writer) returns (o: Outcome)
    modifies reader, writer
    ensures var p := PassChunked(old(reader.unread));
            && Delivered(writer.patience, old(writer.sent), writer.sent, o, p.sent, PassageFault(p))
            && (o == Returned(None) ==> reader.unread == p.rest)
  {
    hide PassChunked, Fits, Written;
    ghost var input, before, done, patience := reader.unread, writer.sent, [], writer.patience;
    NothingWritten(patience, before, input);
    SentFirstNothing(PassChunked(input));
    while true
      invariant Written(patience, before, writer.sent, true, done)
      invariant PassChunked(input) == SentFirst(done, PassChunked(reader.unread))
      decreases |reader.unread|
    {
      ghost var p := PassChunked(reader.unread);
      WrittenIff(patience, before, writer.sent, true, done);
      var more;
      ghost var bytes;
      o, more, bytes := ForwardNext(reader, writer);
      if !more {
        DeliveredNext(patience, before, done, p.sent, writer.sent, o, PassageFault(p));
        return;
      }
      WrittenNext(patience, before, done, bytes, writer.sent, true);
      SentFirstTwice(done, bytes, PassChunked(reader.unread));
      done := done + bytes;
    }
  }

  lemma SentFirstNothing(p: Passage)
    ensures SentFirst([], p) == p
  {
    NothingBefore(p.sent);
  }

  lemma SentFirstTwice(a: seq<Byte>, b: seq<Byte>, p: Passage)
    ensures SentFirst(a, SentFirst(b, p)) == SentFirst(a + b, p)
  {
    ConcatAssoc(a, b, p.sent);
  }

  lemma LineSentFirst(s: seq<Byte>)
    requires s != []
    ensures FirstLine(s) <= PassChunked(s).sent
  {
  }

  /** How the walk ends: at the end of input, at a malformed size, or at the zero chunk. */
  lemma ForwardedEnd(s: seq<Byte>)
    ensures var line, after, p := FirstLine(s), AfterLine(s), PassChunked(s);
            var size := ParseChunkSize(line);
            && (line == [] ==> p == Passed([], after))
            && (line != [] && size.None? ==> p == Broken(line, InvalidData))
            && (line != [] && size == Some(0) ==> p == Passed(line + FirstLine(after), AfterLine(after)))
  {
  }

  /** What one chunk contributes to the forwarded bytes. */
  lemma ForwardedStep(s: seq<Byte>, size: nat)
    requires s != [] && ParseChunkSize(FirstLine(s)) == Some(size) && 0 < size
    ensures var line, after, p := FirstLine(s), AfterLine(s), PassChunked(s);
            var bytes := line + ChunkBytes(after, size);
            && bytes <= p.sent
            && (|after| < size + 2 ==> p == Broken(bytes, UnexpectedEof))
            && (|after| >= size + 2 ==> p == SentFirst(bytes, PassChunked(after[size + 2..])))
  {
    if |AfterLine(s)| >= size + 2 {
      PassOneChunk(s, size);
    }
  }

  // ----- Buffered bodies -----

  /** The vectors that a body is buffered in: what has been collected, and the chunk being read,
      whose octets are in the body too once `copied`. `peak` is the most they have ever held. */
  class BodyBuffer {
    var body: seq<Byte>
    var chunk: seq<Byte>
    ghost var copied: bool
    ghost var peak: Held

    ghost function Now(): Held
      reads this
    {
      Held(|body| + |chunk|, |body| + if copied then 0 else |chunk|)
    }

    ghost predicate Valid()
      reads this
    {
      WithinHeld(Now(), peak) && (copied ==> |chunk| <= |body|)
    }

    ghost predicate IsEmpty()
      reads this
    {
      body == [] && chunk == [] && !copied
    }

    constructor ()
      ensures Valid() && IsEmpty() && peak == NOTHING
    {
      body, chunk, copied, peak := [], [], false, NOTHING;
    }

    /** `vec![0u8; n]`. */
    method Allocate(n: nat)
      requires Valid() && chunk == []
      modifies this
      ensures Valid() && body == old(body) && |chunk| == n && !copied
      ensures peak == MaxHeld(old(peak), Now())
    {
      chunk := seq(n, _ => '\0');
      copied := false;
      peak := MaxHeld(peak, Now());
    }

    /** `read_exact` into the chunk. */
    method Fill(reader: Reader) returns (ok: bool)
      requires Valid() && !copied
      modifies reader, this`chunk
      ensures Valid() && |chunk| == |old(chunk)|
      ensures ok <==> |chunk| <= |old(reader.unread)|
      ensures ok ==> chunk == old(reader.unread)[..|chunk|] && reader.unread == old(reader.unread)[|chunk|..]
    {
      var bytes := reader.ReadExact(|chunk|);
      ok := bytes.Some?;
      if ok {
        chunk := bytes.value;
      }
    }

    /** `body.extend_from_slice(&chunk)`. */
    method Append()
      requires Valid() && !copied
      modifies this
      ensures Valid() && body == old(body) + chunk && chunk == old(chunk) && copied
      ensures peak == MaxHeld(old(peak), Now())
    {
      body := body + chunk;
      copied := true;
      peak := MaxHeld(peak, Now());
    }

    /** The chunk goes out of scope. */
    method Release()
      requires Valid()
      modifies this
      ensures Valid() && body == old(body) && chunk == [] && !copied && peak == old(peak)
    {
      chunk, copied := [], false;
    }

    /** The body goes out of scope. */
    method Clear()
      requires Valid()
      modifies this
      ensures Valid() && IsEmpty() && peak == old(peak)
    {
      body, chunk, copied := [], [], false;
    }
  }

  /** Decoding `s` after `body`, with at most `peak` held before, has the result and peak of decoding `input`. */
  ghost predicate DecodesAs(input: seq<Byte>, before: Held, s: seq<Byte>, body: seq<Byte>, peak: Held, maxSize: nat)
  {
    && ReadChunked(input, [], maxSize) == ReadChunked(s, body, maxSize)
    && MaxHeld(before, PeakHeld(input, 0, maxSize)) == MaxHeld(peak, PeakHeld(s, |body|, maxSize))
  }

  /** A pass of the loop that returns before a chunk is read. */
  lemma DecodeEnds(s: seq<Byte>, body: seq<Byte>, maxSize: nat)
    requires |body| <= maxSize <= USIZE_MAX
    ensures var after, size := AfterLine(s), ParseChunkSize(FirstLine(s));
            && (s == [] ==> ReadChunked(s, body, maxSize) == Ok(Buffered(body, after)))
            && (s != [] && size.None? ==> ReadChunked(s, body, maxSize) == Err(InvalidData))
            && (s != [] && size == Some(0) ==> ReadChunked(s, body, maxSize) == Ok(Buffered(body, AfterLine(after))))
            && (s != [] && size.Some? && |body| + size.value > maxSize ==>
                  ReadChunked(s, body, maxSize) ==
                  Err(if |body| + size.value > USIZE_MAX then Panicked else InvalidData))
            && (s == [] || size.None? || size == Some(0) || |body| + size.value > maxSize ==>
                  PeakHeld(s, |body|, maxSize) == Held(|body|, |body|))
  {
    hide ParseChunkSize;
  }

  /** A pass of the loop that reads a chunk, with what the buffer holds then. */
  lemma DecodeGoesOn(s: seq<Byte>, size: nat, body: seq<Byte>, maxSize: nat)
    requires s != [] && ParseChunkSize(FirstLine(s)) == Some(size) && 0 < size && |body| + size <= maxSize <= USIZE_MAX
    ensures var after := AfterLine(s);
            && (|after| < size + 2 ==>
                  && ReadChunked(s, body, maxSize) == Err(UnexpectedEof)
                  && PeakHeld(s, |body|, maxSize) == ChunkHeld(after, size, |body|))
            && (size + 2 <= |after| ==>
                  && ReadChunked(s, body, maxSize) == ReadChunked(after[size + 2..], body + after[..size], maxSize)
                  && PeakHeld(s, |body|, maxSize) ==
                     MaxHeld(ChunkHeld(after, size, |body|), PeakHeld(after[size + 2..], |body| + size, maxSize)))
  {
    hide ParseChunkSize, LineEnd, ChunkHeld, MaxHeld;
    PeakOfChunk(s, size, |body|, maxSize);
    hide PeakHeld;
    if size + 2 <= |AfterLine(s)| {
      hide ReadChunked;
      ReadOneChunk(s, size, body, maxSize);
    }
  }

  /** The part of `read_chunked_body` that buffers the data of one chunk. */
  method BufferChunk(reader: Reader, buffer: BodyBuffer, size: nat) returns (ok: bool)
    requires buffer.Valid() && buffer.chunk == []
    modifies reader, buffer
    ensures buffer.Valid() && (ok <==> size + 2 <= |old(reader.unread)|)
    ensures buffer.peak == MaxHeld(old(buffer.peak), ChunkHeld(old(reader.unread), size, |old(buffer.body)|))
    ensures ok ==> buffer.body == old(buffer.body) + old(reader.unread)[..size] && buffer.chunk == [] && !buffer.copied
    ensures ok ==> reader.unread == old(reader.unread)[size + 2..]
  {
    ghost var after := reader.unread;
    buffer.Allocate(size);
    ok := buffer.Fill(reader);
    if !ok {
      return;
    }
    buffer.Append();
    var crlf := reader.ReadExact(2);
    if crlf.None? {
      return false;
    }
    buffer.Release();
    assert after[size..][2..] == after[size + 2..];
  }

  /** `read_chunked_body`: the result is that of the decoder, and the most the buffer has held is
      what the decoder holds at most, or what the buffer held before. */
  method ReadChunkedBody(reader: Reader, buffer: BodyBuffer, maxSize: nat) returns (r: Result<seq<Byte>>)
    requires maxSize <= USIZE_MAX && buffer.Valid() && buffer.IsEmpty()
    modifies reader, buffer
    ensures match ReadChunked(old(reader.unread), [], maxSize)
            case Ok(b) => r == Ok(b.body) && reader.unread == b.rest
            case Err(fault) => r == Err(fault)
    ensures buffer.Valid() && (r.Ok? ==> r.value == buffer.body)
    ensures buffer.peak == MaxHeld(old(buffer.peak), PeakHeld(old(reader.unread), 0, maxSize))
  {
    hide ParseChunkSize, ReadChunked, PeakHeld;
    ghost var input, before := reader.unread, buffer.peak;
    while true
      invariant buffer.Valid() && buffer.chunk == [] && !buffer.copied && |buffer.body| <= maxSize
      invariant DecodesAs(input, before, reader.unread, buffer.body, buffer.peak, maxSize)
      decreases |reader.unread|
    {
      ghost var s, body := reader.unread, buffer.body;
      DecodeEnds(s, body, maxSize);
      var sizeLine := reader.ReadLine();
      if sizeLine == [] {
        return Ok(buffer.body);
      }
      var chunkSize := ParseChunkSize(sizeLine);
      if chunkSize.None? {
        return Err(InvalidData);
      }
      if chunkSize.value == 0 {
        var _ := reader.ReadLine();
        return Ok(buffer.body);
      }
      if |buffer.body| + chunkSize.value > USIZE_MAX {
        return Err(Panicked);
      }
      if |buffer.body| + chunkSize.value > maxSize {
        return Err(InvalidData);
      }
      DecodeGoesOn(s, chunkSize.value, body, maxSize);
      var ok := BufferChunk(reader, buffer, chunkSize.value);
      if !ok {
        return Err(UnexpectedEof);
      }
    }
  }

  /** `write_chunked_body`. */
  method WriteChunkedBody(writer: Writer, body: seq<Byte>) returns (ok: bool)
    modifies writer
    ensures Written(writer.patience, old(writer.sent), writer.sent, ok, EncodeChunked(body))
  {
    hide EncodeChunked;
    ghost var before, total, p := writer.sent, EncodeChunked(body), writer.patience;
    var sizeLine := Print(|body|, 16) + CRLF;
    EncodedParts(sizeLine, body);
    PartsArePrefixes(sizeLine, body, CRLF, LAST_CHUNK);
    ok := writer.WriteAll(sizeLine);
    if !ok { WrittenGone(p, before, sizeLine, total, writer.sent); return; }
    ok := writer.WriteAll(body);
    WrittenNext(p, before, sizeLine, body, writer.sent, ok);
    if !ok { WrittenGone(p, before, sizeLine + body, total, writer.sent); return; }
    ok := writer.WriteAll(CRLF);
    WrittenNext(p, before, sizeLine + body, CRLF, writer.sent, ok);
    if !ok { WrittenGone(p, before, sizeLine + body + CRLF, total, writer.sent); return; }
    ok := writer.WriteAll(LAST_CHUNK);
    WrittenNext(p, before, sizeLine + body + CRLF, LAST_CHUNK, writer.sent, ok);
  }

  lemma EncodedParts(sizeLine: seq<Byte>, body: seq<Byte>)
    requires sizeLine == Print(|body|, 16) + CRLF
    ensures EncodeChunked(body) == sizeLine + body + CRLF + LAST_CHUNK
  {
    ConcatAssoc(sizeLine, body, CRLF);
  }

  lemma PartsArePrefixes(a: seq<Byte>, b: seq<Byte>, c: seq<Byte>, d: seq<Byte>)
    ensures a <= a + b + c + d && a + b <= a + b + c + d && a + b + c <= a + b + c + d
  {
  }

  // ----- One response -----

  /** The header loop: reads lines up to a blank one, keeping them and scanning each. */
  method ReadHeaders(reader: Reader) returns (raw: seq<Byte>, framing: Framing, closed: bool)
    modifies reader
    ensures match ReadHead(old(reader.unread), NO_FRAMING)
            case Incomplete => closed
            case Complete(r, f, rest) => !closed && raw == r && framing == f && reader.unread == rest
  {
    ghost var input := reader.unread;
    raw, framing := [], NO_FRAMING;
    while true
      invariant ReadHead(input, NO_FRAMING) == Prepend(raw, ReadHead(reader.unread, framing))
      decreases |reader.unread|
    {
      ghost var s, f := reader.unread, framing;
      var line := reader.ReadLine();
      if line == [] {
        return raw, framing, true;
      }
      var text := Lossy(line);
      if IsContentLength(text) {
        framing := framing.(contentLength := LengthField(text));
      }
      if AnnouncesChunked(text) {
        framing := framing.(chunked := true);
      }
      PrependTwice(raw, line, ReadHead(reader.unread, framing));
      raw := raw + line;
      if IsBlank(line) {
        return raw, framing, false;
      }
    }
  }

  lemma PrependTwice(a: seq<Byte>, b: seq<Byte>, h: Head)
    ensures Prepend(a, Prepend(b, h)) == Prepend(a + b, h)
  {
    if h.Complete? { ConcatAssoc(a, b, h.raw); }
  }

  function ReplySent(r: Reply): seq<Byte>
  {
    match r
    case Closed(_) => []
    case Streamed(sent) => sent
    case Relayed(sent, _) => sent
    case Failed(sent, _) => sent
  }

  function ReplyFault(r: Reply): Option<Fault>
  {
    if r.Failed? then Some(r.fault) else None
  }

  lemma PrefixOfBoth(a: seq<Byte>, b: seq<Byte>)
    ensures a <= a + b
  {
  }

  /** The streaming route: everything up to the end of input. */
  method StreamResponse(reader: Reader, writer: Writer, raw: seq<Byte>) returns (o: Outcome)
    modifies reader, writer
    ensures Delivered(writer.patience, old(writer.sent), writer.sent, o, raw + old(reader.unread), None)
  {
    ghost var before, body, p := writer.sent, reader.unread, writer.patience;
    var ok := writer.WriteAll(raw);
    if !ok {
      PrefixOfBoth(raw, body);
      DeliveredGone(p, before, raw, raw + body, writer.sent, None);
      return ClientGone;
    }
    ok := CopyToEnd(reader, writer);
    o := if ok then Returned(None) else ClientGone;
    DeliveredNext(p, before, raw, body, writer.sent, o, None);
  }

  /** The pass-through routes. */
  method PassResponse(reader: Reader, writer: Writer, raw: seq<Byte>, f: Framing) returns (o: Outcome)
    requires IsDelimited(f)
    modifies reader, writer
    ensures var r := PassReply(raw, f, old(reader.unread));
            && Delivered(writer.patience, old(writer.sent), writer.sent, o, ReplySent(r), ReplyFault(r))
            && (o == Returned(None) ==> r.Relayed? && reader.unread == r.rest)
  {
    ghost var before, input, p := writer.sent, reader.unread, writer.patience;
    ghost var body := if f.chunked then PassChunked(input).sent else input[..Min(|input|, f.contentLength.value)];
    ghost var fault := ReplyFault(PassReply(raw, f, input));
    var ok := writer.WriteAll(raw);
    if !ok {
      PrefixOfBoth(raw, body);
      DeliveredGone(p, before, raw, raw + body, writer.sent, fault);
      return ClientGone;
    }
    if f.chunked {
      o := PassThroughChunked(reader, writer);
    } else {
      ok := CopyUpTo(reader, writer, f.contentLength.value);
      o := if ok then Returned(None) else ClientGone;
    }
    DeliveredNext(p, before, raw, body, writer.sent, o, fault);
  }

  /** The buffering part of the rewrite route. */
  method BufferResponse(reader: Reader, buffer: BodyBuffer, f: Framing) returns (r: Result<seq<Byte>>)
    requires IsDelimited(f) && buffer.Valid()
    modifies reader, buffer
    ensures match BufferBody(f, old(reader.unread))
            case Ok(b) => r == Ok(b.body) && reader.unread == b.rest
            case Err(fault) => r == Err(fault)
    ensures buffer.Valid() && (r.Ok? ==> r.value == if f.chunked then buffer.body else buffer.chunk)
    ensures buffer.peak == MaxHeld(old(buffer.peak), BodyPeak(f, old(reader.unread)))
  {
    buffer.Clear();
    if f.chunked {
      r := ReadChunkedBody(reader, buffer, MAX_REWRITABLE_BODY_SIZE);
    } else {
      buffer.Allocate(f.contentLength.value);
      var filled := buffer.Fill(reader);
      r := if filled then Ok(buffer.chunk) else Err(UnexpectedEof);
    }
  }

  /** The rewrite route: buffer, substitute, fix the header, send. */
  method RewriteResponse(reader: Reader, writer: Writer, buffer: BodyBuffer, raw: seq<Byte>, f: Framing,
                         origin: seq<Byte>, proxy: seq<Byte>)
    returns (o: Outcome)
    requires IsRewritten(raw, f) && origin != [] && buffer.Valid()
    modifies reader, writer, buffer
    ensures var r := RewriteReply(raw, f, old(reader.unread), origin, proxy);
            && Delivered(writer.patience, old(writer.sent), writer.sent, o, ReplySent(r), ReplyFault(r))
            && (o == Returned(None) ==> r.Relayed? && reader.unread == r.rest)
            && (r.Failed? ==> writer.sent == old(writer.sent))
    ensures buffer.Valid() && buffer.peak == MaxHeld(old(buffer.peak), BodyPeak(f, old(reader.unread)))
  {
    hide Replace, Lossy, Updated, BufferBody, EncodeChunked, BodyPeak, Fits;
    ghost var before, input, p := writer.sent, reader.unread, writer.patience;
    var r := BufferResponse(reader, buffer, f);
    if r.Err? {
      NothingWritten(p, before, []);
      return Returned(Some(r.fault));
    }
    var body := r.value;
    var rewritten := Replace(Lossy(body), origin, proxy);
    var head;
    if f.contentLength.Some? && |rewritten| != |body| {
      head := UpdateContentLength(Lossy(raw), |rewritten|);
    } else {
      head := Lossy(raw);
    }
    ghost var encoded := if f.chunked then EncodeChunked(rewritten) else rewritten;
    var ok := writer.WriteAll(head);
    if !ok {
      PrefixOfBoth(head, encoded);
      DeliveredGone(p, before, head, head + encoded, writer.sent, None);
      return ClientGone;
    }
    if f.chunked {
      ok := WriteChunkedBody(writer, rewritten);
    } else {
      ok := writer.WriteAll(rewritten);
    }
    o := if ok then Returned(None) else ClientGone;
    DeliveredNext(p, before, head, encoded, writer.sent, o, None);
  }

  // ----- The connection loop -----

  /** The most held for `s` with a client that has received `before`: for all responses up to the one
      during whose delivery it is lost, that one included. */
  function HeldUntil(p: Patience, before: seq<Byte>, s: seq<Byte>, origin: seq<Byte>, proxy: seq<Byte>): Held
    requires origin != []
    decreases |s|
  {
    match Respond(s, origin, proxy)
    case Relayed(sent, rest) =>
      RespondConsumes(s, origin, proxy);
      if Fits(p, before, sent) then MaxHeld(ReplyPeak(s), HeldUntil(p, before + sent, rest, origin, proxy))
      else ReplyPeak(s)
    case _ => ReplyPeak(s)
  }

  /** Never more than for a client that stays, and as much if it does. */
  lemma {:induction false} HeldUntilEnd(p: Patience, before: seq<Byte>, s: seq<Byte>,
                                        origin: seq<Byte>, proxy: seq<Byte>)
    requires origin != []
    ensures WithinHeld(HeldUntil(p, before, s, origin, proxy), ServePeak(s, origin, proxy))
    ensures Fits(p, before, Serve(s, origin, proxy).sent) ==>
              HeldUntil(p, before, s, origin, proxy) == ServePeak(s, origin, proxy)
    decreases |s|
  {
    hide Respond, ReplyPeak;
    var r := Respond(s, origin, proxy);
    if r.Relayed? {
      RespondConsumes(s, origin, proxy);
      ServeRelayed(s, origin, proxy);
      FitsBoth(p, before, r.sent, Serve(r.rest, origin, proxy).sent);
      HeldUntilEnd(p, before + r.sent, r.rest, origin, proxy);
    }
  }

  lemma FitsBoth(p: Patience, before: seq<Byte>, a: seq<Byte>, b: seq<Byte>)
    ensures Fits(p, before, a + b) <==> Fits(p, before, a) && Fits(p, before + a, b)
  {
  }

  /** One pass of the loop of `proxy_response_with_rewrite`: the loop goes on after a relayed response. */
  method AnswerNext(reader: Reader, writer: Writer, buffer: BodyBuffer, origin: seq<Byte>, proxy: seq<Byte>)
    returns (o: Outcome, more: bool)
    requires origin != [] && buffer.Valid()
    modifies reader, writer, buffer
    ensures var r := Respond(old(reader.unread), origin, proxy);
            && Delivered(writer.patience, old(writer.sent), writer.sent, o, ReplySent(r), ReplyFault(r))
            && (more <==> o.Returned? && r.Relayed?) && (more ==> reader.unread == r.rest)
    ensures buffer.Valid() && buffer.peak == MaxHeld(old(buffer.peak), ReplyPeak(old(reader.unread)))
  {
    hide Respond, ReplyPeak, BodyPeak, Fits, Written, PassReply, RewriteReply;
    ghost var s := reader.unread;
    NothingWritten(writer.patience, writer.sent, []);
    ReplyOf(s, origin, proxy);
    var raw, framing, closed := ReadHeaders(reader);
    if closed {
      return Returned(None), false;
    }
    if !framing.chunked && framing.contentLength.None? {
      o := StreamResponse(reader, writer, raw);
      return o, false;
    }
    if IsRewritten(raw, framing) {
      o := RewriteResponse(reader, writer, buffer, raw, framing, origin, proxy);
    } else {
      o := PassResponse(reader, writer, raw, framing);
    }
    more := o == Returned(None);
  }

  /** `proxy_response_with_rewrite`: for every input, every segmentation of its delivery and every
      client, the client receives what `Serve` specifies and the loop returns its fault, if the client
      stays for all of it; otherwise it receives exactly what it stays for, and the loop ends there.
      The most held in the buffer is exactly what it takes to get so far. */
  method ProxyResponses(reader: Reader, writer: Writer, buffer: BodyBuffer, origin: seq<Byte>, proxy: seq<Byte>)
    returns (o: Outcome)
    requires origin != [] && buffer.Valid() && buffer.peak == NOTHING
    modifies reader, writer, buffer
    ensures var served := Serve(old(reader.unread), origin, proxy);
            Delivered(writer.patience, old(writer.sent), writer.sent, o, served.sent, served.fault)
    ensures buffer.Valid()
    ensures buffer.peak == HeldUntil(writer.patience, old(writer.sent), old(reader.unread), origin, proxy)
    ensures o.Returned? ==> buffer.peak == ServePeak(old(reader.unread), origin, proxy)
    ensures WithinHeld(buffer.peak, Held(2 * MAX_REWRITABLE_BODY_SIZE, MAX_REWRITABLE_BODY_SIZE))
  {
    hide Respond, Serve, ServePeak, HeldUntil, ReplyPeak, Fits, Written;
    ghost var input, before, done, p := reader.unread, writer.sent, [], writer.patience;
    ghost var served := Serve(input, origin, proxy);
    ServeWithinLimit(input, origin, proxy);
    HeldUntilEnd(p, before, input, origin, proxy);
    NothingWritten(p, before, input);
    NothingBefore(served.sent);
    while true
      invariant Written(p, before, writer.sent, true, done) && buffer.Valid()
      invariant ServedAfter(input, done, reader.unread, origin, proxy)
      invariant HeldAfter(p, before, input, buffer.peak, writer.sent, reader.unread, origin, proxy)
      decreases |reader.unread|
    {
      ghost var s, sent := reader.unread, writer.sent;
      ghost var r := Respond(s, origin, proxy);
      WrittenIff(p, before, sent, true, done);
      ServedReply(input, done, s, origin, proxy);
      HeldReply(p, before, input, buffer.peak, sent, s, origin, proxy);
      var more;
      o, more := AnswerNext(reader, writer, buffer, origin, proxy);
      WrittenIff(p, sent, writer.sent, o.Returned?, ReplySent(r));
      DeliveredNext(p, before, done, ReplySent(r), writer.sent, o, ReplyFault(r));
      if !more {
        if o.ClientGone? {
          DeliveredGone(p, before, done + ReplySent(r), served.sent, writer.sent, served.fault);
        } else {
          WrittenIff(p, before, writer.sent, true, served.sent);
        }
        return;
      }
      RespondConsumes(s, origin, proxy);
      done := done + r.sent;
    }
  }

  lemma ReplyOf(s: seq<Byte>, origin: seq<Byte>, proxy: seq<Byte>)
    requires origin != []
    ensures match ReadHead(s, NO_FRAMING)
            case Incomplete => Respond(s, origin, proxy) == Closed(s) && ReplyPeak(s) == NOTHING
            case Complete(raw, f, rest) =>
              if !IsDelimited(f) then Respond(s, origin, proxy) == Streamed(raw + rest) && ReplyPeak(s) == NOTHING
              else if IsRewritten(raw, f) then
                && Respond(s, origin, proxy) == RewriteReply(raw, f, rest, origin, proxy)
                && ReplyPeak(s) == BodyPeak(f, rest)
              else
                Respond(s, origin, proxy) == PassReply(raw, f, rest) && ReplyPeak(s) == NOTHING
  {
  }

  /** The output for `input` is what is `done`, then the output for the `unread` rest. */
  ghost predicate ServedAfter(input: seq<Byte>, done: seq<Byte>, unread: seq<Byte>, origin: seq<Byte>, proxy: seq<Byte>)
    requires origin != []
  {
    var more := Serve(unread, origin, proxy);
    && Serve(input, origin, proxy).sent == done + more.sent
    && Serve(input, origin, proxy).fault == more.fault
  }

  /** The most held for `input` is `peak`, or what is held for the `unread` rest. */
  ghost predicate HeldAfter(p: Patience, before: seq<Byte>, input: seq<Byte>, peak: Held,
                            sent: seq<Byte>, unread: seq<Byte>, origin: seq<Byte>, proxy: seq<Byte>)
    requires origin != []
  {
    HeldUntil(p, before, input, origin, proxy) == MaxHeld(peak, HeldUntil(p, sent, unread, origin, proxy))
  }

  lemma ServedReply(input: seq<Byte>, done: seq<Byte>, s: seq<Byte>, origin: seq<Byte>, proxy: seq<Byte>)
    requires origin != [] && ServedAfter(input, done, s, origin, proxy)
    ensures var r := Respond(s, origin, proxy); var served := Serve(input, origin, proxy);
            && done + ReplySent(r) <= served.sent
            && (!r.Relayed? ==> served.sent == done + ReplySent(r) && served.fault == ReplyFault(r))
            && (r.Relayed? ==> ServedAfter(input, done + r.sent, r.rest, origin, proxy))
  {
    hide Respond;
    var r := Respond(s, origin, proxy);
    if r.Relayed? {
      ServeRelayed(s, origin, proxy);
      ConcatAssoc(done, r.sent, Serve(r.rest, origin, proxy).sent);
    }
  }

  lemma HeldReply(p: Patience, before: seq<Byte>, input: seq<Byte>, peak: Held, sent: seq<Byte>, s: seq<Byte>,
                  origin: seq<Byte>, proxy: seq<Byte>)
    requires origin != [] && HeldAfter(p, before, input, peak, sent, s, origin, proxy)
    ensures var r, now := Respond(s, origin, proxy), MaxHeld(peak, ReplyPeak(s));
            if r.Relayed? && Fits(p, sent, r.sent)
            then HeldAfter(p, before, input, now, sent + r.sent, r.rest, origin, proxy)
            else HeldUntil(p, before, input, origin, proxy) == now
  {
    hide Respond, ReplyPeak, Fits;
  }

  // ----- The proxy object -----

  class TcpProxy {
    const originUrlBase: seq<Byte>
    const proxyUrlBase: seq<Byte>

    constructor (originAddr: SocketAddr, proxyAddr: SocketAddr)
      ensures originUrlBase == UrlBase(originAddr) && proxyUrlBase == UrlBase(proxyAddr)
    {
      originUrlBase := UrlBase(originAddr);
      proxyUrlBase := UrlBase(proxyAddr);
    }

    /** The client-to-origin direction of one connection. */
    method ClientToOrigin(reader: Reader, writer: Writer) returns (ok: bool)
      modifies reader, writer
      ensures Written(writer.patience, old(writer.sent), writer.sent, ok, old(reader.unread))
    {
      ok := CopyToEnd(reader, writer);
    }

    /** The origin-to-client direction. */
    method OriginToClient(reader: Reader, writer: Writer, buffer: BodyBuffer) returns (o: Outcome)
      requires originUrlBase != [] && buffer.Valid() && buffer.peak == NOTHING
      modifies reader, writer, buffer
      ensures var served := Serve(old(reader.unread), originUrlBase, proxyUrlBase);
              Delivered(writer.patience, old(writer.sent), writer.sent, o, served.sent, served.fault)
      ensures buffer.Valid() && WithinHeld(buffer.peak, Held(2 * MAX_REWRITABLE_BODY_SIZE, MAX_REWRITABLE_BODY_SIZE))
    {
      o := ProxyResponses(reader, writer, buffer, originUrlBase, proxyUrlBase);
    }
  }

  /** What the two ends of a connection have received, how the responses ended, and whether the copy of
      the requests completed. */
  datatype Exchange = Exchange(toOrigin: seq<Byte>, copied: bool, toClient: seq<Byte>, outcome: Outcome)

  lemma WrittenPrefix(p: Patience, bytes: seq<Byte>, after: seq<Byte>, ok: bool)
    requires Written(p, [], after, ok, bytes)
    ensures after <= bytes && (ok ==> after == bytes)
  {
    NothingBefore(Taken(p, [], bytes));
  }

  /** One connection from end to end, in both directions, whatever pieces the bytes arrive in. The
      origin gets the requests unchanged, and the client what `Serve` specifies, as far as each of
      them stays. So a client that stays gets well-formed responses that the proxy can carry as
      well-formed ones, exactly as their transformation; and bytes that are never rewritten unchanged,
      all of them if and only if they do not end inside a header block. The directions share no
      stream, so their order does not matter. */
  method ServeConnection(requests: seq<Byte>, input: seq<Byte>, originAddr: SocketAddr, proxyAddr: SocketAddr,
                         originStays: Patience, clientStays: Patience)
    returns (x: Exchange)
    ensures Written(originStays, [], x.toOrigin, x.copied, requests)
    ensures var served := Serve(input, UrlBase(originAddr), UrlBase(proxyAddr));
            Delivered(clientStays, [], x.toClient, x.outcome, served.sent, served.fault)
    ensures x.outcome.Returned? && ParseStream(input).Some? && AllCarried(ParseStream(input).value) ==>
              && x.outcome == Returned(None) && ParseStream(x.toClient) ==
                 Some(TransformAll(ParseStream(input).value, UrlBase(originAddr), UrlBase(proxyAddr)))
    ensures forall rs :: x.outcome.Returned? && IsStream(input, rs) &&
                         ArrivesTransformed(rs, UrlBase(originAddr), UrlBase(proxyAddr)) ==>
              && x.outcome == Returned(None)
              && IsStream(x.toClient, TransformResponses(rs, UrlBase(originAddr), UrlBase(proxyAddr)))
    ensures NeverRewritten(input) ==>
              && x.toClient <= input
              && (x.outcome == Returned(None) ==> (x.toClient == input <==> !CutInHeader(input)))
  {
    hide Fits, Taken, NeverRewritten, CutInHeader, ArrivesTransformed, AllCarried, IsStream, ParseStream, Serve;
    var proxy := new TcpProxy(originAddr, proxyAddr);
    var clientRead := new Reader(requests);
    var originWrite := new Writer(originStays);
    var copied := proxy.ClientToOrigin(clientRead, originWrite);
    var originRead := new Reader(input);
    var clientWrite := new Writer(clientStays);
    var buffer := new BodyBuffer();
    var o := proxy.OriginToClient(originRead, clientWrite, buffer);
    x := Exchange(originWrite.sent, copied, clientWrite.sent, o);
    ghost var served := Serve(input, proxy.originUrlBase, proxy.proxyUrlBase);
    NothingBefore(served.sent);
    WrittenPrefix(clientStays, served.sent, x.toClient, o.Returned?);
    if ParseStream(input).Some? {
      ConnectionRefinement(input, originAddr, proxyAddr);
    }
    forall rs | IsStream(input, rs) && ArrivesTransformed(rs, proxy.originUrlBase, proxy.proxyUrlBase)
      ensures served.fault.None?
      ensures IsStream(served.sent, TransformResponses(rs, proxy.originUrlBase, proxy.proxyUrlBase))
    {
      WellFormedRefinement(input, rs, originAddr, proxyAddr);
    }
    if NeverRewritten(input) {
      ByteTransparency(input, proxy.originUrlBase, proxy.proxyUrlBase);
    }
  }
}

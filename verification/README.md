# dlna-proxy: the rewriting proxy, its connection limiter and its advertisements

dlna-proxy puts a remote DLNA server on the local network. Its TCP proxy relays HTTP responses
and replaces the server's URL base by its own in text bodies; a limiter bounds the connections it
serves; a broadcaster advertises the server with a lifetime derived from the broadcast period.
This project models the three in Dafny and proves what they keep.

`dafny verify dfyconfig.toml` checks the whole project.

| file | content |
|---|---|
| `Bytes.dfy`, `Trimming.dfy`, `Utf8.dfy`, `Numbers.dfy` | octets, lines, splitting, searching; trimming of Unicode white space; lossy UTF-8 decoding; integers as text |
| `Unicode.dfy` | the characters behind the octets: an encoder of its own, against which decoding and trimming are proved |
| `Literals.dfy` | the texts and numbers of the source written out: digits, line endings, header names, media types, URL bases |
| `Rewriting.dfy` | URL bases and the substitution |
| `Headers.dfy` | the header scan, the content classification, the Content-Length update |
| `Chunks.dfy` | both chunk walkers, what the buffering one holds, the encoder, a stricter reference decoder, and the grammar of section 7.1 of RFC 9112 |
| `Walks.dfy` | the chunks met along any input: when the walks succeed, panic, or hold more than the limit |
| `Decoding.dfy` | what lossy decoding does to bodies and headers that are rewritten |
| `Connection.dfy` | one connection as a function of the origin's bytes: `Respond` is one pass of the loop, `Serve` the whole loop, `ServePeak` the most it holds |
| `Runs.dfy` | where the responses of a connection begin, by its input alone, and what that says of a run |
| `Refinement.dfy` | what is read back from the proxy's output, with the proxy's own header scan and the stricter decoder |
| `Lenience.dfy` | the same for every input whatsoever, bodies that the origin did not complete included |
| `Recipient.dfy` | header blocks framed after section 6.3 of RFC 9112, defined without the proxy's scan |
| `Streams.dfy` | streams of well-formed responses after RFC 9112, with statuses and trailer fields, on both sides of the proxy |
| `Routes.dfy` | which route a response takes, with the limit and the types written out; responses of known length |
| `Witnesses.dfy`, `Departures.dfy` | concrete responses and connections for the conditions found |
| `Proxy.dfy` | the loops themselves, as methods over readers, writers and a buffer, proved against the functions above |
| `Limiter.dfy` | permits, accept loop and connection handlers as a step system |
| `Freshness.dfy` | the broadcast loop and cache lifetimes |

`Refinement`, `Lenience` and `Streams` complement each other. The proxy's scan is lenient: the last
Content-Length line wins, an unparsable one means none, a coding that merely contains `chunked` counts,
sizes may carry a `+`. `Refinement` is about every stream that this scan frames completely, `Lenience` about
all inputs. `Streams` admits only what RFC 9112 does (a status line, lengths made of digits that agree, `chunked`
as the last coding or other codings up to the close, chunks and trailer fields of the grammar, no body after
1xx, 204 and 304), proves that there is one way to read it, and says exactly what a client gets of it.

The methods of `Proxy.dfy` read from a stream that may deliver its bytes in any pieces and write to
a client that stays for all bytes, or for any number of them. How long it stays is fixed and not known to
them; their contracts say exactly what it gets in either case, and that a write fails only where it leaves.
Everything is proved for every input, malformed ones included, unless a row says otherwise.

Where the code departs from its comments or documentation, the model follows the code:

- A comment (src/tcp_proxy.rs:14-15) says that bodies over the limit are passed through. A chunked
  response without a Content-Length over the limit ends the connection instead
  (`Refinement.OversizePassedIff`).
- An empty chunked body that takes the rewrite route is sent as two zero chunks. The client takes the
  second one, and everything after it, for one more response without framing
  (`Refinement.StrayParses`). Apart from the oversize chunked bodies above, these are the only
  streams without trailer fields, framed as the scan frames them, for which the client does not see the
  transformed responses (`Refinement.ConnectionRefinement`).
- After a response without body and framing fields (1xx, 204, 304), and after a chunked one with trailer
  fields that is passed through, the proxy streams: later responses arrive as they are, and not
  transformed (`Streams.ReceivedIff`, `Departures.NoContentUnrewritten`). A chunked response with trailer fields that
  is rewritten leaves the client with no stream of responses at all (`Streams.Spoiled`, `Departures.TrailerSpoils`).
- End of input at a size line counts as the end of the body (src/tcp_proxy.rs:448-450), and neither the two octets
  after a chunk nor the line after the zero chunk are looked at. So the client can get complete responses
  that the origin did not complete, and does exactly when the proxy follows the input to its end, passes nothing
  incomplete through, and some response is not complete (`Lenience.UncompletedIff`, `Departures.CutBodyCompleted`).
- The transformed responses are not always what the origin means: body and header of a rewritten
  response are decoded as UTF-8, and octets that are not UTF-8 are replaced by U+FFFD, even when there is
  no URL to rewrite. A text body in Latin-1 or a compressed XML body is damaged. The origin's own octets
  arrive, rewritten, exactly when rewritten responses are UTF-8 (`Refinement.OctetRefinement`,
  `Witnesses.Latin1NotSeen`).
- When the input ends inside a header block the loop returns normally and drops what it has read of
  the block (`Connection.DroppedIff`, `Runs.CutHeaderWitness`).
- The limit of 10 MiB bounds the octets of one body that are buffered. A chunk is copied into the body
  while its own vector is still alive, so up to twice the limit is held (`Connection.ServeWithinLimit`,
  `Witnesses.LimitReached`). What is held stays within the limit exactly when every chunk that is read fits
  twice on top of those before it (`Walks.PeakIff`, `Runs.ServeLimitIff`); chunks of 6 and 4 MiB do not
  (`Departures.TwoChunksExceed`).
- A Content-Length that is a list of values, of which a recipient may accept equal ones (section 6.3 of RFC 9112), is
  no length for the proxy: it streams the response and all that follows, of whatever type
  (`Departures.ListedLengthStreams`).
- The substitution leaves origin bases behind, for some bodies, exactly when one URL base is a prefix of
  the other, for example port 80 against port 800 of one host (`Rewriting.ReplaceCompleteIff`,
  `Departures.ClientHidesOrigin`).
- The bound check of the buffering decoder adds two `usize`. Past their range the addition panics in debug
  builds; in release builds it wraps and the allocation that follows panics. The model has a fault
  `Panicked` for both. It occurs exactly when a buffered response announces, after chunks that fit the limit,
  a size whose sum with theirs no `usize` can hold (`Walks.PanicIff`, `Runs.ServePanicIff`), for example after one
  octet the size `ffffffffffffffff` (`Departures.PanicWitness`).
- The stream timeout is documented as a read/write timeout of active streams, but the accept loop ignores it
  (src/tcp_proxy.rs:79): a connection keeps its permit until both its copies end
  (`Limiter.HeldUntilBothEnd`).
- A lifetime of twice the period tolerates a lost broadcast only if attempts take no time at all
  (`Freshness.ToleratedLossWithDelay`).

## Model

| member | source | states |
|---|---|---|
| `Bytes.FirstLineOf` | src/tcp_proxy.rs:187-191 | Reading a line off a complete line followed by anything returns that line and leaves the rest. |
| `Bytes.LineEndMeaning` | src/tcp_proxy.rs:187-191 | The line read ends at the first LF, or is all that is left when there is none. |
| `Bytes.ContainsIff` | src/tcp_proxy.rs:219-222 | The substring search succeeds exactly when the pattern begins at some position. |
| `Trimming.TrimCore` | src/tcp_proxy.rs:204 | Trimming removes exactly the white space, Unicode's included, around a core that has none at its ends, or is empty. |
| `Utf8.LossyIdentityIff` | src/tcp_proxy.rs:362 | Lossy decoding changes nothing exactly when the octets are well-formed, which is `Unicode.ValidIff`. |
| `Unicode.ValidIff` | src/tcp_proxy.rs:362 | Octets are well-formed if and only if they are the UTF-8 forms of a sequence of Unicode scalar values, encoded by division and remainder. |
| `Unicode.CharacterKept` | src/tcp_proxy.rs:362 | Every character is kept, in front of anything. |
| `Unicode.IllFormedPiece` | src/tcp_proxy.rs:362 | An ill-formed piece is the longest beginning of a character there is, or a single octet that begins none. |
| `Unicode.DecodingStep` | src/tcp_proxy.rs:362 | Each such piece becomes one U+FFFD, and decoding goes on after it. |
| `Unicode.WhiteIff` | src/tcp_proxy.rs:204 | What trimming removes are exactly the characters with the property White_Space, listed by number. |
| `Utf8.LossyIdempotent` | src/tcp_proxy.rs:285 | Decoding decoded text changes nothing, so the header that is sent reads as it was read. |
| `Utf8.LossyAtAscii` | src/tcp_proxy.rs:256 | Decoding line by line and decoding the whole block agree: decoding splits wherever an ASCII octet begins. |
| `Numbers.ParseUsizeMeaning` | src/tcp_proxy.rs:204-209 | Left-to-right checked conversion succeeds exactly on a non-empty digit run (after at most one `+`) whose positional value fits, and returns that value. |
| `Numbers.ParsePrint` | src/tcp_proxy.rs:492-493 | Parsing inverts printing for every `usize`, in radix 10 and 16. |
| `Literals.DigitTable` | src/tcp_proxy.rs:204 | The digits are 0 to 9 and the letters a to f in either case, with their values, and nothing else. |
| `Literals.UsizeRange` | src/tcp_proxy.rs:204 | The range of a `usize` ends at 18446744073709551615. |
| `Literals.PlusAccepted` | src/tcp_proxy.rs:204 | One plus sign is accepted in front of digits; two, a minus sign, and no digits at all are not. |
| `Literals.PrintIsShort` | src/tcp_proxy.rs:492 | Numbers are printed without leading zeros and with lower-case digits. |
| `Literals.DecimalIs` | src/tcp_proxy.rs:37-38 | The decimal text of a number is the only one without a leading zero that has its value. |
| `Literals.LowerLetters` | src/tcp_proxy.rs:214 | Lower-casing adds 32 to the octets 65 to 90 and to no others. |
| `Literals.FieldBetween` | src/tcp_proxy.rs:260 | The field of a line is the text between its first colon and the second, or the end. |
| `Literals.LineTexts` | src/tcp_proxy.rs:505 | A line of a text ends in LF or CR LF; a lone CR belongs to it. |
| `Chunks.ChunkSizeMeaning` | src/tcp_proxy.rs:194-210 | The chunk size is the positional hex value before the first delimiter; the failing inputs are exactly the empty, non-hex and out-of-range ones. |
| `Chunks.SizeLineParses` | src/tcp_proxy.rs:194-210 | Every size line of section 7.1 of RFC 9112 (either hex case, leading zeros, white space, extensions) parses to its value. |
| `Chunks.PrintedSizeParses` | src/tcp_proxy.rs:492-493 | Parsing inverts the printed size line for every `usize`. |
| `Rewriting.UrlBaseShape` | src/tcp_proxy.rs:36-38 | A URL base has its only `h` at the front and at most 102 octets. |
| `Literals.UrlBaseIs` | src/tcp_proxy.rs:36-38 | It is `http://`, the address, a colon, and the port in decimal. |
| `Literals.UrlRewritten` | src/tcp_proxy.rs:361-363 | A URL of the origin, in any text around it without an `h`, becomes the proxy's. |
| `Routes.UrlSeen` | src/tcp_proxy.rs:349-388 | So it does in what the client parses, of a chunked XML response and of one of known length. |
| `Rewriting.UrlBasePrefixIff` | src/tcp_proxy.rs:36-38 | For all addresses, IPv6 included: one base is a prefix of another exactly when the addresses agree and the port digits do, or the second address begins with the first, a colon and its port. |
| `Rewriting.ReplaceComplete` | src/tcp_proxy.rs:361-363 | With neither base a prefix of the other, no body keeps an occurrence of the origin base. |
| `Rewriting.ReplaceCompleteIff` | src/tcp_proxy.rs:361-363 | Rewriting removes the origin base from every body if and only if neither base is a prefix of the other. |
| `Rewriting.RewritingHidesOrigin` | src/tcp_proxy.rs:36-38 | The same for the bases built from two socket addresses. |
| `Rewriting.PrefixWitness` | src/tcp_proxy.rs:361-363 | Port 80 proxied on port 800 of the same host: the rewritten text still contains the origin base. |
| `Rewriting.ReplaceIdempotent` | src/tcp_proxy.rs:361-363 | With neither base a prefix of the other, a second rewriting changes nothing. |
| `Rewriting.ReplaceIdempotentIff` | src/tcp_proxy.rs:361-363 | A second rewriting changes nothing, for every body, if and only if neither base is a prefix of the other or they are equal. |
| `Rewriting.ReplaceRecovers` | src/tcp_proxy.rs:361-363 | Whatever the prefix relation: replacing back recovers a body if and only if an origin base begins wherever a proxy base does. |
| `Rewriting.CoveredIff` | src/tcp_proxy.rs:361-363 | The recursive form of that condition is the one over all positions. |
| `Rewriting.ReplaceAlwaysRecovers` | src/tcp_proxy.rs:361-363 | Every body is recovered if and only if the origin base is a prefix of the proxy base. |
| `Rewriting.ReplaceInverse` | src/tcp_proxy.rs:361-363 | A body free of the proxy base is recovered by the inverse replacement, whatever the prefix relation. |
| `Rewriting.ReplaceThereAndBack` | src/tcp_proxy.rs:361-363 | With neither base a prefix of the other, replacing and replacing back equals replacing the proxy base alone. |
| `Rewriting.ReplaceInverseIff` | src/tcp_proxy.rs:361-363 | With neither base a prefix of the other, the body is recovered if and only if it did not contain the proxy base. |
| `Rewriting.ReplaceFixedIff` | src/tcp_proxy.rs:361-363 | A body stays as it is if and only if it does not contain the origin base, or the bases are equal. |
| `Rewriting.ReplaceLength` | src/tcp_proxy.rs:366-367 | The length changes by the number of positions at which the origin base occurs times the difference of the bases. |
| `Decoding.ReplaceDecodes` | src/tcp_proxy.rs:361-363 | For ASCII bases, decoding and replacing may be done in either order, and replacing keeps UTF-8 what it was. |
| `Decoding.RewrittenOctets` | src/tcp_proxy.rs:361-364 | The rewritten body is the origin's octets with the bases replaced if and only if the body is UTF-8. |
| `Decoding.Latin1Witness` | src/tcp_proxy.rs:361-364 | One accented letter in Latin-1, without any URL, becomes the replacement character. |
| `Decoding.UpdatedOctets` | src/tcp_proxy.rs:285-371 | The updated header is the origin's with its length replaced if and only if its other lines are UTF-8. |
| `Headers.FramingMeaning` | src/tcp_proxy.rs:247-278 | The block ends at the first blank line; the length is that of the last Content-Length line, none if it does not parse; chunked exactly when some Transfer-Encoding line says so. |
| `Literals.NamesRead` | src/tcp_proxy.rs:259-268 | A line is a length line if it begins with `content-length:`, and announces chunks if it begins with `transfer-encoding:` and contains `chunked`, in any letter case. |
| `Literals.CodingWithoutSpace` | src/tcp_proxy.rs:266-268 | White space after the colon is not needed. |
| `Literals.KelvinSign` | src/tcp_proxy.rs:267 | The Kelvin sign stands for the k of `chunked`. |
| `Literals.BlockEnds` | src/tcp_proxy.rs:275 | A blank line in either spelling ends the block. |
| `Headers.ReadHeadLocal` | src/tcp_proxy.rs:247-278 | A header block is recognised with the same framing whatever follows it. |
| `Headers.FirstTypeDecides` | src/tcp_proxy.rs:213-229 | The verdict is that on the first Content-Type line. |
| `Literals.VerdictIff` | src/tcp_proxy.rs:213-229 | The verdict is positive if and only if the trimmed field of the first `content-type:` line, in lower case, begins with `text/` or contains `xml`, `json` or `html`. |
| `Literals.TypedVerdict` | src/tcp_proxy.rs:213-229 | So it is for a header block with any given type. |
| `Literals.DocumentTypes` | src/tcp_proxy.rs:219-222 | application/xml, application/xhtml+xml, application/json, an html type and text/plain are rewritten. |
| `Literals.UpperCaseType` | src/tcp_proxy.rs:214 | So is TEXT/XML. |
| `Literals.MediaTypes` | src/tcp_proxy.rs:219-222 | video/mp4, image/jpeg and audio/mpeg are not. |
| `Headers.UpdateContentLength` | src/tcp_proxy.rs:502-515 | The line loop produces the joined, updated lines of the specification that the next rows are about. |
| `Headers.UpdatedLines` | src/tcp_proxy.rs:502-515 | The update keeps the number, order and text of all lines but the Content-Length ones. |
| `Literals.WrittenLength` | src/tcp_proxy.rs:507 | The line written is `Content-Length: ` and the length in decimal. |
| `Headers.UpdateTwice` | src/tcp_proxy.rs:502-515 | The last update wins. |
| `Headers.UpdateKeepsVerdict` | src/tcp_proxy.rs:213-229 | The update does not change the classification. |
| `Headers.ScanDecoded` | src/tcp_proxy.rs:371 | Scanning the decoded header block, with anything behind it, gives the framing of the received block and stops at its end. |
| `Headers.ScanUpdated` | src/tcp_proxy.rs:369 | Scanning the updated block gives the new length whenever a Content-Length line exists, keeps the chunked flag, and stops exactly at its end. |
| `Chunks.PassTransparent` | src/tcp_proxy.rs:392-436 | What is forwarded is all that was consumed on success and a prefix of the input on failure. |
| `Chunks.WalkersAgree` | src/tcp_proxy.rs:392-484 | On every input, buffering succeeds exactly when forwarding succeeds and the announced total fits the limit; both then leave the same bytes unread, and the body has the announced length. |
| `Chunks.BufferBounded` | src/tcp_proxy.rs:440-484 | On every input, decodable or not: never more than the limit of body octets is held, nor more than twice the limit with the copies; a body that is returned is all that was held. |
| `Chunks.TwiceHeldIff` | src/tcp_proxy.rs:473-476 | The extreme case: twice the limit is held if and only if the first chunk is of the size of the limit and arrives. |
| `Chunks.DecodeForwarded` | src/tcp_proxy.rs:392-484 | Decoding the forwarded bytes gives the buffered body and leaves nothing. |
| `Chunks.DechunkRead` | src/tcp_proxy.rs:439-484 | What the stricter decoder accepts is forwarded, and is buffered to the same body if it fits and refused if not. |
| `Chunks.DechunkLocal` | src/tcp_proxy.rs:392-436 | The stricter decoder's reading does not depend on what follows the body. |
| `Chunks.DechunkRender` | src/tcp_proxy.rs:439-484 | The stricter decoder reads back every chunking of the grammar with an empty trailer section. |
| `Chunks.ReadChunkedInverts` | src/tcp_proxy.rs:439-484 | The buffering decoder returns the concatenation of any chunking and leaves exactly the rest if and only if the total is within the limit; the walker forwards it unchanged. |
| `Chunks.DechunkEncoded` | src/tcp_proxy.rs:487-499 | The stricter decoder reads back an encoded body and leaves the rest, preceded by a second zero chunk if the body is empty. |
| `Chunks.ReadEncoded` | src/tcp_proxy.rs:439-499 | Encode/decode round trip of the proxy's own pair with the same exact residue. |
| `Chunks.EncodedNormalForm` | src/tcp_proxy.rs:439-499 | Re-encoding a non-empty decoded body is a normal form that decodes to the same bytes. |
| `Literals.EncodedText` | src/tcp_proxy.rs:487-499 | The encoder writes the length in hexadecimal, the body, and `0`, each followed by CR LF, and one more CR LF. |
| `Chunks.SectionWalked` | src/tcp_proxy.rs:392-484 | Of data chunks, a zero chunk and any trailer section, both walkers read the data and one line of the section. |
| `Chunks.SectionRendered` | src/tcp_proxy.rs:392-484 | Every rendering of data chunks and a zero chunk is read so, whatever follows. |
| `Walks.PassedIff` | src/tcp_proxy.rs:392-436 | On every input: forwarding fails with invalid data if and only if the walk meets a malformed size, and for want of input if and only if a chunk is cut short; the announced total is the sum over its chunks. |
| `Walks.EofSent` | src/tcp_proxy.rs:416-431 | For want of input: all that has arrived has been forwarded, but for one octet of a line ending of which only one has arrived. |
| `Walks.MalformedSent` | src/tcp_proxy.rs:399-406 | At a malformed size: everything up to and with the malformed line has been forwarded. |
| `Walks.ReadFaults` | src/tcp_proxy.rs:439-484 | Buffering fails if and only if the announced total exceeds the limit, a size is malformed or a chunk is cut short; the fault is decided by these. |
| `Walks.DechunkIff` | src/tcp_proxy.rs:440-484 | The stricter decoder succeeds if and only if every chunk is closed by CRLF, and a zero chunk and a blank line follow. |
| `Walks.PanicIff` | src/tcp_proxy.rs:462-463 | On every input: the decoder panics if and only if some chunk, after chunks that fit the limit, has a size whose sum with theirs exceeds a `usize`. |
| `Walks.NeverPanics` | src/tcp_proxy.rs:462-463 | It never does while every announced size fits a `usize` together with the limit. |
| `Walks.PanicAfter` | src/tcp_proxy.rs:462-463 | After chunks of the grammar within the limit, a size line whose chunk does not arrive makes it panic if and only if the two sizes together exceed a `usize`. |
| `Walks.PeakIff` | src/tcp_proxy.rs:462-480 | On every input: what is held, copies included, stays within the limit if and only if each chunk that is read fits twice on top of those before it. |
| `Walks.LimitKeptIff` | src/tcp_proxy.rs:462-480 | For a chunking of the grammar within the limit: if and only if each chunk fits twice after the chunks before it. |
| `Connection.RespondConsumes` | src/tcp_proxy.rs:241-388 | A pass of the loop that goes on has consumed input, so the loop ends on every finite stream. |
| `Connection.ServeFrom` | src/tcp_proxy.rs:241-388 | After any number of relayed responses the output is what was sent so far followed by the output for the unread rest. |
| `Connection.AllOrNothing` | src/tcp_proxy.rs:349-382 | If a body on the rewrite route cannot be buffered, the client's stream is exactly the output of the earlier responses. |
| `Connection.BufferWithinLimit` | src/tcp_proxy.rs:314-354 | On both framing paths and every input, the octets held are within the limit, with the copies within twice the limit, and a buffered body is all that was held. |
| `Connection.ServeWithinLimit` | src/tcp_proxy.rs:241-388 | The same at every moment of every connection, however it ends. |
| `Connection.DroppedIff` | src/tcp_proxy.rs:249-253 | On every run that returns normally, rewriting or not, received bytes are dropped if and only if the input ends inside a header block. |
| `Runs.ByteTransparency` | src/tcp_proxy.rs:302-347 | If no response begun in the input is to be rewritten, what is sent is a prefix of the input, and after a normal return it is the input if and only if the input does not end inside a header block. |
| `Connection.DroppedIsHeader` | src/tcp_proxy.rs:249-253 | What is dropped at the end contains no complete header block, on every run. |
| `Runs.CutHeaderWitness` | src/tcp_proxy.rs:249-253 | A stream of one status line ends inside a header block: a normal return with nothing sent. |
| `Runs.NextIff` | src/tcp_proxy.rs:241-388 | Where the loop goes on after a response depends on the input alone, not on the addresses. |
| `Runs.ReturnsIff` | src/tcp_proxy.rs:241-388 | The loop returns without a fault if and only if the last response begun is without framing, or there is no complete header block. |
| `Runs.ServePanicIff` | src/tcp_proxy.rs:462-463 | A connection panics if and only if one of its responses makes the decoder do so. |
| `Runs.ServeNeverPanics` | src/tcp_proxy.rs:462-463 | It does not if no announced size exceeds what a `usize` has left above the limit. |
| `Runs.ServeLimitIff` | src/tcp_proxy.rs:462-480 | A connection holds no more than the limit at any moment, copies included, if and only if that is so for each of its responses. |
| `Refinement.HeaderCoherence` | src/tcp_proxy.rs:366-375 | Scanning the header emitted on the rewrite route, in the updated and the untouched branch, gives the length of the emitted body and stops exactly at it. |
| `Refinement.EmittedLength` | src/tcp_proxy.rs:366-382 | What is sent for a response of known length is a header that announces exactly the octets that follow. |
| `Refinement.RelayedMessage` | src/tcp_proxy.rs:321-388 | Re-parsing gives each relayed response as the transformed one, and the next one right after it, except for the stray bytes of an empty chunked body. |
| `Refinement.StrayParses` | src/tcp_proxy.rs:487-499 | Those stray bytes swallow everything that follows as one response without framing. |
| `Refinement.OversizePassedIff` | src/tcp_proxy.rs:314-347 | A well-framed body over the limit is passed through if and only if the Content-Length is over the limit; otherwise it is chunked, and nothing is sent. |
| `Routes.RouteIff` | src/tcp_proxy.rs:302-322 | The rewrite route is taken if and only if there is a length or chunks, the type is text, and no length exceeds 10485760. |
| `Routes.KnownLength` | src/tcp_proxy.rs:314-388 | A response of known length: up to 10485760 octets of a text type its bases are replaced under a header that fits, otherwise it is sent as it is. |
| `Routes.ChunkedRoute` | src/tcp_proxy.rs:314-388 | A chunked one: of a text type buffered up to 10485760 octets and sent rewritten in one chunk, or not at all; otherwise forwarded. |
| `Routes.FixedSeen` | src/tcp_proxy.rs:314-388 | What the client sees of an XML response of known length, on either side of the limit. |
| `Routes.FixedIsStream` | src/tcp_proxy.rs:314-388 | It is a stream of one well-formed response. |
| `Refinement.ConnectionRefinement` | src/tcp_proxy.rs:241-388 | For every stream of complete responses that the scan can frame and all addresses, re-parsing the output gives exactly the transformed responses, in order and number, and the loop returns normally, if and only if every chunked body to be rewritten is non-empty and within the limit. |
| `Refinement.OctetRefinement` | src/tcp_proxy.rs:241-388 | Re-parsing gives the origin's own octets, rewritten, if and only if moreover every rewritten response is UTF-8 (but for a Content-Length line that is replaced). |
| `Refinement.RewrittenBody` | src/tcp_proxy.rs:361-364 | The transformed body has no origin base if neither base is a prefix of the other. If the text had no proxy base, replacing back gives the text, and gives the origin's octets if and only if they are UTF-8. The length is the computed one. |
| `Recipient.ScanAgrees` | src/tcp_proxy.rs:247-278 | A header block framed after section 6.3 of RFC 9112 has the same framing for the proxy, whatever follows it. |
| `Recipient.RewrittenFrames` | src/tcp_proxy.rs:366-375 | The header in front of a rewritten body frames it after section 6.3 of RFC 9112, if the received one did. |
| `Streams.StreamOnce` | src/tcp_proxy.rs:241-388 | A stream of well-formed responses can be read in one way only. |
| `Streams.StreamParses` | src/tcp_proxy.rs:241-388 | One without trailer fields and unframed bodiless responses is read as meant by the scan. |
| `Streams.Verbatim` | src/tcp_proxy.rs:302-312 | From a response on that costs the proxy the framing (no framing fields, or trailer fields passed through), all that is left is sent as it is. |
| `Streams.Spoiled` | src/tcp_proxy.rs:439-499 | A chunked response that is rewritten though it has trailer fields, or an empty body, leaves the client with no stream of responses. |
| `Streams.ReceivedIff` | src/tcp_proxy.rs:241-388 | For every stream of well-formed responses: the loop returns normally and the client gets a stream of well-formed responses if and only if all are carried as far as the proxy rewrites, and then exactly those transformed up to where the framing is lost. |
| `Streams.ReceivedMeaning` | src/tcp_proxy.rs:241-388 | The same condition and result position by position. |
| `Streams.WellFormedRefinement` | src/tcp_proxy.rs:241-388 | The client gets the stream of the transformed responses if and only if those in front of which the framing is not lost are carried (chunked bodies to be rewritten: non-empty, within the limit, no trailer fields), and the others need no change. |
| `Streams.UnchangedIff` | src/tcp_proxy.rs:361-375 | A response to be rewritten needs no change if and only if it is UTF-8 and its body does not contain the origin base, or the bases are equal. |
| `Streams.WellFormedOctets` | src/tcp_proxy.rs:241-388 | These are the origin's own octets, rewritten, if and only if moreover every response that is rewritten is UTF-8. |
| `Lenience.ClientParsesView` | src/tcp_proxy.rs:241-388 | For every input whatsoever and however the run ends, in a fault too: re-parsing the output gives the view of the input, the transformations of what the proxy takes for responses, up to a body it cannot buffer or an empty chunked one; nothing if something incomplete was passed through before. |
| `Lenience.SeenUpToFault` | src/tcp_proxy.rs:349-382 | Without such empty bodies, and with nothing incomplete passed through: exactly the transformations of the responses before the one that ends the run. |
| `Lenience.TakenRefinement` | src/tcp_proxy.rs:241-388 | Without such empty bodies: the loop returns normally and re-parsing gives certain responses if and only if the proxy takes the whole input and they are the transformations. |
| `Lenience.LapseIff` | src/tcp_proxy.rs:440-484 | An input that the proxy takes is not a stream of complete responses if and only if a header block is cut off, or a buffered body lacks its zero chunk, the blank line after it, or the CRLF after a chunk; otherwise it is the stream taken. |
| `Lenience.StreamIff` | src/tcp_proxy.rs:440-484 | An input that the proxy follows to its end is a stream of complete responses if and only if none begun in it has its header block cut off, its body short, or its chunks incomplete. |
| `Lenience.UncompletedIff` | src/tcp_proxy.rs:448-450 | On every input: the client gets complete responses of an input that is not complete if and only if the proxy follows it to its end, passes nothing incomplete through before an empty body, and some response is not complete. |
| `Lenience.ViewAt` | src/tcp_proxy.rs:361-382 | Position by position: a response seen from the rewrite route is the transformation of what was taken there. |
| `Witnesses.XmlCarriedIff` | src/tcp_proxy.rs:350-352 | A chunked XML response is well-framed and carried exactly when its body is non-empty and within the limit. |
| `Witnesses.XmlIsStream` | src/tcp_proxy.rs:350-352 | It is a stream of one well-formed response. |
| `Witnesses.NotSeen` | src/tcp_proxy.rs:462-470 | With an empty or an oversize body the client does not see it. |
| `Witnesses.XmlOctets` | src/tcp_proxy.rs:361-364 | A body that is carried is seen with its own octets, rewritten, exactly when it is UTF-8. |
| `Witnesses.Latin1NotSeen` | src/tcp_proxy.rs:361-364 | A Latin-1 body without any URL on the rewrite route: the response is carried, but the client does not see what the origin sent. |
| `Witnesses.XmlHeldTwice` | src/tcp_proxy.rs:473-476 | Any body within the limit that comes in one chunk is held twice. |
| `Witnesses.LimitReached` | src/tcp_proxy.rs:473-476 | Some connection holds a body of the size of the limit twice: the bound is tight. |
| `Departures.PanicWitness` | src/tcp_proxy.rs:462-463 | A connection that panics. |
| `Departures.TwoChunksExceed` | src/tcp_proxy.rs:473-476 | A body of 10 MiB in chunks of 6 and 4 MiB is buffered while more than the limit is held. |
| `Departures.CutBodyCompleted` | src/tcp_proxy.rs:448-450 | A chunked body that ends without its zero chunk: no complete response for the origin, one for the client. |
| `Departures.ClientHidesOrigin` | src/tcp_proxy.rs:241-388 | Over all inputs and however the run ends, no response the client parses from the rewrite route contains the origin base, if and only if neither base is a prefix of the other. |
| `Departures.TrailerSpoils` | src/tcp_proxy.rs:439-499 | A chunked XML response with a trailer field: whatever follows, the client is left without a stream of responses. |
| `Departures.TrailerPasses` | src/tcp_proxy.rs:392-436 | The same without a type: it and all that follows it is sent as it is. |
| `Departures.ListedLengthStreams` | src/tcp_proxy.rs:258-262 | A response whose last length is a list, without codings, is sent as it is with all that follows. |
| `Departures.ListedLengthWitness` | src/tcp_proxy.rs:258-262 | For example with the length `5, 5`. |
| `Departures.NoContentUnrewritten` | src/tcp_proxy.rs:302-312 | After a 204 the next response arrives as it is, and as it should if and only if there was nothing to change. |
| `Proxy.Reader.Read` | src/tcp_proxy.rs:333-336 | Any number of available bytes up to the request, none only at the end of input. |
| `Proxy.Reader.ReadExact` | src/tcp_proxy.rs:353-354 | Exactly the requested bytes, or a failure that has consumed the short input. |
| `Proxy.Writer.WriteAll` | src/tcp_proxy.rs:338 | All bytes delivered while the other end stays; otherwise a failure, with exactly what it takes delivered. |
| `Proxy.CopyUpTo` | src/tcp_proxy.rs:329-341 | Whatever the short reads, the copy loop writes exactly the first `len` bytes, or all there are, and fails only where the client leaves. |
| `Proxy.CopyToEnd` | src/tcp_proxy.rs:308-309 | The stream copy writes everything, and fails only where the other end leaves. |
| `Proxy.ReadHeaders` | src/tcp_proxy.rs:247-278 | The header loop computes the scanned block and leaves the rest. |
| `Proxy.ForwardNext` | src/tcp_proxy.rs:397-433 | One pass of the chunk loop makes progress and forwards its share of the walk, or ends as the walk ends. |
| `Proxy.PassThroughChunked` | src/tcp_proxy.rs:392-436 | The forwarding loop delivers what the walk specifies with its fault, or exactly what the client stays for. |
| `Proxy.BodyBuffer.Append` | src/tcp_proxy.rs:473-476 | The chunk's octets are in both vectors, and the peak accounts for both. |
| `Proxy.BufferChunk` | src/tcp_proxy.rs:472-480 | One chunk is appended and its vector released, or the input is too short; the most the buffer has held is as specified in either case. |
| `Proxy.ReadChunkedBody` | src/tcp_proxy.rs:439-484 | The buffering loop computes the decoder's result, with its fault, and the most its vectors have held is exactly what the decoder holds, also when it fails. |
| `Proxy.WriteChunkedBody` | src/tcp_proxy.rs:487-499 | The encoder's writes deliver the encoded body, or exactly what the client stays for. |
| `Proxy.PassResponse` | src/tcp_proxy.rs:321-347 | The pass-through routes deliver header and body as received, or exactly what the client stays for. |
| `Proxy.RewriteResponse` | src/tcp_proxy.rs:349-388 | The rewrite route delivers the framed, rewritten response, or exactly what the client stays for; if the body cannot be buffered it writes nothing. |
| `Proxy.StreamResponse` | src/tcp_proxy.rs:302-312 | The streaming route delivers everything up to the end of input, or exactly what the client stays for. |
| `Proxy.AnswerNext` | src/tcp_proxy.rs:241-388 | One pass of the loop delivers the reply of `Respond`, goes on exactly after a relayed one that the client stayed for, and holds at most what the reply takes. |
| `Proxy.HeldUntilEnd` | src/tcp_proxy.rs:349-354 | What is held for a client that leaves is never more than for one that stays, and as much if it stays for all that is sent. |
| `Proxy.ProxyResponses` | src/tcp_proxy.rs:232-389 | For every input, segmentation and client: a client that stays for it gets what `Serve` specifies and the loop returns its fault; otherwise it gets exactly what it stays for and the loop ends there. The most the buffer has held is exact in either case, so within the limit, and within twice the limit with the copies. |
| `Proxy.TcpProxy.constructor` | src/tcp_proxy.rs:30-46 | The proxy works with the URL bases of its two addresses. |
| `Proxy.TcpProxy.OriginToClient` | src/tcp_proxy.rs:160-172 | One connection's origin-to-client direction delivers what `Serve` specifies for those bases, or exactly what the client stays for. |
| `Proxy.TcpProxy.ClientToOrigin` | src/tcp_proxy.rs:144-157 | The other direction delivers the requests unchanged, or exactly what the origin stays for. |
| `Proxy.ServeConnection` | src/tcp_proxy.rs:132-183 | Both directions, end to end: an origin that stays gets the requests unchanged; a client that stays gets what `Serve` specifies, so the stream of the transformed responses of any well-formed stream that arrives transformed, and bytes never rewritten unchanged, all of them if and only if they do not end inside a header block; one that leaves gets exactly what it stays for. |
| `Limiter.PermitsConserved` | src/tcp_proxy.rs:83-128 | Over every interleaving, free permits, handlers and the accept loop's permit make 100; at most 100 connections are served and 101 clients open; the accept loop is held up exactly when 100 are served. |
| `Limiter.ClientTakenOn` | src/tcp_proxy.rs:85-126 | In every reachable state the accept loop can go on: it may accept a client at any time; the client gets a permit if and only if fewer than 100 are served; then it is served when the origin answers, and dropped alone otherwise. |
| `Limiter.OneMoreServed` | src/tcp_proxy.rs:85-126 | From every reachable state with fewer than 100 served, one more can be served without any ending. |
| `Limiter.HundredServed` | src/tcp_proxy.rs:83-128 | Some run serves 100 connections with 101 clients open, the last of which waits. |
| `Limiter.HandlerStepsIff` | src/tcp_proxy.rs:143-183 | What a handler can do next depends on its past alone: each copy ends at any time, once; it joins them in order, and then returns the permit. |
| `Limiter.Listener.Perform` | src/tcp_proxy.rs:85-129 | In place, a step is performed exactly when it is enabled, with the successor state of the step system. |
| `Limiter.Listener.PerformAll` | src/tcp_proxy.rs:83-129 | A schedule is performed in place as the run made of exactly its enabled steps, and permits are conserved throughout. |
| `Limiter.PermitReturnedOnce` | src/tcp_proxy.rs:122-126 | In every run and for every connection: its permit is not returned while it is served, and once it is gone each copy has ended once and the permit was returned once. |
| `Limiter.ReleaseAfterBoth` | src/tcp_proxy.rs:174-180 | A permit is returned only after both copies have ended. |
| `Limiter.HeldUntilBothEnd` | src/tcp_proxy.rs:75-82 | A connection with a copy that has not ended keeps its permit, however long the run. |
| `Limiter.AllPermitsReturn` | src/tcp_proxy.rs:94-126 | From every reachable state some continuation brings all 100 permits back: none is ever lost. |
| `Freshness.BroadcastTask` | src/ssdp/broadcast.rs:37-54 | The loop is heard exactly at the ends of its successful attempts, whatever fails and however long attempts take. |
| `Freshness.GapsBounded` | src/ssdp/broadcast.rs:44-53 | With at most `j` failures in a row and a bound on attempt times, no silence exceeds one period, `j` times the larger of period and bound, and the bound. |
| `Freshness.WorstCase` | src/ssdp/broadcast.rs:44-53 | That silence is reached. |
| `Freshness.NoLapseIff` | src/ssdp/mod.rs:65-68 | A cache entry never lapses between two broadcasts heard, over all such runs, if and only if the worst silence fits the advertised lifetime (CACHE-CONTROL, section 1.2.2 of UPnP Device Architecture 1.1). |
| `Freshness.ToleratedLosses` | src/ssdp/mod.rs:65-68 | For instant attempts: never a lapse without failures; one loss is tolerated exactly for periods up to 10 or from 20 on; more only for very short periods. |
| `Freshness.ToleratedDelay` | src/ssdp/mod.rs:65-68 | For attempts that do not fail: no lapse exactly when none takes longer than a period, or than what the minimum lifetime leaves. |
| `Freshness.ToleratedLossWithDelay` | src/ssdp/mod.rs:65-68 | From period 20 on, with one failure in a row allowed: no lapse exactly when attempts take no time. |

## Left out

- Lower: only ASCII letters are lowered, and the Kelvin sign where `chunked` is searched for; no other Unicode lower-casing completes a pattern the proxy looks for.
- Held: counts the lengths of the two vectors a body is buffered in. Spare capacity, the decoded and rewritten copies made afterwards, header blocks and size lines (both without a limit in the source) and the fixed copy buffers are not counted.
- ServeConnection: runs one direction after the other. They share no stream, and the input is arbitrary, so any interleaving is covered but its timing.
- Frames: a `chunked` that is not the last coding, a Content-Length next to codings without `chunked`, and one that is a list, are not described; such responses are covered by `Refinement` and `Lenience` as the scan frames them.
- ParseUsize: `usize` is that of a 64-bit target; the 32-bit builds differ in the largest accepted number only.
- Step: the accept loop and the handlers are split into atomic steps at their waiting points; the semaphore's queue order and the closing of the semaphore, which the program never does, are not modelled.
- Heard: ticks and attempts are exact; clock drift, the loss of single datagrams and answers to searches, which also refresh an entry, are not modelled.
- Read errors of the origin connection (reset): the stream of a connection ends in an end of input.
- `flush` is not a step of its own; a failure to flush is a failure of the write before it.
- Responses to HEAD, and those with status 1xx, 204 or 304 that declare a body they do not carry: the proxy sees neither method nor status and takes what follows for that body; they are not well-formed streams here.
- SSDP packets and the listener, endpoint description fetching, configuration, command line, logging, sockets and signals: input and output, or templates without logic.

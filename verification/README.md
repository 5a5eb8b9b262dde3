# Verified model of the RFO core

RFO serves compiled, scored and checksummed versions of web pages to language models. This project models
the parts of its Rust core that hold the arithmetic, the state and the loops, and proves what those parts
promise. Code that changes things step by step is a method or a class proved against a specification
function; the promises are lemmas about that function, for all inputs, all runs and all interleavings.

| module | models |
|---|---|
| `Words`, `Gf2`, `Crc32` | the shift-and-xor checksum as division of polynomials over GF(2) |
| `Wire`, `ChunkReader` | the header codec, frames, one-shot deserialization and the chunked reader |
| `Transport`, `Resolver`, `Server` | frames over TCP segments, the `.opt` registry, and any number of connections sharing it |
| `Regex`, `Sanitizer`, `Markdown`, `Compiler`, `Quality` | injection phrases, the Markdown parser and printer, and the quality score |
| `RateLimiter`, `ConnectionGate` | the fixed-window limiter and the atomic connection counter |
| `Hkdf` | key derivation, against sections 2.2 and 2.3 of RFC 5869 |
| `RingBuffer`, `Telemetry`, `AuditLog` | rings and capped histories as suffixes of a log, and the report |
| `Cache`, `Handshake`, `HandshakeRuns` | the TTL cache, the handshake handler, and handshakes that overlap |
| `CoreFile` | the aggregation of a site's pages |
| `Wrappers`, `Text`, `Sorting`, `Sets` | shared vocabulary |

The main results, in one line each:

- The checksum is the one word whose complement is the remainder of the pre-conditioned message modulo the
  CRC-32 generator; damage that keeps the length goes unseen exactly when its bit pattern is a multiple of
  the generator; so damage within 32 consecutive bits is always refused.
- A byte stream splits in exactly one way into frames and a tail, however TCP cuts it.
- Every interleaving of connections looks as if the requests had been served one after the other.
- Sanitized text has no match of any of the patterns anywhere, in upper or lower case; sanitizing again changes
  nothing, and nothing but the matches is replaced.
- Printed content comes back from the parser exactly when it is printable.
- Cleanup of the limiter is invisible, and no address gets more than twice the limit through in a minute:
  always in a build that checks for overflow, and otherwise as long as no window of it sees 2^32 calls.
- The connection counter is at every moment the slots owned plus the increments still to be taken back.
- The derived key is the one of RFC 5869 for every length that it allows, where overflow is not checked; where
  it is, for every length up to 8128.
- However handshakes, batches and other code overlap on the cache, a hit is the latest insert, and every answer
  is the doc or mdoc, as asked for, of a page of the call's own URL; eviction goes unnoticed exactly as long as
  no lazy removal takes away a fresh entry, which takes an insert between the look and the removal.

Where the code and its documentation differ, the model follows the code: numbers on the wire are
big-endian (PROTOCOL.md:391 says little-endian); there are 17 injection patterns (ARCHITECTURE.md:169 and
:612 say 16); lines between code fences are parsed like any other lines, although a comment in
src/parser.rs:146 speaks of collecting them.

Results about the code that are worth a maintainer's attention, each with its exact condition:

- `Wire.DeserializePanics`: a buffer shorter than its header declares makes `deserialize_*` slice out of bounds.
- `Wire.SerializedPayload`: `serialize_*` writes payloads over 10 MiB that `deserialize_*` then refuses, and
  from 4 GiB on it cuts the length field short.
- `ChunkReader.WhenRunsFail`: likewise a chunked reader slices out of bounds exactly when the buffer ends early
  and more is asked for than is left of it.
- `ChunkReader.FirstVerdictCounts`: `validate_checksum` says true on every call but the first.
- `ConnectionGate.RefusalWithoutHolders`: a connection can be refused while no slot is held.
- `ConnectionGate.TurnedAwayKeepsSlot`, `ConnectionGate.GateShutsForGood`: a call that the per-address count
  turns away keeps its slot; if callers release only what was admitted, the gate refuses everybody once as
  many calls have been turned away as there are slots.
- `RateLimiter.WindowLetsLimitThrough`, `RateLimiter.WrappedCounterLetsMoreThrough`: a window holds to its
  limit exactly while it sees fewer than 2^32 calls, after which the counter starts over.
- `RateLimiter.OverflowsByPosition`: a build that checks for overflow panics at the 2^32-th call of a window and
  at every later one.
- `CoreFile.CompileFromPages`: compiling a site panics exactly if the joined first paragraphs have more than
  1000 bytes and no character starts at byte 1000.
- `Server.PeerReadsReplies`: a client reads all replies back exactly if none is over 10 MiB, which the server
  does not check when it writes; `Server.ClientGetsRegisteredFile` says what that means for core files.
- `Hkdf.DeriveKey`, `Hkdf.LongKeysRepeat`: above 8128 octets key derivation panics where overflow is checked,
  and above 8192 octets it repeats its key stream where overflow is not checked.
- `Cache.EvictionIsInvisible`, `HandshakeRuns.FreshPageCanBeMissed`: a `get` of an expired entry can remove an entry
  that was inserted meanwhile.

Check the project with `dafny verify dfyconfig.toml`.

## Model

| member | source | states |
|---|---|---|
| Crc32.CalculateChecksum | src/binary.rs:153-167 | the nested loops leave in the register what the specification `Checksum` says, of which the next rows are the meaning |
| Crc32.ByteTurns | src/binary.rs:157-164 | xor-ing a whole byte in and turning k times equals taking its bits in one at a time, with the bits not yet taken still in the low part of the register |
| Crc32.FeedIsTakeBits | src/binary.rs:156-165 | feeding bytes equals feeding the message bits, lowest bit of each byte first |
| Crc32.ReflectedGenerator | src/binary.rs:160 | the constant 0xEDB88320 lists, bit-reflected, the coefficients of the CRC-32 generator below x^32 |
| Crc32.TakeBitIsDivisionStep | src/binary.rs:158-163 | one turn multiplies the register polynomial by x, takes in the message bit and cancels x^32 with the generator |
| Crc32.TakeBitsIsDivision | src/binary.rs:155-165 | after every bit the register is the remainder of the bits so far, pre-conditioned as in section 8 of RFC 1952 |
| Crc32.ChecksumIsRemainder | src/binary.rs:153-167 | a word is the checksum if and only if its complement, bit-reflected, is the remainder of x^32 M + x^n (x^31 + ... + 1) modulo the generator |
| Crc32.UndetectedDamage | src/binary.rs:153-167 | two messages of one length have the same checksum if and only if their difference is a multiple of the generator |
| Crc32.BurstIsDetected | src/binary.rs:153-167 | messages that differ only within 32 consecutive bits have different checksums |
| Crc32.MessageBitsInjective | src/binary.rs:156-158 | no two messages of one length have the same bits |
| Gf2.RemainderIsUnique | src/binary.rs:153-167 | division over GF(2) has one remainder, so the two sides above determine each other |
| Gf2.BurstIsNotMultiple | src/binary.rs:160 | a nonzero polynomial below the degree of a generator with constant term 1 is no multiple of it, wherever it is shifted to |
| Words.XorNatBits | src/binary.rs:157-160 | arithmetic xor of numbers is xor of their bits |
| Wire.BigEndian32RoundTrip | src/binary.rs:105-107 | four bytes read as a word if and only if they are its written form |
| Wire.BigEndianValue | src/binary.rs:105-107 | and that form is big-endian: the first byte weighs 2^24, the last one 1; likewise for two bytes |
| Wire.ToBytes | src/binary.rs:102-109 | the filled buffer is magic, version, type and length in this order, 11 bytes in all, with version and length as sums of their weighted bytes, the first one weighing most |
| Wire.HeaderCodec | src/binary.rs:102-142 | bytes read as a header if and only if they are the bytes of that header and it is acceptable |
| Wire.HeaderErrors | src/binary.rs:112-142 | which error an unacceptable header gives: magic before version before type before length |
| Wire.HeaderFields | src/binary.rs:112-142 | byte by byte, which eleven bytes are accepted: 52 46 4F 00, 00 01, one of seven types, and a length up to 10485760; and the fields that are read are the values of their bytes |
| Wire.Serialize | src/binary.rs:172-219 | the buffer is header, payload and checksum, with the length cast to 32 bits, byte by byte as in the next row |
| Wire.FrameFields | src/transport.rs:157-176 | a frame byte by byte: the first seven bytes, the length modulo 2^32 in the next four, the payload, and the checksum in the last four, the first byte of each number weighing most |
| Wire.ParseInvertsWrite | src/transport.rs:108-184 | the reader yields a frame and a rest if and only if the stream is that frame as written, of a sendable size, and the rest |
| Wire.WrittenFrame | src/transport.rs:108-184 | what the reader makes of a written frame of any size, those included whose length is cut to 32 bits |
| Wire.FramesArePrefixFree | src/transport.rs:157-184 | no sendable frame is a proper prefix of another |
| Wire.TruncatedFrame | src/transport.rs:108-155 | a stream cut anywhere inside a frame reads as an I/O error |
| Wire.StreamSplits | src/transport.rs:76-77 | every stream is the frames read from it followed by what is left |
| Wire.WrittenFramesAreRead | src/transport.rs:108-184 | any number of written frames read back as exactly those frames |
| Wire.StreamsSplitUniquely | src/transport.rs:108-184 | there is only one way to split a stream into sendable frames and a tail that does not start with one |
| Wire.TamperedFrame | src/transport.rs:143-149 | with another payload or trailer put in, a frame is accepted if and only if they fit each other |
| Wire.DamageIsRefused | src/transport.rs:143-149 | a payload damaged within 32 consecutive bits, or a damaged trailer, is refused as a checksum mismatch |
| Wire.DamageIsNotDeserialized | src/binary.rs:251-256 | the same damage makes deserialization fail with the same checksum mismatch |
| Wire.DeserializeIsParse | src/binary.rs:224-260 | apart from the expected type, deserializing succeeds exactly where the frame reader does |
| Wire.DeserializeInvertsSerialize | src/binary.rs:172-340 | a payload comes out if and only if the buffer starts with the frame of that type and payload |
| Wire.DeserializePanics | src/binary.rs:225-245 | the slice is out of bounds if and only if an acceptable header of the expected type declares more than is there |
| Wire.SerializedPayload | src/binary.rs:172-340 | what becomes of a serialized payload of any size, those included whose length is cut to 32 bits |
| Wire.ValueRoundTrip | src/binary.rs:172-340 | a value of any size survives serialization if and only if its encoding is at most 10 MiB, given JSON that inverts itself and in which no proper prefix of an encoding stands for the same value |
| ChunkReader.BinaryStreamReader.New | src/binary.rs:354-370 | opening fails as the header codec does, and otherwise starts at the first payload byte |
| ChunkReader.BinaryStreamReader.ReadChunk | src/binary.rs:373-386 | the new state and the chunk are those of the reader as a value, and the position stays between header and payload end |
| ChunkReader.BinaryStreamReader.ValidateChecksum | src/binary.rs:389-409 | the same for the verdict and the flag that remembers it |
| ChunkReader.BinaryStreamReader.IsComplete | src/binary.rs:422-424 | true exactly at the end of the payload |
| ChunkReader.ChunksJoin | src/binary.rs:373-386 | whatever sizes are asked for, the chunks join up to the bytes passed over |
| ChunkReader.ChunksArePayloadPrefix | src/binary.rs:373-424 | the chunks join up to a prefix of the payload, and the reader is complete if and only if that is the whole payload |
| ChunkReader.FirstVerdictCounts | src/binary.rs:389-409 | the first verdict is whether the trailer is the checksum, whatever was read before; every later one is true |
| ChunkReader.CallsNeeded | src/binary.rs:373-386 | chunks of k bytes finish a payload in exactly ceil(length / k) calls |
| ChunkReader.WhenRunsFail | src/binary.rs:373-409 | a run of calls slices out of bounds if and only if the buffer ends before the payload and more is asked for than is left in it, or the first validation finds payload or trailer incomplete |
| ChunkReader.ReaderInvertsSerialize | src/binary.rs:172-185 | a reader opened on a serialized frame hands out its payload and never says false |
| Transport.TcpStream.ReadExact | src/transport.rs:113-115 | n bytes from as many segments as it takes, or an error if the stream has fewer |
| Transport.ReadFrame | src/transport.rs:108-155 | the result depends only on the bytes, not on how they were cut, and is that of `ParseFrame` |
| Transport.TcpStream.WriteAll | src/transport.rs:176-181 | all bytes are sent, or the part for which there is room and an I/O error |
| Transport.WriteFrame | src/transport.rs:157-184 | exactly the bytes of one frame are appended to the stream, or the part before the connection breaks and an I/O error |
| Resolver.OptResolver.Register | src/opt_resolver.rs:66-89 | reply and new registry are those of the specification `Apply`, which never overwrites and refuses what does not end in .opt after trimming; `SpaceIsIgnored` says what its key is |
| Resolver.OptResolver.RegisterOrUpdate | src/opt_resolver.rs:91-116 | the same for replacing the core file, which keeps the registration date and the count |
| Resolver.OptResolver.Resolve | src/opt_resolver.rs:118-129 | the same for a lookup, which counts |
| Resolver.OptResolver.ResolveMetadata | src/opt_resolver.rs:131-142 | the same for a lookup of the whole entry, which shows the new count |
| Resolver.OptResolver.Unregister | src/opt_resolver.rs:144-153 | the same for removal |
| Resolver.OptResolver.Contains | src/opt_resolver.rs:155-159 | whether the normalized domain is a key, which of a trimmed domain is its lower-case form |
| Resolver.OptResolver.List | src/opt_resolver.rs:161-166 | the keys in strictly increasing order, each exactly once |
| Resolver.OptResolver.Count | src/opt_resolver.rs:168-171 | the number of keys |
| Resolver.SpaceIsIgnored | src/opt_resolver.rs:66-159 | the key of an operation is the trimmed domain in lower case: with any white space around a domain each operation does and says what it does without |
| Resolver.RunsStayWellKept | src/opt_resolver.rs:66-153 | after every run each key ends in .opt and is the domain of its entry |
| Resolver.OperationsAreLocal | src/opt_resolver.rs:66-153 | a refused operation changes nothing, and no operation touches another domain |
| Resolver.RefinesPlainMap | src/opt_resolver.rs:66-153 | over every run the registry shows what a plain map of normalized domains to files would, refuses exactly what that would, with the same error, and lookups answer from it |
| Resolver.EntryTellsItsHistory | src/opt_resolver.rs:66-153 | from any registry on, an entry's count is its first count plus the lookups since it was entered or since the start, its registration date is the first one, and its last date that of the last lookup or update since |
| Resolver.LoadInvertsSave | src/opt_resolver.rs:173-196 | saving and loading between two runs goes unnoticed: the registry is that of one run, well kept, and its entries tell the whole history, given JSON that inverts itself |
| Server.HandleConnection | src/transport.rs:68-101 | the loop of one connection serves the frames of its stream in order, all that it sends are the replies, cut off where the connection breaks, and the result says whether framing failed, a write broke or the type was unsupported |
| Server.HandleFrame | src/transport.rs:79-83 | the response and the registry change that one request calls for |
| Server.WriteResponse | src/transport.rs:85-96 | one frame is written for success and error alike, only an unsupported type ends the loop, and a broken write is passed on |
| Server.EndsIffUnsupported | src/transport.rs:79-95 | a connection ends after a reply exactly when the request type is unsupported, and that reply is of type error |
| Server.ReplyByType | src/transport.rs:79-221 | type and payload of every reply, by the bytes on the wire: 10 answers 10, 12 answers 11 with the core file under the trimmed, lower-case domain, and FF tells an error; only 10 and 11 keep a connection open |
| Server.ConnectionOpens | src/transport.rs:51-66 | a connection collects what arrives until its peer ends it |
| Server.RequestIsServed | src/transport.rs:76-98 | whatever other connections there are, a frame that has arrived is read, handled and answered in three steps: just its reply goes out, its bytes are used up, and a lookup counts |
| Server.ConnectionFails | src/transport.rs:76-98 | when a connection ends for a bad frame or a broken write, and with what sent |
| Server.FailureIsFinal | src/transport.rs:108-155 | bytes that arrive later do not undo a framing error |
| Server.EveryRunIsLinearized | src/transport.rs:68-101 | in every interleaving, registry, requests and replies are those of serving the logged requests one after the other |
| Server.RepliesAnswerRequests | src/transport.rs:68-101 | a connection has read the first frames of its stream and been sent exactly the replies to them in order; after a framing error nothing more |
| Server.UnsupportedTypeEndsConnection | src/transport.rs:82-95 | such a request is the last one its connection reads and gets one reply |
| Server.ClosedConnectionsStayClosed | src/transport.rs:92-100 | in every continuation of a run nothing more is read from or written to a closed connection |
| Server.PeerReadsReplies | src/transport.rs:157-184 | the other end reads back exactly the replies if and only if all of them are of sendable sizes, unless a reply is under way or broke off |
| Server.ResolveCountsRequests | src/transport.rs:206-221 | from any registry on, a domain's resolve count is its first count plus the lookups of it over all connections since it was entered or since the start |
| Server.ClientGetsRegisteredFile | src/transport.rs:108-266 | a client that reads the reply off the wire gets the registered file if and only if there is one and its JSON is at most 10 MiB; without one, or between 10 MiB and 4 GiB, it gets an error |
| Regex.EndsAreMatches | src/parser.rs:44-54 | the backtracking matcher ends at a position if and only if the text up to there is in the language of the expression |
| Regex.WordsIgnoreCase | src/parser.rs:24-40 | under the flag (?i) a word matches exactly the texts that are it in lower case, A to Z, the long s and the Kelvin sign included |
| Regex.Preferences | src/parser.rs:44-54 | which match is found: as much white space as there is, the left alternative first, an option if it can be taken, and of two parts the first decides before the second |
| Regex.OnlyMatchesAreReplaced | src/parser.rs:51-54 | a text is scanned into parts in which no match starts and the preferred matches between them; replacing puts the mark for each match and keeps the parts |
| Regex.ReplacementIsClean | src/parser.rs:51-54 | no match starts anywhere in the output of a bracketed replacement, across seams included |
| Regex.RedactionIsClean | src/parser.rs:51-54 | replacing again changes nothing, and a text is left alone if and only if it has no match |
| Regex.PartIsClean | src/parser.rs:51-54 | a part of a clean text is clean |
| Sanitizer.PatternsArePlain | src/parser.rs:23-41 | no match of any of the 17 patterns has a bracket, because their words have none |
| Sanitizer.PatternsAreForeign | src/parser.rs:23-41 | every match of each of the 17 patterns has a character that is not in REDACTED |
| Sanitizer.PatternsAsWritten1 | src/parser.rs:24-25 | written out in regex syntax, the pattern of the model has just the symbols of the source's text, in lower case |
| Sanitizer.PatternsAsWritten2 | src/parser.rs:26 | written out in regex syntax, the pattern of the model has just the symbols of the source's text, in lower case |
| Sanitizer.PatternsAsWritten3 | src/parser.rs:27 | written out in regex syntax, the pattern of the model has just the symbols of the source's text, in lower case |
| Sanitizer.PatternsAsWritten4 | src/parser.rs:28 | written out in regex syntax, the pattern of the model has just the symbols of the source's text, in lower case |
| Sanitizer.PatternsAsWritten5 | src/parser.rs:29 | written out in regex syntax, the pattern of the model has just the symbols of the source's text, in lower case |
| Sanitizer.PatternsAsWritten6 | src/parser.rs:30 | written out in regex syntax, the pattern of the model has just the symbols of the source's text, in lower case |
| Sanitizer.PatternsAsWritten7 | src/parser.rs:31-34 | written out in regex syntax, the pattern of the model has just the symbols of the source's text, in lower case |
| Sanitizer.PatternsAsWritten8 | src/parser.rs:35 | written out in regex syntax, the pattern of the model has just the symbols of the source's text, in lower case |
| Sanitizer.PatternsAsWritten9 | src/parser.rs:36-40 | written out in regex syntax, the pattern of the model has just the symbols of the source's text, in lower case |
| Sanitizer.ThenMatches | src/parser.rs:24-38 | a\s+b matches a, at least one white space character, and b |
| Sanitizer.MaybeMatches | src/parser.rs:24-30 | (w\s+)? matches nothing, or w and at least one white space character |
| Sanitizer.ChoiceMatches | src/parser.rs:26-38 | a choice of two or three words matches any one of them and nothing else, the earlier ones preferred |
| Sanitizer.AnyOfPrefers | src/parser.rs:44-48 | of the joined patterns the earliest that matches at a place is preferred |
| Sanitizer.JailbreakIsPhrase | src/parser.rs:36 | jailbreak in any letters is a phrase |
| Sanitizer.SanitizeRemovesPhrases | src/parser.rs:23-54 | sanitized text has no match of any pattern at any position; sanitizing is idempotent; it changes a text if and only if the text has a match |
| Sanitizer.SanitizeIgnoresCase | src/parser.rs:23-54 | texts that differ only in upper and lower case have the same phrases at the same positions, and sanitized they still differ only so |
| Sanitizer.SanitizeReplacesMatches | src/parser.rs:51-54 | what is redacted are just the preferred matches of a scan from the left, everything else stays |
| Markdown.ParseMarkdown | src/parser.rs:131-159 | the line loop gives what classifying and adding the lines of the sanitized text gives |
| Markdown.LinesOfText | src/parser.rs:135 | lines with either kind of ending, and a last one with none, are taken apart as they were put together |
| Markdown.TablesAreBarLines | src/parser.rs:148-149 | the table rows are just the trimmed lines that start with a bar, in their order |
| Text.SpacesByCode | src/parser.rs:136 | white space is the 25 code points with the Unicode property White_Space |
| Text.TrimTakesSpaceOff | src/parser.rs:136 | trimming takes off the white space around a trimmed text and nothing else |
| Text.PrefixAndSuffix | src/parser.rs:141-150 | a text starts or ends with a part exactly if it is that part with something after or before it |
| Markdown.ItemOccurs | src/parser.rs:136-154 | what a line contributes is a part of that line |
| Markdown.ParsedFieldsArePhraseFree | src/parser.rs:131-159 | no title, heading, paragraph, table or raw text has an injection phrase |
| Compiler.CompileDoc | src/compiler.rs:42-81 | the printed text, the tables and the signature or "unverified" |
| Compiler.PushAll | src/compiler.rs:50-60 | the push loops append each entry with its prefix and suffix |
| Compiler.ParseOfPrint | src/compiler.rs:44-60 | how printed text parses, entry by entry |
| Compiler.ClassifyParagraph | src/parser.rs:136-154 | a line comes back as itself if and only if it is a trimmed line without a marker |
| Compiler.PrintedContentParsesBack | src/compiler.rs:44-60 | printed content comes back with its title, headings and paragraphs if and only if it is printable: trimmed single lines, no paragraph with a marker |
| Compiler.ItemShape | src/parser.rs:136-154 | what the parser gives is a printable title or heading, or a single-line paragraph |
| Compiler.ParsedContentSurvives | src/parser.rs:131-159 | parsed content is a fixed point of printing and parsing if and only if no paragraph of it still has a marker |
| Quality.GenerateQaPairs | src/parser.rs:216-235 | heading i is answered by paragraph i or the stock answer, and at most 20 pairs are kept |
| Quality.CompileMdoc | src/compiler.rs:12-38 | summary of the first three paragraphs, a fourth of the bytes of summary, questions and answers as tokens, and at most 20 pairs, so that the triple multiplier is out of reach |
| Quality.JoinConcat | src/compiler.rs:14-20 | joined lists are joined by one space |
| Quality.WidthOfUtf8 | src/compiler.rs:5-7 | a character has as many bytes as its UTF-8 encoding by section 3 of RFC 3629 |
| Quality.ByteLengthOfUtf8 | src/compiler.rs:5-7 | the length of a text is that of its UTF-8 encoding |
| Quality.CalculateQualityScore | src/compiler.rs:94-143 | the accumulated score is the specification `Score` |
| Quality.MoreTextMoreMatches | src/compiler.rs:102-110 | appending text never lowers a greedy count of matches that do not overlap |
| Quality.MatchCountIsMost | src/compiler.rs:102-110 | no more matches than counted stand apart from each other anywhere in the text |
| Quality.MatchesFound | src/compiler.rs:102-110 | and as many as counted do |
| Quality.ScoreGrows | src/compiler.rs:94-143 | the score is at least 1 and never falls when Markdown is appended, tables or pairs are added or the summary is extended |
| Quality.PrintedHeadingsAreCounted | src/compiler.rs:44-60 | a printed document is scored for at least its headings and its title |
| RateLimiter.RateLimitState.CheckRateLimit | src/server/middleware.rs:37-53 | new table and decision are those of the specification: the first call, or one 60 s after the window began, opens a window; later ones count up and are admitted up to the 100th; at 2^32 calls the u32 counter starts over, or the call panics in a build that checks for overflow; after any run the call does what the run with it added says |
| RateLimiter.RateLimitState.Cleanup | src/server/middleware.rs:56-61 | exactly the entries younger than two windows, that is 120 s, stay |
| RateLimiter.CleanupIsInvisible | src/server/middleware.rs:37-61 | every decision is the same with the cleanups of a run left out |
| RateLimiter.EntryCountsOwnCalls | src/server/middleware.rs:37-53 | the entry of an address is the window and the position in it of the address's own last call |
| RateLimiter.AllowedByPosition | src/server/middleware.rs:37-61 | a call is allowed if and only if its position in its window, modulo 2^32, is within the limit, whatever other addresses and the cleanup do |
| RateLimiter.OverflowsByPosition | src/server/middleware.rs:37-61 | in every run of a build that checks for overflow a call panics if and only if its position in its window is 2^32 or more, and is allowed if and only if that is within the limit |
| RateLimiter.EveryRunCountsPositions | src/server/middleware.rs:37-61 | in such a run an entry has the position of its address's last call, as far as the counter goes |
| RateLimiter.MinuteTouchesTwoWindows | src/server/middleware.rs:46-49 | windows of an address start at least 60 s apart, so 60 s hold the allowed calls of at most two |
| RateLimiter.AtMostTwoWindowsPerMinute | src/server/middleware.rs:37-61 | at most twice the limit is admitted in any half-open 60 s, as long as no window of the address sees 2^32 calls |
| RateLimiter.AtMostTwoWindowsWhenChecking | src/server/middleware.rs:37-61 | in a build that checks for overflow that bound holds in every run |
| RateLimiter.WindowLetsLimitThrough | src/server/middleware.rs:37-53 | of the calls of the present window just the first ones up to the limit are admitted, if and only if there are fewer than 2^32 of them |
| RateLimiter.WindowLetsThrough | src/server/middleware.rs:37-53 | how many calls of a window are admitted, for any number of calls |
| RateLimiter.WrappedCounterLetsMoreThrough | src/server/middleware.rs:51-52 | a run in which one call more than twice the limit is admitted within 60 s |
| ConnectionGate.StepKeepsAccounts | src/audit.rs:83-116 | each atomic step keeps the counter equal to slots owned plus increments to be taken back, and the slots within the limit |
| ConnectionGate.EveryInterleavingIsAccounted | src/audit.rs:83-116 | the same in every interleaving of any number of threads |
| ConnectionGate.QuietCounterIsHolders | src/audit.rs:83-122 | whenever no call is under way the counter is the number of slots held, by returned or panicked calls, and within the limit |
| ConnectionGate.RefusedExactlyWhenFull | src/audit.rs:84-92 | when the global check refuses: exactly if slots owned and doomed increments reach the limit at the fetch_add, whatever other threads do before the comparison |
| ConnectionGate.RefusalWithoutHolders | src/audit.rs:84-92 | a run in which a call is refused while no slot is held |
| ConnectionGate.TurnedAwayKeepsSlot | src/audit.rs:84-110 | in every run a call that returned false keeps a slot if and only if its fetch_add saw less than the global limit, and then its position in the window of its address is over the per-address limit |
| ConnectionGate.EveryVerdictIsExplained | src/audit.rs:83-110 | every verdict of every run follows from what the fetch_add saw and from the position of the call in the window of its address |
| ConnectionGate.SomeoneIsTurnedAway | src/audit.rs:94-110 | a run that ends with a call turned away and its slot taken |
| ConnectionGate.QuietCounterRemembersTurnedAway | src/audit.rs:83-122 | if callers release only admitted calls, a quiet counter is the admitted holders and all calls turned away so far, besides those that panicked |
| ConnectionGate.GateShutsForGood | src/audit.rs:83-116 | and once as many calls have been turned away as there are slots, every later call is refused |
| ConnectionGate.DdosProtection.CheckConnection | src/audit.rs:83-110 | a call without interruption is the atomic steps of one thread, the panic of a build that checks for overflow included |
| ConnectionGate.DdosProtection.ReleaseConnection | src/audit.rs:113-116 | one slot is given back, modulo 2^64, as the atomic release step does |
| Hkdf.DeriveKey | src/crypto/mod.rs:73-100 | the loop returns `Derived` of the extracted key, or panics if overflow is checked and more than 8128 octets are asked for |
| Hkdf.DerivesRfcKey | src/crypto/mod.rs:73-100 | for every length up to 8160 that is the key of sections 2.2 and 2.3 of RFC 5869 |
| Hkdf.ShorterIsPrefix | src/crypto/mod.rs:82-97 | a shorter key is a prefix of every longer one |
| Hkdf.BlocksRepeat | src/crypto/mod.rs:84-96 | where the one-octet counter starts over, so does the chain of blocks |
| Hkdf.LongKeysRepeat | src/crypto/mod.rs:82-97 | octets of a long key repeat at a distance of 8192 |
| RingBuffer.RingHoldsLast | src/telemetry.rs:163-166 | after n pushes, n below 2^64, the ring has min(n, capacity) slots, each of the last values in the slot of its number |
| RingBuffer.SlotsHoldLast | src/telemetry.rs:163-166 | every slot in use has one of the last values |
| Telemetry.TelemetryTracker.RecordQualityScore | src/telemetry.rs:128-149 | the history is extended and its oldest scores are drained down to 50 |
| Telemetry.TelemetryTracker.RecordExpired | src/telemetry.rs:120-124 | the count of expired entries goes up, modulo 2^64 |
| Telemetry.TelemetryTracker.RecordHandshake | src/telemetry.rs:153-159 | the site's counter goes up by one from where it was |
| Telemetry.TelemetryTracker.RecordRequest | src/telemetry.rs:163-166 | the request goes into the slot of the index modulo 100 |
| Telemetry.TelemetryTracker.ListSites | src/telemetry.rs:205-233 | one row for each site with handshakes, in any order, with its domain, its latest score and its count |
| Telemetry.TelemetryTracker.ListTrends | src/telemetry.rs:180-203 | one trend for each site with a history, in any order, with its domain, its latest score and its history |
| Telemetry.TelemetryTracker.MakeReport | src/telemetry.rs:170-260 | counters as they are, one trend for each site with a history, at most ten top sites that are distinct and by falling handshakes so that no site left out has more, and at most 20 requests of the ring by falling timestamps so that none left out is newer |
| Telemetry.RecordsLeaveTheirMark | src/telemetry.rs:112-166 | after every sequence of records, counters count or add up their records, a site has the domain given last, each history is the last 50 of the site's scores in order, and the ring is that of all requests |
| Telemetry.RingHoldsLastRequests | src/telemetry.rs:163-166 | the ring holds exactly the last min(n, 100) requests |
| AuditLog.AuditLogger.Log | src/audit.rs:161-167 | the event goes into the slot of the index modulo 500 |
| AuditLog.AuditLogger.RecentEvents | src/audit.rs:197-206 | min(count, size) values of distinct slots, in no particular order |
| AuditLog.RecentEventsAreAmongTheLast | src/audit.rs:161-206 | the events returned are distinct ones among the last min(n, 500) logged |
| Cache.RfoCache.Get | src/cache/mod.rs:37-51 | the entry if less than the time to live has passed since it was cached, to the nanosecond, and none otherwise; an expired one is gone afterwards; as the two atomic steps do it that overlapping calls take |
| Cache.FreshUntil | src/cache/mod.rs:39-43 | after what time an entry is expired: ttl seconds of 10^9 ns after it was cached, if the time to live is positive, and otherwise from that many and a second before on |
| Cache.RfoCache.GetByDomain | src/cache/mod.rs:55-67 | an entry cached less than the time to live ago whose key contains the domain, and none only if there is no such entry |
| Cache.RfoCache.Insert | src/cache/mod.rs:32-34 | the entry replaces whatever the key had |
| Cache.RfoCache.Remove | src/cache/mod.rs:75-77 | what was removed, fresh or not |
| Cache.RfoCache.CleanupExpired | src/cache/mod.rs:80-86 | exactly the entries cached less than the time to live ago stay |
| Cache.RfoCache.Clear | src/cache/mod.rs:98-100 | nothing stays |
| Cache.PresentIsLatest | src/cache/mod.rs:32-100 | in every interleaving whatever the cache has for a key is the latest insert for it |
| Cache.StepLacksOnlyExpired | src/cache/mod.rs:32-100 | a step either keeps the cache lacking only expired entries or takes a fresh one away, which shows at once |
| Cache.LooksAgree | src/cache/mod.rs:37-86 | as long as no removal takes a fresh entry, every look at any later moment answers like a map that never evicts, filtered by age |
| Cache.EvictionIsInvisible | src/cache/mod.rs:37-86 | in a run of overlapping calls under a clock that does not go back, lazy removal and cleanup go unnoticed if and only if no removal takes a fresh entry away |
| Cache.UncontestedRemovalsAreHarmless | src/cache/mod.rs:45-48 | a run has a removal that takes a fresh entry if and only if it has one whose key got an insert after the look that it belongs to, which is still the latest and fresh |
| Cache.FreshInsertCanBeLost | src/cache/mod.rs:45-48 | a run in which that happens |
| Handshake.HandleHandshake | src/server/handlers.rs:183-317 | response, cache and telemetry after the handler are those of the specification `Handled`; what is served is the doc or the mdoc, as asked for, of the cached entry or else of the compiled page |
| Handshake.NonceIsRecent | src/crypto/site_id.rs:69-74 | a nonce is accepted if and only if it is long enough and the request's own time is within 300 s of the clock, or is exactly 2^63 s before it, where the 64-bit difference wraps around |
| Handshake.ProcessHandshakeInner | src/server/handlers.rs:494-585 | the same for each request of a batch, which is not recorded as a request |
| Handshake.CacheHasLatest | src/server/handlers.rs:203-317 | whatever other code puts in, takes out or looks up between requests, the cache has the latest entry for each URL unless that has expired |
| Handshake.AnswersAreLatest | src/server/handlers.rs:183-317 | the answer to a request, from the history of requests and other uses of the cache alone: the doc or mdoc, as asked for, of the latest entry while it lives, else of a new page, or a failure |
| Handshake.HitsAndMissesAreCalls | src/server/handlers.rs:183-317 | hits plus misses are exactly the requests, but for parts of batches whose nonce is not accepted, and hits are the answers from the cache |
| Handshake.HandshakesAreServed | src/server/handlers.rs:183-317 | a site's handshake counter is the number of requests that were answered with a page of it |
| HandshakeRuns.EveryInterleavingIsAccounted | src/server/handlers.rs:183-317 | however handshakes, parts of batches and inserts, removals, clears, lookups and cleanups by other code overlap, hits are the calls counted as answered from the cache and misses the other calls counted, and the cache is that of the cache steps taken |
| HandshakeRuns.AnsweredCallsAreHitsAndMisses | src/server/handlers.rs:183-317 | in such a run, when all calls are answered, hits plus misses are the calls, but for parts of batches whose nonce is not accepted, and hits are the answers from the cache |
| HandshakeRuns.EveryInterleavingCountsSites | src/server/handlers.rs:183-317 | in such a run a site's handshake counter is the number of calls counted so far among those answered with a page of it |
| HandshakeRuns.AnsweredCallsAreHandshakes | src/server/handlers.rs:183-317 | and when all calls are answered, the number of answers with a page of the site |
| HandshakeRuns.EveryRemovalBelongs | src/cache/mod.rs:45-48 | a call is about to remove a key exactly when it has found its own URL expired |
| HandshakeRuns.HitIsLatestInsert | src/server/handlers.rs:203-228 | in every such run, with inserts, removals and clears by other code, a look is answered from the cache if and only if the latest insert for its URL, whoever made it, is alive and its key still there, and then with the doc or mdoc, as asked for, of that insert |
| HandshakeRuns.LookFindsLatestInsert | src/server/handlers.rs:203-228 | in such a run, under clocks that do not go back and unless a lazy removal has taken a fresh entry, the key of a live latest insert that nobody removed is still there, so that every look finds it |
| HandshakeRuns.EveryAnswerIsRight | src/server/handlers.rs:183-317 | in every such run every answer, pending or given, is what the call asks for: the doc or mdoc of a page inserted before for its own URL, or of the page compiled for it, or the failure it met |
| HandshakeRuns.OthersUseCache | src/cache/mod.rs:32-100 | what other code does to the cache is done by its atomic steps in such runs, and touches nothing else |
| HandshakeRuns.FreshPageCanBeMissed | src/server/handlers.rs:203-228 | a run of four handshakes in which a call misses a page that was just inserted |
| HandshakeRuns.UninterruptedCallIsHandled | src/server/handlers.rs:183-317 | after any such run, a call that nothing interrupts does in its atomic steps what the handler does |
| CoreFile.SplitLinks | src/core_file.rs:225-232 | both filters keep the order of the links |
| CoreFile.PathOfUrl | src/core_file.rs:156-165 | the path is what is left without schemes, domain and the slashes after it, or all but the schemes if the domain does not come first |
| CoreFile.DepthOfPath | src/core_file.rs:167 | one less than the slashes of the path, but not below zero |
| CoreFile.LinksArePartitioned | src/core_file.rs:225-232 | every link is in exactly one of the two lists, as often as on the page |
| CoreFile.LinksAreSorted | src/core_file.rs:225-232 | a link is in a list if and only if it is on the page and contains the domain, or does not |
| CoreFile.Accumulate | src/core_file.rs:148-251 | after the loop, pages, pairs, topics, first paragraphs and counters are the aggregates of the inputs |
| CoreFile.TopicsOneMore | src/core_file.rs:197-206 | topic lists stay exactly the pages with more than three pairs, by topic, in input order |
| CoreFile.SortKeepsSums | src/core_file.rs:253 | sorting by path keeps the totals |
| CoreFile.FindBest | src/core_file.rs:262-263 | the last of the pages with the highest score |
| CoreFile.FindWorst | src/core_file.rs:264-265 | the first of the pages with the lowest score |
| CoreFile.AverageOfScores | src/core_file.rs:255-260 | the average and its truncation lie between the bounds of the scores |
| CoreFile.ScoresAreRight | src/core_file.rs:255-351 | worst <= average <= best, both attained, and the overall score lies between worst and best + 5 |
| CoreFile.ScorePages | src/core_file.rs:255-351 | the scores of a site, which are all zero without pages |
| CoreFile.CompileFromPages | src/core_file.rs:129-401 | there is no bundle, because of a panic, if and only if the joined first paragraphs have more than 1000 bytes and no prefix of exactly 1000; otherwise the bundle is a path-sorted permutation of the pages with totals, topics, scores, hashes, coordinates and summary that fit them |
| CoreFile.CutAt | src/core_file.rs:270 | cutting a text at a byte gives the prefix of that length, or panics if and only if there is none |
| CoreFile.Summarize | src/core_file.rs:268-273 | the text, or its first 1000 bytes and its length, or the panic |
| CoreFile.ValueOfDecimal | src/core_file.rs:270 | the length that a cut summary tells is the decimal of the number, without a leading zero |
| CoreFile.OneParagraphPanics | src/core_file.rs:268-270 | one page whose first paragraph is 334 times U+4E2D cannot be compiled |
| CoreFile.AsciiIsCut | src/core_file.rs:268-270 | text of one-byte characters never causes the panic |
| CoreFile.GatherCoordinates | src/core_file.rs:450-456 | for every coordinate the values of the pages in order |
| CoreFile.MostFrequent | src/core_file.rs:459-463 | a value that no other value outnumbers |
| CoreFile.ExtractCoordinates | src/core_file.rs:450-469 | every coordinate that some page has gets a most frequent one of its values, and no other coordinate is there |
| Sorting.SortIsStable | src/core_file.rs:253 | the sort keeps the order of pages with equal paths |
| Sorting.DictionaryOrder | src/core_file.rs:253 | paths and domains sort like in a dictionary: a prefix first, otherwise by the first difference |
| Sorting.TopGoesFirst | src/telemetry.rs:234-245 | after sorting and truncating, nothing left out goes before anything kept |

## Left out

Abstracted, that is, parameters of the model about which nothing but the stated laws is assumed:

- JSON and MessagePack: an encoder and a decoder, with decode(encode(x)) == x, and no proper prefix of an encoding standing for the same value, where a lemma says so.
- HMAC-SHA256 and SHA-256: functions, the former with 32 octets of output.
- Lower-casing of domains: any function on strings; clocks: the time that a call shows.
- The pages of a site and of a handshake: what parsing, compiling and fetching one page gives, or no page.
- Error texts that a server sends: any function of the error.

Modelled up to a stated bound or condition:

- Compiler.PrintedContentParsesBack: for content without code blocks whose printed text has no injection phrase; the parser skips fence lines, so code blocks do not come back.
- Compiler.ParsedContentSurvives: likewise only where the printed text has no injection phrase, which joining lines with blank lines can form.
- RateLimiter.AtMostTwoWindowsPerMinute: for addresses no window of which sees 2^32 calls, in a build that does not check for overflow; beyond that `RateLimiter.AllowedByPosition` says what happens, and `RateLimiter.WrappedCounterLetsMoreThrough` that the bound fails. `RateLimiter.AtMostTwoWindowsWhenChecking` has no such condition.
- HandshakeRuns.LookFindsLatestInsert: for clocks that do not go back and runs in which no lazy removal takes a fresh entry, without which a live page can be missed, as `HandshakeRuns.FreshPageCanBeMissed` shows; `HandshakeRuns.HitIsLatestInsert` says for all runs what a look finds.
- ConnectionGate.EveryInterleavingIsAccounted: for runs of fewer than 2^64 steps.
- RingBuffer.RingHoldsLast: for fewer than 2^64 values, since 2^64 is no multiple of 100 or 500.
- AuditLog.AuditLogger.RecentEvents: promises membership and size, not recency, because the code reverses the order of a hash map.
- Quality.CalculateQualityScore: sums are unbounded, so overflow of u32 and lengths of 4 GiB and more are not modelled; the multipliers 1.5 and 1.2 are exact fractions.
- CoreFile.CompileFromPages: averages are exact reals; the rounding of the stored average, topic confidences and the search metadata are not modelled.
- Telemetry.TelemetryTracker.MakeReport: the hit ratio is an exact real.
- Handshake.HandleHandshake: headers, database rows and processing times are not modelled, nor the panic of a build that checks for overflow when a request's own time is 2^63 s or more away.

Not modelled:

- Counters of 64 bits that only count (resolve counts, hits, misses, handshakes) are unbounded.
- Poisoned locks and failing file access in the resolver; each call holds its lock throughout and is one step.
- The order of memory operations: every atomic operation and every access to one map entry is one step.
- Flushing after a write, and the errors with which reads and writes can fail other than at the end of the stream.
- The second check of magic and version in `read_frame`, which `from_bytes` has done already and which cannot fail.
- The parsing of domain names and the making of site ids, and the errors of both, in `compile_from_pages`.
- HTML parsing, the general regex engine, and the keyword tables of `extract_coordinates`.
- Time-outs, partial writes other than a broken one, and the back-pressure of TCP.
- `src/client.rs`, `src/cli.rs`, `src/main.rs`, `src/ffi.rs`, the bindings, `src/admin.rs`, `src/auth.rs`, `src/pipeline.rs`, `src/protocol.rs`, `src/domain.rs`, the rest of `src/crypto/site_id.rs`, `src/server/websocket.rs` and the remaining handlers: I/O, lookups and constant tables that would add only easy members.

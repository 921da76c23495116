# Verified core of the Oracle driver for Go

A Dafny model of the parts of the driver whose correctness is hard to see from one function: concurrent protocols, queues,
the TTC wire format, the SQL placeholder scanner, recursive cursor cleanup, the caches and the LOB character payloads.
`dafny verify dfyconfig.toml` checks everything.

| file | component |
|---|---|
| `TokenProvider.dfy` | the OCI token provider: single-flight refresh and key generations |
| `StatementCancellation.dfy` | the handshake of execution thread, context after-function and cleanup |
| `MessageStreamer.dfy` | `Push`, `Pull`, `Flush`, `Drain` over the two message queues |
| `TtcIntegers.dfy`, `MarshalEngine.dfy`, `WireRecords.dfy` | universal and native integers, chunked values, records |
| `Placeholders.dfy`, `BindAlignment.dfy` | the placeholder scanner and the two bind alignments |
| `RefCursors.dfy` | closing REF CURSORs nested through row payloads, and implicit result sets |
| `TtlCaches.dfy`, `LruCaches.dfy` | the two bounded caches |
| `Utf16Payloads.dfy` | CLOB and NCLOB payloads |
| `Results.dfy` | optional values and fallible results |

Objects that the driver updates in place are classes whose methods are proved against functions on values; the theorems are
about those functions and about whole runs of them. The two concurrent components are transition systems whose atomic steps
are the mutex-held sections and the channel operations. The clock readings of a call, the outcome of a token request, of
creating and pushing a close message and of writing a message, the order in which a Go map is iterated, the letter
classification of a rune and the UTF-8 conversion of a byte string are parameters or unconstrained choices. Automatic induction
is off for the inductive lemmas and for those about object references, so each of these proofs is what its body says.

## Assumptions

- Token provider: the digest has no collisions, the refresh window is not negative, the clock does not go back, and, for
  `ReturnedTokenKeepsItsKey` only, the service does not issue the same token string twice.
- Cancellation: break/reset is requested only after the sub-context has been cancelled (internal/driver/ttc/statement.go:357-362).
  Liveness lemmas take request and cleanup to run in one goroutine, as the deferred cleanup makes them;
  `OverlappingCleanupCanDeadlock` shows why.
- Streamer: factory and pre-callbacks create messages of the type the header announced; callbacks decide by their arguments.
- Scanner: a space is not a letter.
- TTL cache: a positive size and lifetime, as the constructor function enforces; `GetAnswersExactly` and `RunAgrees` also need
  a clock that does not go back.

## Where the code differs from what one might expect

- A colon followed by neither `=` nor a name is recorded as a placeholder with an empty name
  (internal/driver/ttc/sql_namedvalue_parser.go:112-125): see `EmptyNameExactlyWhen`.
- Placeholders that no argument supplies are dropped, although the comment of the function announces an error
  (internal/driver/ttc/sql_namedvalue_parser.go:312-322): see `CompleteExactlyWhen`.
- The short form of `UnmarshalCLR` ignores `maxSize`: see `MaximumHoldsExactlyWhen`.
- The universal decoder is injective only on frames without a leading zero digit: see `CanonicalExactlyWhen`.
- Replacing a key of a full TTL cache can evict another live entry: see `PutKeepsOthersExactlyWhen`.
- The two bind alignments disagree as soon as a name repeats: see `DisagreeWithRepeats`.
- The write buffer of a variable-width CLOB has no room for surrogate pairs: see `BufferSufficesExactlyWhen`.
- The outgoing queue may hold one message more than its limit of 50, since the length is compared before the push:
  see `PushExceedsLimitExactlyWhen` and `QueueOverflows`.

## Model

| member | source | states |
|---|---|---|
| `TokenProvider.ReturnedTokenKeepsItsKey` | providers/oci/provider.go:465-551 | in every interleaving, once `Token` has returned a token, every later lookup before its expiry yields the key generated with it, whatever refreshes, failures and prunes ran in between |
| `TokenProvider.RunKeepsInvariants` | providers/oci/provider.go:465-524 | in every reachable state: at most one leader; `refreshing` holds exactly while `refreshDone` is that leader's open channel; every other channel was closed exactly once; waiters hold a channel that is closed or the leader's; every unexpired issued key is retained and nothing else is stored |
| `TokenProvider.StepKeepsSingleFlight` | providers/oci/provider.go:470-524 | each mutex-held section keeps the single-flight invariant |
| `TokenProvider.StepKeepsRetained` | providers/oci/provider.go:479-521 | each mutex-held section, clock step and lookup keeps the retention invariant |
| `TokenProvider.EntryAnswersExactly` | providers/oci/provider.go:470-495 | in every run, a caller that enters is returned the token issued last if and only if one was issued and is further from expiry than the refresh window; otherwise it waits on the leader's channel if there is a leader and leads if not; nobody else is affected, and a caller not served leaves no expired key behind |
| `TokenProvider.PublicationAnswersExactly` | providers/oci/provider.go:500-523 | the leader returns the token it was issued, which the next caller is served if it is fresh; a failed request rejects only the leader and leaves the cache as it was |
| `TokenProvider.RunCachesLastIssued` | providers/oci/provider.go:506-513 | in every reachable state the cache holds the token issued last with its expiry, and nothing before the first one |
| `TokenProvider.LastIssuedIs` | providers/oci/provider.go:506-513 | the token issued last is the outcome of a publication after which no other token was issued |
| `TokenProvider.WokenCallerStartsOver` | providers/oci/provider.go:486-490 | a woken waiter enters the first section again; a cancelled one fails |
| `TokenProvider.WaiterIsReleasable` | providers/oci/provider.go:483-495 | no waiter is stuck: it can wake now, or a leader exists whose every possible publication, success or failure, wakes it |
| `TokenProvider.KeyForIsExact` | providers/oci/provider.go:536-551 | a lookup answers exactly for issued, unexpired tokens, with the key published last for that token |
| `TokenProvider.ServedTokenHasItsKey` | providers/oci/provider.go:470-478 | a token served from the cache has its key in the store and is further from expiry than the refresh window |
| `TokenProvider.Provider.PruneExpiredGenerations` | providers/oci/provider.go:614-625 | the deleting loop leaves exactly the generations that expire later than now |
| `TokenProvider.Provider.Enter` | providers/oci/provider.go:470-495 | the first critical section serves, joins or leads as specified and leaves the specified fields |
| `TokenProvider.Provider.Publish` | providers/oci/provider.go:500-523 | the second critical section publishes token, expiry and key, or only ends the refresh on failure |
| `TokenProvider.Provider.PrivateKeyForToken` | providers/oci/provider.go:536-551 | prunes, then looks the digest up |
| `StatementCancellation.BreakResetIsAuthorisedAndUnique` | internal/driver/ttc/statement.go:91-101 | in every run break/reset happens at most once, only after a request was let through, and never once cleanup has returned |
| `StatementCancellation.NoSendBlocks` | internal/driver/ttc/statement.go:80-108 | no channel send ever finds its buffer full, and no channel is closed twice |
| `StatementCancellation.QuietAfterCleanup` | internal/driver/ttc/statement.go:397-407 | once cleanup has returned, the after-function has finished or can never start, and takes no further step |
| `StatementCancellation.CleanedUpBeforeCancellation` | internal/driver/ttc/statement.go:397-406 | a run cleaned up before cancellation never spawns the after-function nor runs break/reset, although the sub-context is cancelled when cleanup has returned |
| `StatementCancellation.CleanupCancels` | internal/driver/ttc/statement.go:398-406 | whenever cleanup has returned the sub-context is cancelled; before cleanup begins it is cancelled only if somebody cancelled it |
| `StatementCancellation.NeverStuck` | internal/driver/ttc/statement.go:371-410 | with request and cleanup in one goroutine, every reachable state that is not over has a step that some party owes |
| `StatementCancellation.StuckExactlyWhenOverOrDeadlocked` | internal/driver/ttc/statement.go:371-410 | a state has no owed step if and only if it is over or a request was let through after cleanup had stopped the after-function |
| `StatementCancellation.OverlappingCleanupCanDeadlock` | internal/driver/ttc/statement.go:91-102 | the shared goroutine is needed: a concrete overlapping run ends with the requester waiting for ever |
| `StatementCancellation.EveryWaitEnds` | internal/driver/ttc/statement.go:379-403 | every wait, for the verdict, the result, the end of the after-function or the run-once cell, ends within a bound that the state gives, and while it lasts a step that somebody else owes is enabled |
| `StatementCancellation.NobodyWaitsAtTheEnd` | internal/driver/ttc/statement.go:379-407 | where no party owes a step any more, nobody waits |
| `StatementCancellation.WaiterHasActivePeer` | internal/driver/ttc/statement.go:379-403 | whenever a party waits, a step owed by somebody else, and none of its own, is enabled |
| `StatementCancellation.CleanupReturns` | internal/driver/ttc/statement.go:397-407 | once cleanup has begun at most twelve more steps exist, and where none is owed any more cleanup has returned, the sub-context is cancelled, the requester is idle and the after-function is gone |
| `StatementCancellation.RequestReturns` | internal/driver/ttc/statement.go:91-102 | while a request is under way at most as many steps pass as the state's rank says, and one is always owed |
| `StatementCancellation.CancelFunctionCalledOnce` | internal/driver/ttc/statement.go:381-395 | the timeout's cancel function is called exactly once if it was made: by the after-function when turned away, else by the requester it was handed to |
| `StatementCancellation.RunKeepsInv` | internal/driver/ttc/statement.go:70-108 | the registration, channel, authority and cancel-function invariants hold in every reachable state |
| `StatementCancellation.Execution.AfterFunctionStep` | internal/driver/ttc/statement.go:379-395 | each atomic action of the after-function, run on the shared channels, is the matching step of the handshake and closes no channel twice |
| `StatementCancellation.Execution.RequestStep` | internal/driver/ttc/statement.go:91-102 | each atomic action of `requestBreakReset` and of its caller is the matching step of the handshake |
| `StatementCancellation.Execution.CleanupStep` | internal/driver/ttc/statement.go:104-108 | each atomic action of cleanup, with `abortBreakReset` inside, is the matching step of the handshake |
| `StatementCancellation.StepsAreActions` | internal/driver/ttc/statement.go:371-410 | the handshake has no other steps than these and those of the context package |
| `MessageStreamer.PullRefinesPending` | internal/driver/ttc/message_streamer.go:176-270 | viewing parked and still-to-come kept messages as one sequence, a delivery removes and returns its first element of a wanted type with its recorded error and keeps the order of the rest; a read error changes nothing; an overflow loses exactly the element that found the parking full; parking stays within 1024 |
| `MessageStreamer.PullSucceedsExactly` | internal/driver/ttc/message_streamer.go:176-270 | for every inbox, `Pull` delivers if and only if a wanted element is pending before the first broken frame with at most 1024 elements before it |
| `MessageStreamer.PlainFrameIsDelivered` | internal/driver/ttc/message_streamer.go:205-268 | without callbacks a wanted frame is delivered as a message of its type with its body and the fault of its unmarshalling |
| `MessageStreamer.PostCallbackDecides` | internal/driver/ttc/message_streamer.go:241-259 | a post-callback sees the message with the error so far; a kept message is delivered with the callback's error, a discarded one is as if it had not come |
| `MessageStreamer.PreCallbackErrorIsRecorded` | internal/driver/ttc/message_streamer.go:213-240 | a pre-callback's message object is used and its error recorded, unless unmarshalling fails, whose fault takes precedence |
| `MessageStreamer.UnreadableFrameIsReadError` | internal/driver/ttc/message_streamer.go:205-232 | a header that cannot be read, or no object that can be unmarshalled, is a read error that consumes the frame |
| `MessageStreamer.UnwantedFrameIsParked` | internal/driver/ttc/message_streamer.go:260-268 | a kept message of another type is parked behind the others, or lost with an overflow error when 1024 are parked |
| `MessageStreamer.PullsAreFifoPerType` | internal/driver/ttc/message_streamer.go:176-270 | over any run of pulls, delivered followed by pending elements of a type of which none was lost are what was pending of it at the start |
| `MessageStreamer.PullsConserveElements` | internal/driver/ttc/message_streamer.go:176-270 | over any run of pulls, delivered, lost and pending elements together are the initial pending ones: nothing is duplicated or invented |
| `MessageStreamer.OutgoingRunIsOrdered` | internal/driver/ttc/message_streamer.go:145-163 | over any run of pushes and flushes, the queue is a suffix of the push order, completely written messages are those not drained, in push order, once each, and the queue holds at most 51 |
| `MessageStreamer.LossExactlyInEmergency` | internal/driver/ttc/message_streamer.go:152-160 | over any run, some message is lost if and only if a push finds the queue over its limit and its flush leaves messages unsent |
| `MessageStreamer.PushExceedsLimitExactlyWhen` | internal/driver/ttc/message_streamer.go:152-161 | a push leaves the queue above its limit of 50 exactly when it found it at the limit |
| `MessageStreamer.QueueOverflows` | internal/driver/ttc/message_streamer.go:152-161 | 51 pushes fill the queue to 51; a next push whose flush fails at the first header loses all of them |
| `MessageStreamer.RunStaysWellFramed` | internal/driver/ttc/message_streamer.go:333-352 | over any run, every message body written, complete or not, stands right behind its own header |
| `MessageStreamer.FlushKeepsUnsentSuffix` | internal/driver/ttc/message_streamer.go:327-361 | a flush writes a prefix of the queue completely and in order and keeps exactly the rest; it stops early only at a refused message |
| `MessageStreamer.Streamer.Pull` | internal/driver/ttc/message_streamer.go:176-270 | the loop over the parked list and the wire computes the specified delivery and inbox |
| `MessageStreamer.Streamer.Flush` | internal/driver/ttc/message_streamer.go:327-361 | the loop over the queue computes the specified outbox; it reports success exactly when the queue is empty and the layer below flushed |
| `MessageStreamer.Streamer.Push` | internal/driver/ttc/message_streamer.go:145-163 | queues behind the others, after an emergency flush or drain when the queue is over its limit; a nil message is refused |
| `MessageStreamer.Streamer.Drain` | internal/driver/ttc/message_streamer.go:365-383 | empties the chosen queues and reports their lengths, or -1 for a queue not asked for |
| `MessageStreamer.Streamer.IsValid` | internal/driver/ttc/message_streamer.go:394-404 | empties the parked queue and reports whether it was empty |
| `TtcIntegers.DecodeUniversalIsExact` | internal/driver/ttc/marshal_engine.go:1178-1264 | a well-formed universal frame is accepted if and only if its mathematical value lies in the target type's range (a negative flag never for unsigned types), and then yields that value and the bytes behind it |
| `TtcIntegers.CheckedIsExact` | internal/driver/ttc/marshal_engine.go:1206-1240 | the wrapping negation and comparison accept a magnitude and sign exactly when the signed value is in range |
| `TtcIntegers.UniversalRoundTrip` | internal/driver/ttc/marshal_engine.go:1045-1111 | every value of every supported width, including the minimum of a signed type, survives the universal form and leaves the bytes behind it |
| `TtcIntegers.CanonicalExactlyWhen` | internal/driver/ttc/marshal_engine.go:1083-1264 | of all frames that are read as some value, the encoder's own are exactly the single zero byte and those whose first digit is not zero |
| `TtcIntegers.SignificantFramesAreUnique` | internal/driver/ttc/marshal_engine.go:1178-1264 | two such frames that are read as the same value are the same frame |
| `TtcIntegers.UniversalDecodingIsNotInjective` | internal/driver/ttc/marshal_engine.go:1178-1264 | witnesses outside that set: a leading zero and a negative zero decode like shorter frames |
| `TtcIntegers.UniversalFrameShape` | internal/driver/ttc/marshal_engine.go:1083-1111 | a frame is a length byte, carrying the sign, and that many digits without a leading zero |
| `TtcIntegers.NativeRoundTrip` | internal/driver/ttc/marshal_engine.go:1281-1325 | every in-range value survives the native form in either byte order |
| `TtcIntegers.NativeByteOrder` | internal/driver/ttc/marshal_engine.go:1281-1325 | big-endian frames start with the most significant byte of the two's complement, little-endian ones with the least significant, and one is the other backwards |
| `TtcIntegers.TwoDigitFrame` | internal/driver/ttc/marshal_engine.go:1083-1111 | a two-digit magnitude is written as its digit count with the sign in the top bit, then the more and the less significant digit |
| `TtcIntegers.IntegerRoundTrip` | internal/driver/ttc/marshal_engine.go:330-433 | every in-range value survives writing and reading in whichever representation and byte order was negotiated |
| `TtcIntegers.LengthReadAsSigned` | internal/driver/ttc/ttcTypes.go:104-121 | a length written unsigned and read signed comes back unchanged below two to the thirty-first |
| `TtcIntegers.EncodeAbsoluteUniversalValue` | internal/driver/ttc/marshal_engine.go:1083-1111 | the loop that strips leading zero bytes computes the specified frame |
| `TtcIntegers.WriteUniversal` | internal/driver/ttc/marshal_engine.go:1045-1062 | writes the frame of the absolute value and sign |
| `MarshalEngine.ClrRoundTrip` | internal/driver/ttc/marshal_engine.go:523-568 | any value, short whatever `maxSize` or chunked within it, followed by any bytes is returned by both readers, which stop exactly at its end; the column reader refuses it only when it exceeds the aggregate limit |
| `MarshalEngine.ClrIsReadBounded` | internal/driver/ttc/marshal_engine.go:818-872 | for every `maxSize`: a short value comes back whole, a chunked one cut to `maxSize`, and both are consumed to their end |
| `MarshalEngine.MaximumHoldsExactlyWhen` | internal/driver/ttc/marshal_engine.go:833-836 | `maxSize` bounds what is returned for a written value exactly when it is chunked or that short anyway |
| `MarshalEngine.ShortFormCanExceedMaximum` | internal/driver/ttc/marshal_engine.go:833-836 | a witness: two bytes are returned where one was asked for |
| `MarshalEngine.ReadClrStaysBelow` | internal/driver/ttc/marshal_engine.go:818-872 | on any input at all, a destination of `maxSize` bytes is never overrun |
| `MarshalEngine.ClrLayout` | internal/driver/ttc/marshal_engine.go:523-568 | up to 252 bytes stand behind their length; up to 32767 form one chunk between the marker 0xFE and a closing zero |
| `MarshalEngine.MarkersAreAnswered` | internal/driver/ttc/marshal_engine.go:818-832 | 0xFF is an empty value, 0xFD a protocol violation and no input an end of input, for both readers |
| `MarshalEngine.LimitsAre` | internal/driver/ttc/marshal_engine.go:898-961 | the aggregate limit is 64 MiB or twice the prefetch size if that is more, and a chunk has at most 65534 bytes |
| `MarshalEngine.ClrIsSelfDelimiting` | internal/driver/ttc/marshal_engine.go:523-568 | two values whose frames, with whatever follows, form the same bytes are the same value followed by the same bytes |
| `MarshalEngine.LongFrameIsReadWhole` | internal/driver/ttc/marshal_engine.go:838-872 | of any chunked frame `UnmarshalCLR` returns the prefix of length min(maxSize, total) and consumes all of it, whatever the chunk sizes |
| `MarshalEngine.ColumnFrameIsReadExactly` | internal/driver/ttc/marshal_engine.go:898-961 | a chunked frame is accepted by the column reader if and only if every chunk and the total are within the limits |
| `MarshalEngine.ColumnNeverExceedsLimit` | internal/driver/ttc/marshal_engine.go:898-961 | on any input at all, the column reader never returns more than its aggregate limit |
| `MarshalEngine.CutIsFaithful` | internal/driver/ttc/marshal_engine.go:540-568 | the writer's chunks put together are the value, and each is acceptable to the readers |
| `MarshalEngine.Engine.MarshalCLR` | internal/driver/ttc/marshal_engine.go:523-568 | appends the short or the chunked frame of the requested window |
| `MarshalEngine.Engine.MarshalChunks` | internal/driver/ttc/marshal_engine.go:540-568 | the chunk loop appends the specified body |
| `MarshalEngine.Engine.UnmarshalCLR` | internal/driver/ttc/marshal_engine.go:818-872 | fills the destination with the value read, leaves the rest of it alone and consumes what the specification consumes |
| `MarshalEngine.Engine.UnmarshalChunks` | internal/driver/ttc/marshal_engine.go:838-872 | the chunk loop keeps what fits below maxSize and reads past the rest |
| `MarshalEngine.Engine.UnmarshalBuffer` | internal/driver/ttc/marshal_engine.go:989-1007 | copies the next bytes into a slice of the destination, or fails when it has no room or input |
| `MarshalEngine.Engine.UnmarshalCLRColumnData` | internal/driver/ttc/marshal_engine.go:898-961 | reads a column value as specified |
| `MarshalEngine.Engine.MarshalNumeric` | internal/driver/ttc/marshal_engine.go:330-433 | appends the negotiated form of an integer |
| `MarshalEngine.Engine.UnmarshalNumeric` | internal/driver/ttc/marshal_engine.go:1130-1176 | reads an integer in the negotiated form or reports the error |
| `WireRecords.KeyValueListComesBackExactlyWhen` | internal/driver/ttc/ttcTypes.go:123-226 | for every list, however long its keys and values: it comes back, followed by exactly what followed it, if and only if all lengths are within the limits |
| `WireRecords.KeywordArrayComesBackExactlyWhen` | internal/driver/ttc/ttcTypes.go:253-301 | the same for every keyword/value array, with its limit on pairs |
| `WireRecords.KeyValueListRoundTrip` | internal/driver/ttc/ttcTypes.go:123-226 | a written key/value list followed by any bytes is read back as the same list and leaves exactly those bytes, in every representation and byte order, if all lengths are within the limits; otherwise, with lengths below two to the thirty-first, it is refused |
| `WireRecords.KeywordArrayRoundTrip` | internal/driver/ttc/ttcTypes.go:253-301 | the same for keyword/value arrays, which have a limit on the number of pairs as well |
| `WireRecords.KeyValueRoundTrip` | internal/driver/ttc/ttcTypes.go:123-226 | one key/value pair: key, value and flag come back, or the pair is refused for its lengths |
| `WireRecords.KeywordRoundTrip` | internal/driver/ttc/ttcTypes.go:253-301 | one keyword/value pair: text, binary and keyword come back, or the pair is refused for its lengths |
| `WireRecords.KeyThenValueThenFlag` | internal/driver/ttc/ttcTypes.go:123-172 | a written pair reads as its key, then its value, then its flag |
| `WireRecords.TextThenBinaryThenKeyword` | internal/driver/ttc/ttcTypes.go:253-273 | a written keyword pair reads as its text, then its binary value, then its number |
| `WireRecords.LimitsAreExact` | internal/driver/ttc/ttcTypes.go:54-61 | the length limits as numbers |
| `WireRecords.FieldRoundTrip` | internal/driver/ttc/ttcTypes.go:310-347 | a dynamically allocated array is read back whole within the reader's limit and refused beyond it |
| `WireRecords.RecordsRoundTrip` | internal/driver/ttc/ttcTypes.go:175-226 | for any record format whose reader returns each good record and stops at its end, a written sequence is read back if all records are good and refused otherwise |
| `WireRecords.MarshalField` | internal/driver/ttc/ttcTypes.go:310-323 | appends the length and, unless empty, the bytes of a field |
| `WireRecords.UnmarshalField` | internal/driver/ttc/ttcTypes.go:328-347 | reads a field or reports the error |
| `WireRecords.MarshalKeyValues` | internal/driver/ttc/ttcTypes.go:123-172 | the loop over the list appends the records in order |
| `WireRecords.UnmarshalKeyValues` | internal/driver/ttc/ttcTypes.go:175-226 | the loop fills the preallocated list with the records read |
| `WireRecords.MarshalKeywords` | internal/driver/ttc/ttcTypes.go:253-273 | the loop over the array appends the records in order |
| `WireRecords.UnmarshalKeywords` | internal/driver/ttc/ttcTypes.go:275-301 | the loop fills the preallocated array with the records read |
| `Placeholders.BlankingKeepsPlaceholders` | internal/driver/ttc/sql_namedvalue_parser.go:82-241 | blanking every comment, string, quoted identifier and alternative-quoted literal with spaces never changes the outcome of parsing: same names, same indexes, or the same error |
| `Placeholders.NamesAreInText` | internal/driver/ttc/sql_namedvalue_parser.go:100-133 | a successful parse records, in text order, the longest run of name characters behind every colon that lies outside every comment, string and name and is not followed by `=`, and nothing else |
| `Placeholders.ParseSucceedsExactly` | internal/driver/ttc/sql_namedvalue_parser.go:100-143 | parsing succeeds exactly when no such colon is the last character of the text and at most 65536 of them start placeholders |
| `Placeholders.SkipIsExact` | internal/driver/ttc/sql_namedvalue_parser.go:149-241 | the scanner passes over exactly line comments, block comments, quoted texts and identifiers with doubled quotes, and alternative-quoted literals with their matching delimiter, each up to its end in the text |
| `Placeholders.DanglesExactlyWhen` | internal/driver/ttc/sql_namedvalue_parser.go:106-111 | a colon dangles exactly when one outside every comment, string and name is the last character |
| `Placeholders.NameCharacters` | internal/driver/ttc/sql_namedvalue_parser.go:116-123 | a name consists of letters, digits and four other characters |
| `Placeholders.ParseIsConsistent` | internal/driver/ttc/sql_namedvalue_parser.go:82-144 | parsing succeeds exactly without a dangling colon and with at most 65536 placeholders; occurrence lists then partition the positions in increasing order, the unique numbers enumerate the names in order of first appearance, and no 16-bit index has wrapped |
| `Placeholders.EmptyNameExactlyWhen` | internal/driver/ttc/sql_namedvalue_parser.go:112-125 | a successful parse records an empty name exactly when a colon outside every comment, string and name is followed by a character that is neither `=` nor part of a name |
| `Placeholders.EmptyNameIsRecorded` | internal/driver/ttc/sql_namedvalue_parser.go:112-125 | a witness text with one empty name |
| `Placeholders.RecordKeepsConsistency` | internal/driver/ttc/sql_namedvalue_parser.go:112-143 | recording one more name succeeds exactly below the limit and keeps partition and enumeration |
| `Placeholders.RecordAllSucceedsExactly` | internal/driver/ttc/sql_namedvalue_parser.go:112-143 | recording a token list succeeds exactly without a dangling colon and within the limit |
| `Placeholders.PartitionExtends` | internal/driver/ttc/sql_namedvalue_parser.go:124-143 | appending the next position under its name keeps the occurrence lists a partition |
| `Placeholders.EnumerationExtends` | internal/driver/ttc/sql_namedvalue_parser.go:124-143 | numbering a new name with the current count keeps the enumeration in order of first appearance |
| `Placeholders.BlockEndIsFirstClosing` | internal/driver/ttc/sql_namedvalue_parser.go:149-241 | a block comment ends behind its first closing pair, or at the end of the text |
| `Placeholders.LineEndIsFirstNewline` | internal/driver/ttc/sql_namedvalue_parser.go:149-241 | a line comment ends at the first newline, or at the end of the text |
| `Placeholders.LiteralEndIsFirstClosing` | internal/driver/ttc/sql_namedvalue_parser.go:149-241 | an alternative-quoted literal ends behind its first closing delimiter followed by a quote |
| `Placeholders.QuoteEndOfEscaped` | internal/driver/ttc/sql_namedvalue_parser.go:149-241 | a quoted text whose quotes are doubled is skipped exactly to its end, whatever it contains |
| `Placeholders.SkipCommentOrString` | internal/driver/ttc/sql_namedvalue_parser.go:149-241 | the index loops compute the specified skip, always make progress and stay within the text |
| `Placeholders.ParsePlaceholders` | internal/driver/ttc/sql_namedvalue_parser.go:82-144 | the scanning loop computes the specified details or error |
| `BindAlignment.ExtractIsExact` | internal/driver/ttc/sql_namedvalue_parser.go:257-327 | succeeds exactly when every argument resolves and no two resolve to the same name; the result then lists each supplied name's value at all its occurrences, in SQL order, and nothing else |
| `BindAlignment.CompleteExactlyWhen` | internal/driver/ttc/sql_namedvalue_parser.go:312-322 | a successful result has a value for every placeholder if and only if every name is supplied, and is shorter otherwise |
| `BindAlignment.MissingArgumentIsDropped` | internal/driver/ttc/sql_namedvalue_parser.go:312-322 | a witness: two placeholders and one argument give one value and no error |
| `BindAlignment.ResolutionIsExact` | internal/driver/ttc/sql_namedvalue_parser.go:286-308 | a name stands for itself if it is a placeholder's, an ordinal for the name at that place counted from one, and nothing else resolves |
| `BindAlignment.DuplicateIsReported` | internal/driver/ttc/sql_namedvalue_parser.go:276-280 | a second argument for a name is refused with the name and its first place in the text |
| `BindAlignment.SlotIsExact` | internal/driver/ttc/sql_namedvalue_parser.go:340-375 | in PL/SQL a name stands for its rank among the distinct names and ordinal k for the k-th of them, whether or not names repeat |
| `BindAlignment.PositionalArgumentsFillInOrder` | internal/driver/ttc/sql_namedvalue_parser.go:331-389 | one positional argument for each distinct name gives exactly these values in this order |
| `BindAlignment.OrderDoesNotMatter` | internal/driver/ttc/sql_namedvalue_parser.go:257-327 | permuting the arguments changes neither success nor result |
| `BindAlignment.AgreeWithoutRepeats` | internal/driver/ttc/sql_namedvalue_parser.go:257-389 | without repeated names the SQL and PL/SQL algorithms agree on every input, errors included |
| `BindAlignment.DisagreeWithRepeats` | internal/driver/ttc/sql_namedvalue_parser.go:257-389 | with any repeated name some input succeeds in SQL and fails in PL/SQL, so agreement on every input holds exactly without repeats |
| `BindAlignment.SqlExpandsPlSql` | internal/driver/ttc/sql_namedvalue_parser.go:257-389 | for named arguments both succeed or both fail, and when all names are supplied the SQL result is the PL/SQL result expanded over the occurrences |
| `BindAlignment.SupplySucceedsExactly` | internal/driver/ttc/sql_namedvalue_parser.go:268-308 | the supplied values record each resolved argument, exactly when all resolve to different names |
| `BindAlignment.ExtractInputBindValues` | internal/driver/ttc/sql_namedvalue_parser.go:257-327 | the slices filled by the loops hold the specified result or error |
| `BindAlignment.ExtractInputBindValuesForPlSql` | internal/driver/ttc/sql_namedvalue_parser.go:331-389 | the slices filled by the loops hold the specified result or error |
| `BindAlignment.PlaceArguments` | internal/driver/ttc/sql_namedvalue_parser.go:268-308 | the loop over the arguments fills exactly the occurrences of the names supplied so far, or stops at the first error |
| `BindAlignment.PlaceInSlots` | internal/driver/ttc/sql_namedvalue_parser.go:340-375 | the loop over the arguments fills exactly the slots supplied so far, or stops at the first error |
| `BindAlignment.Compact` | internal/driver/ttc/sql_namedvalue_parser.go:312-322 | the filled positions are copied out in order; unfilled ones are dropped |
| `RefCursors.ClosesExactly` | internal/driver/ttc/rows_result.go:534-554 | on any graph of nested cursors, shared or cyclic, `Close` closes exactly the cursors that a chain of open cursors leads to |
| `RefCursors.ClosesEverythingReachable` | internal/driver/ttc/rows_result.go:534-554 | if no closed cursor has an open one in its rows, every reachable cursor is closed afterwards |
| `RefCursors.ClosingKeepsSealed` | internal/driver/ttc/rows_result.go:534-554 | that condition is kept by every `Close` |
| `RefCursors.QueuedExactlyOnce` | internal/driver/ttc/rows_result.go:548-569 | over any run of `Close` calls a cursor's server-side close is queued if and only if the run closed it, it has an identifier and a shelf and the push succeeds; it is queued once, a non-negative identifier as itself and a negative one as its 32-bit unsigned form, and nothing else is queued or unregistered |
| `RefCursors.UnsignedIsExact` | internal/driver/ttc/rows_result.go:562 | a non-negative identifier is sent as itself, a negative one plus two to the thirty-second, and no two are sent alike |
| `RefCursors.QueuedIdsDiffer` | internal/driver/ttc/rows_result.go:557-569 | over any run, cursors with different identifiers are queued under different numbers |
| `RefCursors.OwnCloseComesLast` | internal/driver/ttc/rows_result.go:539-552 | a cursor's own close is attempted and queued after all those of the cursors in its rows, and once |
| `RefCursors.EarlierKidsComeFirst` | internal/driver/ttc/rows_result.go:539-547 | cursors met earlier are dealt with completely before those met later |
| `RefCursors.KidsFromTheFront` | internal/driver/ttc/rows_result.go:540-546 | the cursors of a row are met from left to right |
| `RefCursors.RowsFromTheFront` | internal/driver/ttc/rows_result.go:539-547 | the rows are visited from the first on |
| `RefCursors.LaterClosesAreIdle` | internal/driver/ttc/rows_result.go:535-537 | once a cursor is closed no run of `Close` calls changes its recorded error or queues it, and closing it again does nothing |
| `RefCursors.ErrorIsExact` | internal/driver/ttc/rows_result.go:542-553 | where no error is recorded yet, pushes are attempted exactly for the closed cursors with an identifier and a shelf, and `Close` returns the error of the first attempt that fails, none if all succeed |
| `RefCursors.ErrorIsAFailure` | internal/driver/ttc/rows_result.go:542-553 | that error is none exactly when the push for every such cursor succeeds |
| `RefCursors.FirstErrorIsKept` | internal/driver/ttc/rows_result.go:542-544 | while the rows are visited the first error met is kept, whatever comes after |
| `RefCursors.ClosingMakesProgress` | internal/driver/ttc/rows_result.go:534-554 | what one `Close` does to all cursors and shelves: who is closed, queued, unregistered and given an error, and that everybody else is untouched |
| `RefCursors.ClosingResultsHasEffect` | internal/driver/ttc/rows_result.go:648-661 | closing the implicit-results wrapper closes all its result sets and obeys the same rules for queueing and errors |
| `RefCursors.RefCursor.Close` | internal/driver/ttc/rows_result.go:534-554 | the recursion over the heap terminates and computes the specified world and error |
| `RefCursors.RefCursor.CloseRow` | internal/driver/ttc/rows_result.go:540-546 | the loop over a row closes its non-nil cursors in order |
| `RefCursors.RefCursor.CloseServerCursor` | internal/driver/ttc/rows_result.go:557-569 | queues the unsigned identifier, unregisters the cursor and clears the identifier, or changes nothing when the push fails |
| `RefCursors.RefCursor.CloseResults` | internal/driver/ttc/rows_result.go:653-659 | the loop over the result sets closes the non-nil ones in order |
| `RefCursors.ImplicitRows.Close` | internal/driver/ttc/rows_result.go:648-661 | the loop over the result sets computes the specified world and error |
| `TtlCaches.GetAnswersExactly` | internal/common/caches.go:99-112 | over any run under a clock that never goes back, `Get` returns a value if and only if it was the last one put under the key, has not been removed, cleared or evicted, and has not expired at the clock reading used |
| `TtlCaches.RunAgrees` | internal/common/caches.go:99-226 | the cache holds only what was written and every written entry that has not expired: the sweep never loses a live entry |
| `TtlCaches.RunKeepsValid` | internal/common/caches.go:99-226 | over any run `nextExpiration` is a lower bound on all expiries, unset exactly when the cache is empty, and the size never exceeds `maxSize` |
| `TtlCaches.SkippedSweepIsIdle` | internal/common/caches.go:99-102 | a `Get` that skips the sweep leaves what an always-sweeping one would leave |
| `TtlCaches.EvictsLiveOnlyWhenAllLive` | internal/common/caches.go:121-124 | a full cache evicts a live entry only when nothing in it has expired |
| `TtlCaches.PutKeepsOthersExactlyWhen` | internal/common/caches.go:114-136 | `Put` leaves other entries alone, whichever oldest one iteration meets, exactly when the cache is not full or the key is older than all others |
| `TtlCaches.ReplacingCanEvictAnother` | internal/common/caches.go:121-124 | a concrete run in which replacing a key of a full cache evicts another, live entry |
| `TtlCaches.NewTtlCache` | internal/common/caches.go:82-97 | a non-positive size or lifetime yields no cache |
| `TtlCaches.TtlCache.Get` | internal/common/caches.go:99-112 | sweeps when due and looks the key up |
| `TtlCaches.TtlCache.Put` | internal/common/caches.go:114-136 | reports the previous value, evicts an oldest entry when full and stores the new one |
| `TtlCaches.TtlCache.Remove` | internal/common/caches.go:138-145 | removes the key and reschedules |
| `TtlCaches.TtlCache.RemoveExpired` | internal/common/caches.go:154-174 | the deleting loop keeps exactly the live entries and finds their earliest expiry |
| `TtlCaches.TtlCache.RemoveOldest` | internal/common/caches.go:178-196 | the scanning loop removes an entry with the least creation time and reschedules |
| `TtlCaches.TtlCache.RecomputeNextExpiration` | internal/common/caches.go:209-226 | the scanning loop finds the earliest expiry |
| `LruCaches.EvictsLeastRecentlyUsed` | internal/common/caches.go:313-340 | after any run, a `Put` of a new key into a full cache evicts exactly the key used least recently and any other `Put` evicts nothing; all other values stay |
| `LruCaches.RunIsOrdered` | internal/common/caches.go:300-370 | over any run the list stays within `maxSize`, holds no key twice and is in strict order of last use |
| `LruCaches.HitsAreExact` | internal/common/caches.go:300-370 | a hit returns the value last put, and a value put and not removed is missing only because it was evicted and not put again |
| `LruCaches.EvictedIsMissing` | internal/common/caches.go:313-370 | an evicted key stays missing until it is put again |
| `LruCaches.Located` | internal/common/caches.go:300-310 | looking a key up in the map finds its place and value in the recency list |
| `LruCaches.Moving` | internal/common/caches.go:308-309 | moving an element to the front keeps map and list in step |
| `LruCaches.NewLruCache` | internal/common/caches.go:286-297 | a non-positive size yields no cache |
| `LruCaches.LruCache.Get` | internal/common/caches.go:300-310 | refines the association list: a hit moves to the front |
| `LruCaches.LruCache.Put` | internal/common/caches.go:313-340 | refines the association list: replace in place and promote, or evict the last and insert in front |
| `LruCaches.LruCache.Remove` | internal/common/caches.go:343-352 | refines the association list: the key is dropped |
| `LruCaches.LruCache.RemoveOldest` | internal/common/caches.go:361-370 | drops the last element from list and map |
| `Utf16Payloads.WriteThenRead` | internal/driver/ttc/clob_executor.go:511-767 | whenever a variable-width or NCLOB write succeeds, reading its bytes puts the same runes (replaced where not scalar values) at the offset and leaves the rest of the output alone |
| `Utf16Payloads.PayloadRoundTrip` | internal/driver/ttc/clob_executor.go:511-767 | in either byte order a payload of scalar values reads back as the same runes, any other rune as the replacement character |
| `Utf16Payloads.RunesRoundTrip` | internal/driver/ttc/clob_executor.go:564-567 | runes survive UTF-16 encoding and decoding if and only if all are scalar values |
| `Utf16Payloads.UnitsRoundTrip` | internal/driver/ttc/clob_executor.go:713-725 | code units survive decoding and encoding if and only if every surrogate is paired |
| `Utf16Payloads.UnitsOfBytes` | internal/driver/ttc/clob_executor.go:815-878 | code units survive serialisation and reading in either byte order |
| `Utf16Payloads.PayloadExample` | internal/driver/ttc/lobamt_unit.go:63-68 | the surrogate pair of a character outside the basic plane, high before low, and its bytes in both orders |
| `Utf16Payloads.ReplacementIs` | internal/driver/ttc/clob_executor.go:564-567 | whatever is no scalar value, and every lone surrogate, becomes U+FFFD |
| `Utf16Payloads.BufferSufficesExactlyWhen` | internal/driver/ttc/clob_executor.go:482-487 | the buffer a write allocates is large enough exactly when the surrogate pairs fit into its slack |
| `Utf16Payloads.OneSupplementaryCharacterDoesNotFit` | internal/driver/ttc/clob_executor.go:294-307 | a concrete valid character that a variable-width write of one character cannot encode into its buffer |
| `Utf16Payloads.EncodeLobCharPayload` | internal/driver/ttc/clob_executor.go:511-543 | fails exactly when a fixed-width charset is unknown or two bytes per code unit exceed the buffer, and then writes nothing; otherwise writes the payload, keeps the rest of the buffer and reports bytes, amount and code points |
| `Utf16Payloads.EncodeVariableWidth` | internal/driver/ttc/clob_executor.go:560-582 | the same for variable-width locators |
| `Utf16Payloads.EncodeFixedWidth` | internal/driver/ttc/clob_executor.go:600-649 | the same for fixed-width locators, with the amount in the unit of the charset |
| `Utf16Payloads.ResolveAmountUnit` | internal/driver/ttc/lobamt_unit.go:87-100 | code units for charset 2000, code points for 873 and none for any other |
| `Utf16Payloads.WriteUtf16ToBuffer` | internal/driver/ttc/clob_executor.go:855-878 | writes all code units, or nothing when they do not fit |
| `Utf16Payloads.ReadUtf16CodeUnits` | internal/driver/ttc/clob_executor.go:815-835 | refuses an odd length, otherwise assembles every code unit |
| `Utf16Payloads.DecodeVariableWidth` | internal/driver/ttc/clob_executor.go:713-735 | the runes land at the offset and nothing else changes; an error changes nothing |
| `Utf16Payloads.DecodeLobCharPayload` | internal/driver/ttc/clob_executor.go:676-800 | chooses the UTF-16 or the UTF-8 path and copies out as above |

## Left out

- MarshalEngine.Engine.UnmarshalCLR: a negative `maxSize` is not modelled, because no caller passes one; the state of input and destination after an error is not specified.
- MarshalEngine.Engine.UnmarshalNumeric: the state of the input after an error is not specified, since the connection is abandoned then.
- WireRecords.KeyValueListRoundTrip: which error lengths of two to the thirty-first and more lead to is not stated; that such a list never comes back is `KeyValueListComesBackExactlyWhen`.
- WireRecords.UnmarshalKeyValues: the elements filled before an error are not specified.
- RefCursors.ErrorIsExact: cursors with an error recorded before the call are covered by `FirstErrorIsKept` and `ClosingMakesProgress` only.
- RefCursors.RefCursor.CloseServerCursor: a successful push appends to the shelf's queue; the streamer's emergency flush is proved in `MessageStreamer.dfy` and not replayed here.
- LruCaches.LruCache.Put: previous and missing values are optional values, where the driver returns the zero value of the type; the same holds for the other cache operations.
- TtlCaches.TtlCache.Get: the zero time that marks an unset `nextExpiration` is an option, so an expiry at exactly that instant is not modelled.
- Utf16Payloads.DecodeLobCharPayload: UTF-8 decoding and its count are a parameter, and for a fixed-width CLOB, written as UTF-16 but read as UTF-8, no round trip is claimed.
- MessageStreamer.Streamer.Pull: registration of callbacks is fixed during a call, and callbacks have no effects of their own.
- The size arithmetic that the engine does in floating point is done in integers.
- The recency list of the LRU cache is a sequence of element objects; the linked list of Go's standard library is not modelled.
- A second call of the cleanup function, which its run-once cell makes idle, is not a step of the handshake.
- Marshalling of pointers, characters, text and signed one- and two-byte integers, which would only add easy members.
- The mutex wrappers of the caches, which add only a lock around each call.
- Sockets, TLS, logging, localisation, contexts beyond cancellation, RSA, SHA-256, JWT parsing and the OCI client.
- Connection set-up, configuration, LOB round trips, statement executors, the shelf and the registration tables.

# A verified model of the key access server

The server releases data keys. A client agrees a secret over a WebSocket connection, sends the header of an
encrypted object (a NanoTDF), and gets the object's key back, wrapped under the agreed secret, if the policy in the
header or a session grant on a chain allows it. Around that it reads tokens and signatures, caches the keys and grants
it relies on, and keeps playback sessions within their limits. This project models the parts where a mistake would be
hard to see, and proves what they guarantee.

| module | models | form |
|---|---|---|
| `Bytes`, `Utf8`, `AsciiCase`, `Hex` | little- and big-endian integers, UTF-8 (section 4 of RFC 3629), letter case, hexadecimal and decimal text | functions |
| `NtdfToken` | the binary payload of an NTDF token | a cursor class over its bytes, proved against a pure reader |
| `NanoTdf` | the NanoTDF header | a parser class with a position, proved against a pure reader |
| `Der` | converting DER signatures (section 8.3 of ITU-T X.690, section 2.2.3 of RFC 3279) to raw form | methods filling an array |
| `CoseKeySet`, `KeyCache` | the published key set, and the cache that concurrent `resolve` calls share | methods with loops; a class for one call; a state machine for interleaved calls |
| `SessionCache`, `ChainValidator` | the grant cache, the nonce store, and the validation pipeline | a class; a method for one request; a state machine for interleaved requests |
| `SessionStore`, `SessionManager` | playback sessions and their per-user index in Redis, and the operations on them | functions of the store; a class whose methods are proved against them |
| `SessionRuns`, `StreamLimit`, `SessionRaces` | every interleaving of those operations, with counts, creates and heartbeats in steps | a state machine |
| `RentalWindow` | first plays of rented assets | functions for calls one after another; a state machine for calls that overlap |
| `Connection`, `ChainRelease` | one WebSocket connection: key agreement, rewrap, chain rewrap; and chain rewrap on top of the interleaved validator | decision functions, and a class with the receive loop |
| `Slug`, `Latency`, `ProxyHeaders` | identifier slugs, latency percentiles, hop-by-hop headers | a loop method and two classes |

Conventions. A key given a time to live d at time t is live during [t, t + d). The publisher of the key set and the
chain are arbitrary functions of time. In the state machines steps of different calls interleave in any order, and time
passes between steps. In the key cache, the chain validator and the rental window every lock acquisition, network event
and store command is one step. For playback sessions every command of a count is one step (reading the set, asking for
one key, removing one member), as are a heartbeat's read and its write; the writes of a store go together, and a
terminate, a listing and a clean-up are one step each. Times and counts are unbounded; byte widths are explicit. Cryptographic primitives are given functions, and the only thing ever supposed of
one is that two named inputs do not collide under the hash (`CollisionFree`). Fields called history are written by
steps and read by none.

Where the code and its own text disagree, the model follows the code:

- The header parser reads 8 bytes for a GMAC binding (src/lib.rs:279) while rewrap demands 16 (src/bin/main.rs:1643)
  and a unit test in src/lib.rs expects 16. `GmacNeverRewraps` states the consequence.
- `record_first_play` announces an atomic set-if-absent (src/session_manager.rs:351) and does a read followed by a
  write. `FirstPlayHoldsForRental` is about calls one after another; `AnswersAgreeExactly` says over all interleavings
  when calls agree, and `RacingFirstPlaysDisagree` is a run on which they do not.
- The stream limit is checked before the session is stored, in separate commands. `LimitHolds` gives the exact price of
  that gap, and `BoundIsReached` a run that pays it, for every limit and every number of overlapping creates.
- A heartbeat reads the record and writes it back in separate commands, and a count asks for a key and removes a missing
  member in separate commands. `CountsRightExactly` says which writes and removals keep the count right.
  `TerminatedBetween`, `LapsedBetween` and `LateWriteExceedsLimit` are runs on which a write does not, and
  `RemovedAfterWrite` is a run on which a removal does not.
- Heartbeats of one session can overlap. `FirstPlayIsFixedExactly` says which writes keep the first play,
  `FirstPlayIsFixedWithoutOverlap` that heartbeats one at a time all do, and `StaleWriteForgetsFirstPlay` is one that
  does not.
- A record is stamped before it is stored (src/modules/media_api.rs:1043-1045), so a listing can miss, and terminate, a
  session that is still live. `ListLagsAtMost` bounds by how much; `LateStoreIsNotListed` is such a session.
- `cleanup_expired_sessions` counts what it terminates after a listing that has already terminated the same sessions
  (src/session_manager.rs:316-339). `CleanupExpiredSessions` states what is left for it to count.
- The nonce's life is said to cover a session's lifetime (src/chain/cache.rs:104-105). `SpacingIsMet` accepts a request
  a second time exactly 300 s later, however long its grant has yet to run.
- The slug comment says that distinct identities can still collide (src/modules/authzen/cwt_subject.rs:270-274).
  `SameSlugExactly` says which.
- DER lengths of 128 and more are written in a long form that the conversion does not read.
  `ConvertPreservesValues` has the exact condition, and `ConvertReadsBack` shows that P-256 and P-384 never meet it.
- An INTEGER longer than its field is cut, not refused. `FieldKeepsValueExactly` says when that loses the value.

## Model

| member | source | states |
|---|---|---|
| `Utf8.ValidExactly` | src/lib.rs:213-229 | the byte strings accepted as text are exactly the encodings of sequences of Unicode scalar values |
| `AsciiCase.LowerExactly` | src/modules/authzen/cwt_subject.rs:275-305 | each of the 26 capitals becomes its small letter, and every other character stays |
| `NtdfToken.FromBytes` | src/modules/ntdf_token.rs:99-283 | the cursor-driven reader returns exactly what the pure reader `Parse` returns, value or error, on every input |
| `NtdfToken.Cursor.ReadExact` | src/modules/ntdf_token.rs:102-106 | takes exactly n bytes and advances by n, or reports the payload too short |
| `NtdfToken.Cursor.ReadText` | src/modules/ntdf_token.rs:192-206 | a length-prefixed string of well-formed UTF-8, or the error of its field |
| `NtdfToken.Cursor.ReadScopes` | src/modules/ntdf_token.rs:122-138 | the counted loop reads the same strings in the same order as the recursive reader, or stops at the same error |
| `NtdfToken.Cursor.ReadAttrs` | src/modules/ntdf_token.rs:140-161 | the counted loop reads the same kind and value pairs, or stops at the same error |
| `NtdfToken.Cursor.ReadOptionalId` | src/modules/ntdf_token.rs:163-176 | a zero mark means absent, any other mark announces 16 bytes |
| `NtdfToken.Cursor.ReadOptionalText` | src/modules/ntdf_token.rs:221-267 | a zero mark means absent, any other mark announces a length-prefixed string |
| `NtdfToken.Cursor.ReadPayload` | src/modules/ntdf_token.rs:99-283 | all fields in order agree with the pure reader, with the same bytes left over |
| `NtdfToken.RoundTrip` | src/modules/ntdf_token.rs:99-283 | every payload whose lengths fit their prefixes is read back from its encoding, whatever bytes follow |
| `NtdfToken.ParseReads` | src/modules/ntdf_token.rs:99-283 | the same with any nonzero presence marks |
| `NtdfToken.ParseExact` | src/modules/ntdf_token.rs:99-283 | an input is accepted with this result and rest if and only if it is an encoding of that result, up to nonzero marks, followed by that rest |
| `NtdfToken.ParseStable` | src/modules/ntdf_token.rs:99-283 | bytes after the ones that decided the outcome never change it |
| `NtdfToken.TruncationIsTooShort` | src/modules/ntdf_token.rs:99-283 | cutting an accepted input inside the bytes it consumed is always reported as too short |
| `NtdfToken.InvalidFieldExactly` | src/modules/ntdf_token.rs:99-283 | a field is reported invalid if and only if the input is well-formed up to it and its bytes, all there, are not UTF-8 |
| `NanoTdf.BinaryParser.Read` | src/lib.rs:204-211 | takes exactly the bytes asked for and advances, or fails without passing the end |
| `NanoTdf.BinaryParser.ReadLocator` | src/lib.rs:213-229 | agrees with the pure reader: protocol byte, length byte, UTF-8 body |
| `NanoTdf.BinaryParser.ReadEccMode` | src/lib.rs:288-318 | agrees with the pure reader on the binding flag and the curve |
| `NanoTdf.BinaryParser.ReadPolicy` | src/lib.rs:231-286 | agrees with the pure reader: remote or embedded body, then a binding whose size the mode fixes, and an abort when it is short |
| `NanoTdf.BinaryParser.ParseHeader` | src/lib.rs:184-202 | the whole header agrees with the pure reader and the position stays inside the data |
| `NanoTdf.ModeBytesRead` | src/lib.rs:288-362 | the printed mode bytes read back as the mode and payload configuration they print |
| `NanoTdf.ModeBytesExactly` | src/lib.rs:288-362 | which bits of the two mode bytes are read, and which codes are unknown |
| `NanoTdf.FailsExactly` | src/lib.rs:184-362 | a bad locator, mode or policy type is reported if and only if everything before it is well-formed |
| `NanoTdf.RoundTrip` | src/lib.rs:184-362 | every well-formed header is read back from its print, whatever follows, with exactly the print consumed |
| `NanoTdf.ParseExact` | src/lib.rs:184-362 | an input parses to this header and rest if and only if it prints a well-formed header, up to the ignored mode bits, followed by that rest |
| `NanoTdf.AbortsExactly` | src/lib.rs:267-286 | parsing aborts if and only if everything before the binding parses and fewer bytes than the binding needs remain |
| `NanoTdf.NoStrictPrefixParses` | src/lib.rs:184-362 | no strict prefix of the bytes a header consumed parses |
| `Der.ParseDerSignature` | src/modules/crypto.rs:164-234 | the in-place conversion gives exactly the outcome of the pure one: bytes, error, or abort |
| `Der.ReadComponent` | src/modules/crypto.rs:176-231 | one INTEGER fills its half of the array right-aligned over zeros and leaves the rest of the array alone |
| `Der.ComponentReads` | src/modules/crypto.rs:176-231 | an INTEGER that encodes v yields the big-endian bytes of v in the field width |
| `Der.ConvertPreservesValues` | src/modules/crypto.rs:164-234 | for every even width from 2 to 240 bytes and all r and s that fit, the minimal encoding converts to their big-endian halves exactly when the short length form was used, and is refused at the first tag otherwise |
| `Der.ConvertReadsBack` | src/modules/crypto.rs:164-234 | up to 120 bytes it always converts, and the halves have the values r and s |
| `Der.ParseEcdsaReadsDerUnlessRawSized` | src/modules/crypto.rs:139-162 | guessing the format from the length is right if and only if the encoding's length differs from the raw length |
| `Der.RawSizedDiffers` | src/modules/crypto.rs:139-162 | an encoding of exactly the raw length is never the raw form it stands for |
| `Der.ConvertsExactly` | src/modules/crypto.rs:164-234 | the accepted inputs, minimal or not, and exactly what each converts to |
| `Der.ConvertAbortsExactly` | src/modules/crypto.rs:164-234 | conversion panics if and only if it has begun and the input ends inside what it goes on to read |
| `Der.FieldKeepsValueExactly` | src/modules/crypto.rs:183-231 | an INTEGER keeps its value if and only if it fits the field, or is one byte longer with a leading zero, or is zero |
| `CoseKeySet.P256FromCoseKey` | src/modules/authzen/cose_keys.rs:176-222 | the parameter loop gives 04, x, y if and only if the key is EC2, the last parameter labelled -1 is 1, and x and y, the last byte strings labelled -2 and -3, are 32 bytes each and on the curve |
| `CoseKeySet.P256KeyExactly` | src/modules/authzen/cose_keys.rs:176-222 | the same of the function that describes the loop |
| `CoseKeySet.P256KeyFailsExactly` | src/modules/authzen/cose_keys.rs:176-222 | which of the six errors any other key gets, in the order of the checks |
| `CoseKeySet.ParseCoseKeySet` | src/modules/authzen/cose_keys.rs:150-174 | returns the usable pairs in order, and fails if and only if the body is no array or no entry yields a key |
| `CoseKeySet.UsableExactly` | src/modules/authzen/cose_keys.rs:155-169 | a pair is returned if and only if some entry yields it |
| `CoseKeySet.InstalledKidsExactly` | src/modules/authzen/cose_keys.rs:142-145 | a kid is installed if and only if some entry yields it, and with the key of the last such entry |
| `KeyCache.CoseKeyCache.Resolve` | src/modules/authzen/cose_keys.rs:73-100 | one uninterrupted call: its answer and the cache it leaves, for a fresh hit, a throttled miss, a failed and a successful refresh |
| `KeyCache.CoseKeyCache.RefreshKeys` | src/modules/authzen/cose_keys.rs:102-147 | fetches only when due; a failed fetch leaves the set and its age as they were |
| `KeyCache.ResolvedExactly` | src/modules/authzen/cose_keys.rs:73-147 | when one call answers a key, an unknown kid or an error, and when it replaces the set, in terms of the set's age, max_age and 60 s |
| `KeyCache.ErrorMeansFailedFetch` | src/modules/authzen/cose_keys.rs:126-147 | in every interleaving a call reports a key-set error only because its own fetch failed |
| `KeyCache.LoneCallIsARun` | src/modules/authzen/cose_keys.rs:73-147 | in the interleaved machine a call that nothing interrupts answers and installs as that one call does |
| `KeyCache.RunsKeepInv` | src/modules/authzen/cose_keys.rs:73-147 | the invariant over lock, install log and calls holds in every state of every run |
| `KeyCache.WithdrawnKeyStopsResolving` | src/modules/authzen/cose_keys.rs:73-147 | in every interleaving, a key no longer published for its kid, the kid being withdrawn or given another key, is returned by no call that begins max_age + d (or, with a max_age of 0, more than d) after the last instant it was published, d bounding send to install; calls may be dropped anywhere |
| `KeyCache.WithdrawnKidStopsResolving` | src/modules/authzen/cose_keys.rs:73-147 | so a kid withdrawn for good resolves to no key at all in such a call |
| `KeyCache.WithdrawnKidBoundIsMet` | src/modules/authzen/cose_keys.rs:73-147 | for every max_age and d some run still returns the key to a call that begins one tick before max_age + d have passed |
| `KeyCache.PublishedKidIsNotMissed` | src/modules/authzen/cose_keys.rs:73-147 | in every interleaving, a kid published from some time on is unknown to no call that begins throttle + d later |
| `KeyCache.ReturnedKeyWasPublished` | src/modules/authzen/cose_keys.rs:73-147 | a returned key was published for that kid in one set that was fetched |
| `KeyCache.SingleFlight` | src/modules/authzen/cose_keys.rs:115-146 | at most one fetch is in flight in every reachable state |
| `KeyCache.FetchOnlyWhenDue` | src/modules/authzen/cose_keys.rs:83-124 | a request is sent only when there is no set or the set is at least min(60 s, max_age) old |
| `KeyCache.OnlyInstallsChangeTheSet` | src/modules/authzen/cose_keys.rs:126-147 | no step but a successful install changes keys or last_fetch |
| `KeyCache.RefreshesAreFew` | src/modules/authzen/cose_keys.rs:83-147 | a cache that has lived for T has installed at most 1 + T / throttle times |
| `Hex.DecodeExactly` | src/chain/types.rs:81-84 | a text decodes to these bytes if and only if its lower-case form is their encoding |
| `Hex.EncodeAt` | src/chain/cache.rs:100 | two digits a byte, the high one first |
| `SessionCache.GrantPreimageIsInjective` | src/chain/cache.rs:120-131 | the integrity-tag input determines the server secret, the grant and the block number, despite the variable-length key in it |
| `SessionCache.SigningPreimageIsInjective` | src/chain/types.rs:67-78 | the signed message input determines session bytes, header hash and nonce |
| `SessionCache.NonceKeyIsInjective` | src/chain/cache.rs:100 | a nonce key determines the session and the nonce |
| `SessionCache.NonceKeysStayApart` | src/chain/cache.rs:100 | nonce keys never clash with session, index or rental keys |
| `SessionCache.ConstantTimeEq` | src/chain/cache.rs:135-144 | the XOR and OR loop is exactly equality of byte strings |
| `SessionCache.HitReturnsWhatWasStored` | src/chain/cache.rs:59-84 | an entry that still carries the tag of a stored grant is a hit exactly when it still holds that grant and block, if the two do not collide |
| `SessionCache.KeysActAsPairs` | src/chain/cache.rs:95-117 | commands on nonce keys act on the (session, nonce) pair they name and on no other |
| `SessionCache.Cache.Store` | src/chain/cache.rs:59-67 | the grant is stored under its own id with its tag and is a hit at once |
| `SessionCache.Cache.Get` | src/chain/cache.rs:72-84 | a live entry with the right tag is returned; one with a wrong tag is dropped and missed |
| `SessionCache.Cache.Invalidate` | src/chain/cache.rs:87-89 | exactly that entry is removed |
| `SessionCache.Cache.CheckAndConsumeNonce` | src/chain/cache.rs:95-117 | true, and the pair becomes used for 300 s, if and only if it was not in use |
| `ChainValidator.Validate` | src/chain/validator.rs:209-280 | one uninterrupted request is accepted if and only if the cached or fetched grant is unexpired, unrevoked, of the header's scope and its key verifies the signature over session, header hash and nonce under ES256 or ES384, and the nonce is unused; the nonce is used exactly then |
| `ChainValidator.VerdictExactly` | src/chain/validator.rs:83-280 | when each of the seven answers is given, with the order among several objections |
| `ChainValidator.SessionIdBytesExactly` | src/chain/types.rs:81-84 | a session id is the 64 hexadecimal digits of 32 bytes, in either case |
| `ChainValidator.LoneRequestAcceptedExactly` | src/chain/validator.rs:209-280 | in the interleaved machine a request that nothing interrupts is accepted under exactly that condition |
| `ChainValidator.LoneRequestIsARun` | src/chain/validator.rs:49-80 | in the interleaved machine a request that nothing interrupts is decided as Validate decides it |
| `ChainValidator.LoneRequestIsValidate` | src/chain/validator.rs:209-280 | the same on the Redis keys that Validate uses: one verdict, and the two stores go on standing for each other |
| `ChainValidator.RunsKeepGrantInv` | src/chain/validator.rs:49-80 | every cached and every held grant was the chain's at a known recent time, in every state of every run |
| `ChainValidator.AcceptedWasAuthorised` | src/chain/validator.rs:209-280 | an accepted request was backed by a chain grant that held less than 6 s + d before its lookup, or between lookup and acceptance: unrevoked, unexpired at a block read during the request, of the right scope, its key verifying the signature over session, header hash and nonce under ES256 or ES384 |
| `ChainValidator.RevokedSessionIsRefused` | src/chain/validator.rs:226-250 | after a lasting revocation or removal, no request looked up 6 s + d or more past the last unrevoked instant is accepted, in any interleaving |
| `ChainValidator.RevocationBoundIsMet` | src/chain/validator.rs:49-80 | whatever the chain holds later, for every d some run with stores no slower than d accepts a request looked up one tick before 6 s + d have passed since the grant was read |
| `ChainValidator.LookupFollowsBegin` | src/chain/validator.rs:49-80 | in every interleaving a request looks its grant up no earlier than it began |
| `ChainValidator.RunsKeepNonceInv` | src/chain/validator.rs:252-268 | the nonce store is the one its uses leave behind, and uses belong to their requests, in every state of every run |
| `ChainValidator.NonceStoreIsExact` | src/chain/cache.rs:95-117 | the pairs that would be refused are exactly those used in the last 300 s |
| `ChainValidator.NonceStoreIsAccepts` | src/chain/validator.rs:252-268 | with no lost replies they are exactly the pairs of the requests accepted in the last 300 s |
| `ChainValidator.AcceptsAreSpaced` | src/chain/validator.rs:213-268 | two accepts of one session and nonce, however the session id is spelled, are at least 300 s apart |
| `ChainValidator.SpacingIsMet` | src/chain/cache.rs:104-112 | a request that the chain allows at both times is accepted twice, exactly 300 s apart |
| `ChainValidator.RejectedUsesNothing` | src/chain/validator.rs:226-268 | a request refused for any reason but a lost reply has used no nonce |
| `ChainValidator.RespelledSessionIsTheSame` | src/chain/types.rs:81-84 | session ids that differ only in case are the same session, or are refused alike |
| `SessionStore.KeysNeverClash` | src/session_manager.rs:378-388 | session, index and rental keys are disjoint, and the first two are injective |
| `SessionStore.StoreExactly` | src/session_manager.rs:131-168 | a stored session lives for 300 s under its record and in its user's set, and nothing else changes |
| `SessionStore.WriteExactly` | src/session_manager.rs:203-213 | a heartbeat's write does the same but never adds to the set |
| `SessionStore.TerminateExactly` | src/session_manager.rs:237-258 | exactly that session leaves the keys and its owner's set, for good |
| `SessionStore.CountExactly` | src/session_manager.rs:262-287 | a count drops from the user's set exactly the members without a key, and changes no key |
| `SessionStore.ListingExactly` | src/session_manager.rs:290-339 | listing and cleaning up remove the keys of exactly those members whose last heartbeat is more than 300 s past |
| `SessionStore.LapsedExactly` | src/session_manager.rs:316-339 | cleaning up counts exactly the live members that went out of date between its clock readings |
| `SessionStore.DroppedOneMore` | src/session_manager.rs:237-258 | terminating sessions one at a time, in any order, is dropping them together |
| `SessionStore.SremKeepsInvExactly` | src/session_manager.rs:276-281 | a count's removal keeps keys and index in agreement if and only if the session is dead at that moment |
| `SessionStore.WriteKeepsInvExactly` | src/session_manager.rs:203-213 | a heartbeat's write keeps keys and index in agreement if and only if the session is in its user's set at that moment |
| `SessionManager.Manager.CreateSession` | src/session_manager.rs:131-168 | refused with the live count at the limit, otherwise key, index and index expiry are written |
| `SessionManager.Manager.Heartbeat` | src/session_manager.rs:171-216 | a live session is updated and both lives extended; a missing one is an error and changes nothing |
| `SessionManager.Manager.TerminateSession` | src/session_manager.rs:237-258 | exactly that session's key and index entry go |
| `SessionManager.Manager.GetActiveSessionCount` | src/session_manager.rs:262-287 | counts the indexed sessions whose keys live, and drops exactly the others from the index |
| `SessionManager.Manager.GetUserSessions` | src/session_manager.rs:290-313 | returns each indexed, live and current record exactly once; exactly the outdated ones leave keys and index |
| `SessionManager.Manager.CleanupExpiredSessions` | src/session_manager.rs:316-339 | counts exactly the listed sessions that went out of date between the two clock readings, so nothing if there was no time between; and the store it leaves |
| `SessionManager.Manager.RecordFirstPlay` | src/session_manager.rs:342-362 | answers the stored time while it lives, otherwise stores and answers now |
| `SessionManager.CountIsAScan` | src/session_manager.rs:262-287 | a count that nothing interrupts, in the machine's single questions and removals, finds exactly the live members and leaves the store that the count operation leaves |
| `SessionManager.CreateIsScanThenStore` | src/session_manager.rs:131-168 | the create operation is such a count followed by the machine's store step, or by none at the limit |
| `SessionRuns.HeartbeatIsReadThenWrite` | src/session_manager.rs:171-216 | a heartbeat that nothing interrupts is the machine's read step followed by a guarded write step |
| `SessionRuns.RunsKeepInv` | src/session_manager.rs:131-339 | in every state of every run each live key is in its owner's set and that set lives at least as long, but for the sessions left astray: by a heartbeat that wrote after its session had left the set, or by a count that removed a session which had come back to life since it was asked for |
| `SessionRuns.CountIsTrue` | src/session_manager.rs:262-287 | in every state reached without leaving a session astray, the set holds the true number of the user's live sessions |
| `SessionRuns.CountsRightExactly` | src/session_manager.rs:171-287 | over every run, keys and sets agree for all users throughout if and only if every heartbeat writes while its session is in its user's set and every removal is of a session that is dead at that moment |
| `SessionRaces.TerminatedBetween` | src/session_manager.rs:181-213 | a run, with creates one at a time, on which a session terminated between a heartbeat's read and write comes back uncounted |
| `SessionRaces.LapsedBetween` | src/session_manager.rs:181-213 | such a run for a session whose key and set lapsed in between, with no termination |
| `SessionRaces.LateWriteExceedsLimit` | src/session_manager.rs:181-213 | such a run with a limit of one on which the write leaves the user two live sessions |
| `SessionRaces.RemovedAfterWrite` | src/session_manager.rs:272-281 | such a run on which a heartbeat's write, guarded as it is, falls between a count's question and its removal, and the session ends live and uncounted |
| `SessionRuns.LimitHolds` | src/session_manager.rs:135-160 | on every run with at most k creates of a user overlapping, the user never has more live sessions than max + k - 1 and those of the user's left astray; if none is, never more than max + k - 1, and with k = 1 never more than max |
| `SessionRuns.CountIsBounded` | src/session_manager.rs:262-287 | whatever the writes and removals do, the live members of the set never number more than max + k - 1, with every count's questions and removals spread over time |
| `StreamLimit.BoundIsReached` | src/session_manager.rs:135-160 | for every limit and every k some run with at most k overlapping creates, leaving nothing astray, reaches max + k - 1 live sessions, so the limit itself is kept exactly when creates do not overlap |
| `SessionRuns.ListLagsAtMost` | src/session_manager.rs:290-313 | in every state reached without leaving a session astray, a live session missing from the listing is within d of lapsing, d bounding stamp to write; with d = 0 the listing is exactly the live sessions |
| `SessionRuns.ListIsTrueExactly` | src/session_manager.rs:290-313 | in every such state the listing is exactly the live sessions if and only if no live record is out of date |
| `SessionRuns.LateStoreIsNotListed` | src/session_manager.rs:290-313 | a session stored some time after its stamp is, near its end, live and counted, not listed, and terminated by the listing |
| `SessionRuns.FirstPlayIsFirstPlaying` | src/session_manager.rs:171-216 | over any heartbeats of a new session one after another: first play is the first Playing heartbeat, Playing implies it is set, and start, first play and last heartbeat are in order |
| `SessionRuns.LastReportWins` | src/session_manager.rs:171-216 | over any heartbeats one after another the state is the last one reported, and so is the segment, and the session keeps its id, user and start |
| `SessionRuns.FirstPlayIsFixed` | src/session_manager.rs:191-197 | once set, the first play time survives every later heartbeat, one after another |
| `SessionRuns.FirstPlayIsFixedExactly` | src/session_manager.rs:181-213 | over every run, while a session lives its first play stays fixed if and only if no write carries a reading without it |
| `SessionRuns.UndisturbedReading` | src/session_manager.rs:181-213 | a heartbeat that no other write to its session overlaps carries the record as it still is |
| `SessionRuns.FirstPlayIsFixedWithoutOverlap` | src/session_manager.rs:181-213 | so over every run, if no two heartbeats of a session overlap its first play stays fixed for as long as it lives |
| `SessionRuns.StaleWriteForgetsFirstPlay` | src/session_manager.rs:181-213 | of two heartbeats that read one record, the second to write takes back the first one's mark |
| `RentalWindow.FirstPlayHoldsForRental` | src/session_manager.rs:342-362 | one call's answer is every later call's answer until 30 days after that time |
| `RentalWindow.FirstPlayEndsWithRental` | src/session_manager.rs:342-362 | the first call after those 30 days begins a new window with its own time |
| `RentalWindow.AnswersAgreeExactly` | src/session_manager.rs:342-362 | over every run inside one window, all answers agree if and only if the calls that read before anyone wrote had read the same time off the clock |
| `RentalWindow.FoundNothingExactly` | src/session_manager.rs:352-357 | inside one window the calls that find nothing are exactly those that read before anyone wrote |
| `RentalWindow.RacingFirstPlaysDisagree` | src/session_manager.rs:342-362 | a run of two calls that answer differently, the later write staying |
| `RentalWindow.FirstPlayKeysCollide` | src/session_manager.rs:386-388 | two users' rental keys can coincide if and only if they are one user or one id followed by a colon begins the other |
| `RentalWindow.ColonFreeKeysAreInjective` | src/session_manager.rs:386-388 | for user ids without a colon the key determines user and asset |
| `Connection.RewrapDecision` | src/bin/main.rs:1408-1927 | the whole branch tree with the parser inside it is one condition: a key is released if and only if the secret is agreed, the header parses with an ECDSA binding, the policy allows it, a rating being judged as an adult's only under the claim "Verified 18+", and the key can be wrapped |
| `Connection.ContractsAreFlat` | src/bin/main.rs:1482-1853 | the locator and contract checks, in their order, are flat predicates: allowed with no http(s) policy, readable metadata, no geofence or bare rating locator and the rating and attribute checks passed; denied exactly when one of those two checks failed |
| `Connection.RewrapDeniesExactly` | src/bin/main.rs:1786-1853 | access is denied if and only if the header could be judged and its rating or attribute check failed |
| `Connection.RewrapAnswersExactly` | src/bin/main.rs:1408-1927 | which of the remaining rewraps get no answer, a crypto error or a format error |
| `Connection.RewrapPanicsExactly` | src/bin/main.rs:1446-1864 | handling panics if and only if the parser aborts, or a key would be released and the server has no key of its own |
| `Connection.GmacNeverRewraps` | src/bin/main.rs:1640-1656 | a header with a GMAC binding never yields a key |
| `Connection.ChainRewrapDecision` | src/bin/main.rs:1984-2273 | a chain rewrap releases a key if and only if the secret is agreed, the hash is that of these header bytes, the validator accepts the request built from the message, the header parses and the key can be wrapped |
| `Connection.ChainRewrapFailsExactly` | src/bin/main.rs:1984-2273 | when a chain rewrap panics; whatever else is not a key is one error |
| `ChainRelease.ChainKeyWasGranted` | src/bin/main.rs:1984-2273 | over every conversation and every interleaving of the validator, the validator's task for this very message, begun after the message arrived, was accepted, and the chain-rewrapped key was allowed by a grant the chain held less than 6 s + d before that task's lookup, or since: unrevoked, unexpired at a block read meanwhile, scoped to the hash of exactly these header bytes, its key verifying the signature over session, that hash and nonce under ES256 or ES384 |
| `ChainRelease.RevokedSessionGetsNoKey` | src/bin/main.rs:2069-2132 | after a lasting revocation, a chain rewrap whose own lookup is 6 s + d or more past the last unrevoked instant releases no key of that session, whatever other requests were accepted before |
| `ChainRelease.MessageAfterRevocationGetsNoKey` | src/bin/main.rs:2069-2132 | so a message that arrives 6 s + d or more past that instant gets no key |
| `ChainRelease.KeysAreSpaced` | src/bin/main.rs:2069-2132 | two chain-rewrapped keys for one session and nonce, on one connection or on two, come from accepts at least 300 s apart |
| `Connection.SecretIsAgreedExactly` | src/bin/main.rs:2276-2457 | over every message sequence there is a secret if and only if a type 1 message with a 33-byte point or a CBOR key exchange with a 33- or 65-byte point came while the connection was open |
| `Connection.FirstOfferDecides` | src/bin/main.rs:2276-2457 | the first such message fixes the secret, the ECDH secret with the random salt beside it or the key derived from both without one, for the whole conversation |
| `Connection.AgreedOnce` | src/bin/main.rs:2276-2457 | that message, and no other, is answered with an agreement |
| `Connection.OfferIsRefused` | src/bin/main.rs:2386-2457 | how every other type 1 message is answered |
| `Connection.CborOfferIsRefused` | src/bin/main.rs:2276-2360 | how every other CBOR message that is not a rewrap is answered |
| `Connection.ClaimsAreLast` | src/bin/main.rs:371-434 | over every message sequence the claims are those of the last text message that carried some, and a connection opened with an NTDF token has none |
| `Connection.EndedExactly` | src/bin/main.rs:371-434 | over every message sequence the connection has ended if and only if a close frame or a message that panics its handler has come |
| `Connection.OtherAnswersExactly` | src/bin/main.rs:2459-2545 | which messages are answered with the server's public key, and which with the outcome of an event |
| `Connection.OtherTypesAreIgnored` | src/bin/main.rs:1334-1377 | empty messages and those of any other type change nothing and get no answer |
| `Connection.SecretIsSetOnce` | src/bin/main.rs:2276-2457 | over every message sequence the secret, once set by either exchange, never changes, nor does the salt |
| `Connection.SaltImpliesSecret` | src/bin/main.rs:2431-2443 | over every message sequence a stored salt comes with a secret |
| `Connection.RewrapsUnderOneSecret` | src/bin/main.rs:1334-1377 | every rewrapped key in a conversation comes after key agreement and is wrapped under the one secret the conversation ends with |
| `Connection.ConnectionState.HandlePublicKey` | src/bin/main.rs:2386-2457 | ignored once a secret exists; a bad key changes nothing; otherwise secret and salt are set |
| `Connection.ConnectionState.HandleCborKeyExchange` | src/bin/main.rs:2276-2360 | ignored once a secret exists; a bad key changes nothing; otherwise only the secret is set |
| `Connection.ConnectionState.HandleBinaryMessage` | src/bin/main.rs:1334-1377 | dispatch on the first byte, with the state and outcome of the decision functions; the server key is sent if there is one, and events over 2000 bytes are dropped |
| `Connection.ConnectionState.Serve` | src/bin/main.rs:371-434 | what the receive loop does is a conversation: each message takes the state on and is answered as the decision functions say, up to a close or a panic, which end it |
| `Slug.SlugifyLoop` | src/modules/authzen/cwt_subject.rs:275-290 | the loop with its pending flag equals joining the lower-cased maximal runs of letters, digits and hyphens with underscores |
| `Slug.RunsExactly` | src/modules/authzen/cwt_subject.rs:275-290 | those runs are exactly the maximal slices of letters, digits and hyphens, in order |
| `Slug.StrippedExactly` | src/modules/authzen/cwt_subject.rs:292-305 | what is stripped of a server name is the white space around it, its case and at most one scheme |
| `Slug.SameSlugExactly` | src/modules/authzen/cwt_subject.rs:275-290 | two texts share a slug if and only if those runs are equal |
| `Slug.SlugifyIsIdempotent` | src/modules/authzen/cwt_subject.rs:275-290 | a slug is its own slug |
| `Slug.ServerSlugIsIdempotent` | src/modules/authzen/cwt_subject.rs:292-305 | a server slug is its own server slug |
| `Slug.ServerSlugIgnoresCase` | src/modules/authzen/cwt_subject.rs:292-305 | server names that differ only in ASCII case have one slug |
| `Slug.SameServerSlugExactly` | src/modules/authzen/cwt_subject.rs:292-305 | two servers share a slug if and only if their overrides, or without one their names less space, case and scheme, have the same runs |
| `Latency.LatencyWindow.RecordKeyRequestLatency` | src/media_metrics.rs:183-191 | after any number of recordings the window is exactly the last min(n, 1000) in order |
| `Latency.LatencyWindow.GetMetrics` | src/media_metrics.rs:194-217 | the percentiles of that window, in order, and zeros when it is empty |
| `Latency.PercentileRank` | src/media_metrics.rs:203-210 | at the percentile's index i, at least i + 1 entries are at most the value and at least n - i are at least it |
| `Latency.PercentilesAreOrdered` | src/media_metrics.rs:203-210 | a lower percentile is never above a higher one |
| `Latency.SortKeeps` | src/media_metrics.rs:200-201 | sorting changes neither the length nor how many entries lie on either side of any value |
| `ProxyHeaders.HeaderMap.StripProxyHeaders` | src/modules/platform_proxy.rs:156-177 | leaves exactly the headers that are not removed, each with all its values |
| `ProxyHeaders.StaysExactly` | src/modules/platform_proxy.rs:142-177 | a header stays if and only if it is none of nine named ones and no comma-separated piece of the first Connection value, blanks aside, spells it |
| `ProxyHeaders.NamesAreListed` | src/modules/platform_proxy.rs:161-169 | the split-and-trim loop finds exactly the names that stand between commas in the first Connection value |
| `ProxyHeaders.StrippedTwice` | src/modules/platform_proxy.rs:156-177 | stripping twice is stripping once |

## Left out

- HTTP, QUIC, TLS, NATS, S3, the proxy's forwarding and the server's setup: plumbing around the modelled logic.
- ECDH, HKDF, AES-GCM, SHA-256, ECDSA and the NanoTDF salt and rewrap routines, which come from libraries: given functions.
- The content-rating and attribute contracts: given predicates; the geofence contract always refuses and is modelled so.
- FlatBuffers and CBOR decoding, and the encoding of replies: given functions; replies are values, and encoding never fails. What the stores answer to an event is given with the message.
- The chain client's queries: each is one atomic read of the chain, or a failure.
- Redis failures and retries in the session manager: its operations succeed. Lost replies of the nonce command are modelled.
- Session records hold only the fields that some operation reads or writes; their JSON form is left out.
- The commands inside one session step: the three writes of a store, and the two of a heartbeat, happen together, as do the commands of a terminate, a listing and a clean-up. Those of a count are apart.
- The grant cache's size limit: any entry may vanish at any time, which covers it.
- The payload part of a NanoTDF, token signatures and expiry, PEM and base64 handling: thin wrappers over libraries.
- RTMP, FairPlay, C2PA, the AuthZEN facade and CWT verification: work done by libraries or code not shown.
- `sanitize_patreon`, `subject` and agent selection: an allowlist and field copies, which would only add easy members.
- Logging, metrics publishing and configuration.
- Latency.LatencyWindow.GetMetrics: percentile indices are exact fractions of the length, not products of 64-bit floating-point numbers.
- ProxyHeaders.HeaderMap.StripProxyHeaders: which texts are valid header names is the HTTP library's, and a parameter here.
- SessionManager.Manager.Heartbeat: one call at one instant; its read and its write apart are steps of the state machine in `SessionRuns`.
- KeyCache.CoseKeyCache.Resolve: one call at one instant; time within a call is covered by the state machine.
- ChainValidator.Validate: one request at one instant; time within a request is covered by the state machine.

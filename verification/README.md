# Verified model of the FlopOffice proof and signing core

FlopOffice signs coordination messages for a DID-authenticated agent, sends them to a Technocore
server, and keeps an append-only, hash-chained ledger of what it did. This project models the parts
of it that must be exactly right and proves what they promise.

| file | models |
|---|---|
| `HashChain.dfy`, `RowText.dfy`, `Verify.dfy`, `EntryHash.dfy`, `Tamper.dfy` | the JSON serialisation of a ledger row and which text that is, the chain walk, what a VALID verdict commits to, which tampering it locates |
| `Ledger.dfy` | the append-only writer, and any number of connections appending at once |
| `Nonce.dfy`, `NonceProtocol.dfy` | the durable nonce counters, and every interleaving of reservations, observations, announcements, crashes and deliveries to the server |
| `RateLimit.dfy`, `BucketHistory.dfy`, `Rediscovery.dfy`, `TokenBucket.dfy` | the client's token bucket against the server's sliding window, the history of one shared bucket, buckets that replace each other, and the waiting loop |
| `Radix.dfy`, `Did.dfy`, `Verifier.dfy` | Base58btc as base conversion, `did:key` for Ed25519, and what signature verification answers |
| `Canonical.dfy`, `Payload.dfy` | the single-line sweep and the signed payloads |
| `SignedPath.dfy`, `Server.dfy`, `Landing.dfy` | the signed-write URL path, printed by the client and read back by the server, the server's answer, and the whole way from a reserved nonce to the server's log |
| `Client.dfy`, `Outbound.dfy`, `Announcement.dfy` | the guarded send with its one-use gate, threads inside it at once, the intent and outcome rows around it, the first announcement |
| `Common.dfy`, `Utf8.dfy`, `Decimal.dfy`, `Split.dfy` | text as code points, strict UTF-8, decimal numerals, splitting and joining |

Code that changes state step by step is a class or a method proved against a specification function;
pure code is functions and lemmas. What several processes do at once is a state machine whose steps
are the atomic steps of the source, and its theorems are about every reachable state.

Assumptions, all of them explicit parameters or hypotheses:

- SHA-256 is an uninterpreted function. The theorems that need collision resistance ask for it only among
  the rows at hand.
- SQLite holds one write lock: at most one `BEGIN IMMEDIATE` transaction is open, and until it commits its
  writes are seen by nobody else.
- An honest signer is a DID that spells a key and a signing function whose results a key check accepts under it.
- The Unicode tables are three functions: the swept categories, `str.isspace`, and the digits. U+0020 is white
  space and is not swept; surrogates are swept; the ASCII digits have their values.
- Time and tokens are real numbers, and the monotonic clock does not go back.
- Clock readings, fresh ids, replies, the secret scanner's verdict and storage failures are parameters of each
  call or choices of each step.

Where the code and its documentation differ, the model follows the code and proves exactly when the two agree,
with an input or a run where they do not:

- `identity/canonical.py:182` quotes the server's name charset, but the pattern's `$` lets one trailing newline
  through: an accepted name is in the charset exactly when it holds no newline (`Payload.NamesInCharset`,
  `Payload.NewlineNamePasses`). Note payloads are injective all the same.
- `identity/did.py:93` says every malformed DID raises DidKeyError. It raises UnicodeEncodeError instead exactly
  when it starts with `did:key:z` and is not ASCII (`Did.NotAsciiExactly`, `Did.AccentedDids`). So
  `is_valid_did_key` raises on those DIDs (`Did.ValidityAnswered`), and so does `verify`, which
  `identity/verifier.py:27` calls total (`Verifier.VerifyAnswers`).
- `identity/canonical.py:137` says the sweep refuses an empty result; the code returns it, exactly for texts of
  characters the policy drops (`Canonical.EmptySweep`), and the payload builders refuse it.
- A message and a note can have the same bytes: exactly when they spell the same fields
  (`Payload.KindsCoincide`), which a caller can rule out by looking at the note alone
  (`Payload.NoteIsMessageExactly`).
- `technocore/outbound.py:64` says a failed write is recorded as failed. An intent stays without an outcome
  exactly when the self-check raises; when an allowed send is throttled, its path cannot be printed, or the HTTP
  client or the reply fails in a way that is not caught; when a reply cannot be hashed; or when the ledger refuses
  the outcome row (`Outbound.SendAndRecord`, `Client.Escapes`). A write whose swept text is the raw text "\ud800a",
  under an honest signature of its sweep, is one whose path cannot be printed (`Client.RawTextRaises`,
  `Client.SurrogateLetterBuilds`).
- `technocore/ratelimit.py:4` says the buckets sit below the advertised limit. Over closed minutes one bucket does
  exactly for limits of two or more (`RateLimit.LimitKeptExactly`), and attains every such limit
  (`RateLimit.LimitIsAttained`); against the server's half-open window for limits of one or more
  (`RateLimit.NeverRefusedExactly`), and then for arrivals that lag by up to 120 / limit seconds and no more
  (`RateLimit.LagToleratedExactly`). A client that replaces its bucket keeps an advertised limit of two or more
  exactly as long as no minute feels a replacement (`Rediscovery.LimitKeptWithoutReplacement`); what it is granted
  at most, counting the threads that still wait in the old bucket, is `Rediscovery.ReplacementBound`.
- `technocore/client.py:76` says a gate cannot be reused. Two threads that are both past its check before either
  marks it used can both send; otherwise at most one request leaves (`GateProtocol.GatesOverRuns`,
  `GateProtocol.CrowdedSendsTwice`, `GateProtocol.TwoThreadsPass`).
- `proof/ledger.py:153` stores any `int`, and a bool is one. It is hashed as `true` and read back as 1, so a row
  that holds one breaks the chain, and a row that holds none never does (`EntryHash.BoolsBreakChain`). The server's
  reply `{"ok": true, "seq": true}` to an announcement leads to such a row (`technocore/announcement.py:354`), and so
  does the intent of a write with nonce `True`, which is recorded before any check (`technocore/outbound.py:46`).

## Model

| member | source | states |
|---|---|---|
| HashChain.NamesAscend | proof/hashchain.py:66-69 | Each column name in the serialisation precedes the next one in string order, as `sort_keys` promises |
| HashChain.TextReadsBack | proof/hashchain.py:65-72 | An independent JSON reader finds in the text exactly the sorted names and the nulls, integers, strings and bools it was printed from |
| RowText.TextIsShortest | proof/hashchain.py:65-72 | Of all JSON texts that read as the same values under the sorted names, the one that is hashed is no longer than any, and any other of its length only has upper-case hexadecimal digits: so no "-0", no leading zeros, no escape that is not needed |
| RowText.HashedText | proof/hashchain.py:34-77 | The text a row is hashed over reads as its twenty columns under their names, written out, and is the shortest such text; the entry hash is SHA-256 of its UTF-8 |
| HashChain.CanonicalBytesInjective | proof/hashchain.py:58-72 | Two rows have equal canonical bytes if and only if they agree on all twenty chained columns, whatever quotes, backslashes, commas or control characters the strings hold |
| HashChain.HashableRows | proof/hashchain.py:66-72 | Serialisation fails exactly for rows with a lone surrogate in some string column |
| EntryHash.HashIgnoresEntryHash | proof/hashchain.py:31-33 | `entry_hash` is not covered by itself, so the hash of a row can be computed before it is filled in |
| EntryHash.CollisionFreeCommits | proof/hashchain.py:75-77 | Without a SHA-256 collision among the rows at hand, equal entry hashes mean equal chained columns |
| Verify.VerifyChain | proof/verify.py:68-127 | The walk reports EMPTY, VALID with row count and head hash, or the least row that violates index, link or hash, with kind, expected and found |
| Verify.OneVerdict | proof/verify.py:80-127 | A table has one correct report, and it is BROKEN if and only if some row violates the chain relation |
| Verify.HeadHashCommits | proof/verify.py:124-127 | Two VALID tables that report the same head hash are the same table, for any row hash that commits to these rows |
| EntryHash.HeadHashCommitsToTable | proof/verify.py:68-127 | The same for the real row hash: equal head hashes mean equal length and equal columns in every row, unless two of these rows collide under SHA-256 |
| EntryHash.HashingIsValid | proof/hashchain.py:75-77 | Without bools, the hash an append computes is the hash that verification recomputes from the stored row |
| EntryHash.GivenIsReadExactly | proof/hashchain.py:58-77 | For a row as given and as stored, both hashes agree if and only if neither the sequence number nor the nonce is a bool |
| EntryHash.BoolsBreakChain | proof/ledger.py:145-186 | After an append the table verifies if and only if the activity held no bool for an int; a bool gives HASH_MISMATCH at its row |
| Tamper.DeletionLocated | proof/verify.py:80-94 | Deleting any set of rows with a survivor after the first deleted one gives INDEX_GAP at the first missing position, naming the survivor |
| Tamper.SuffixDeletionUnnoticed | proof/verify.py:74-75 | Deleting a suffix leaves a VALID table, or EMPTY when nothing is left |
| Tamper.DeletionDetectedExactly | proof/verify.py:80-94 | A deletion is reported if and only if some deleted row is followed by a surviving one |
| Tamper.EditLocated | proof/verify.py:110-122 | Editing columns outside the links in any set of rows gives HASH_MISMATCH at the smallest edited row |
| Tamper.LinkEditLocated | proof/verify.py:96-108 | At the first edited row of a table, a changed `prev_hash` gives BAD_GENESIS at row 0, with sixty-four zeros expected, and LINK_MISMATCH at any other, with the previous row's hash, whatever the row's own hash is and whatever follows |
| Tamper.IndexEditLocated | proof/verify.py:80-94 | A changed index at the first edited row gives INDEX_GAP, whatever its link and hash are |
| Tamper.HashEditLocated | proof/verify.py:110-122 | With index and link as they were, a row whose hash is not its own gives HASH_MISMATCH with both hashes |
| Tamper.RehashLocated | proof/verify.py:96-108 | Editing and re-hashing a row that is not the last gives LINK_MISMATCH at the next row |
| Tamper.LastRehashUnnoticed | proof/verify.py:124-127 | Re-hashing the last row leaves the table VALID, and changes the reported head hash |
| Ledger.AppendKeepsLinked | proof/ledger.py:127-186 | Whatever an accepted append holds, the table stays numbered, linked, without repeated ids, and its references point backward |
| Ledger.AppendKeepsWellFormed | proof/ledger.py:127-186 | An accepted append to a table that verifies keeps it so if and only if the new row's hash is the one verification recomputes, as it is of every row without bools |
| Ledger.ExtendWellFormed | proof/ledger.py:127-186 | Any number of rows linked to a table that verifies keep it so if and only if each of them has the hash verification recomputes |
| Ledger.CleanLedgerVerifies | proof/ledger.py:112-194 | A ledger that was never given a bool verifies VALID with its row count and head hash, or EMPTY |
| Ledger.AcceptedExactly | proof/ledger.py:112-194 | An append is accepted if and only if the activity has an author, one of the types, one of the units, and an amount only in a unit other than NONE, no secret is found, the reference exists, and the row can be stored under a fresh id and hash; which reason comes first otherwise |
| Ledger.Ledger.ById | proof/ledger.py:207-210 | Finds a row with the id if and only if there is one |
| Ledger.Ledger.Append | proof/ledger.py:112-194 | Adds exactly one row that carries every field of the activity, chained to the head; or refuses for the first reason that applies and leaves the table alone; the ledger stays clean unless the row holds a bool |
| LedgerProtocol.StepKeepsInv | storage/db.py:166-180 | Begin, head read, insert, commit and rollback of any connection keep the ledger invariant |
| LedgerProtocol.CommitsAreAtomicAppends | storage/db.py:166-180 | The committed table changes only at a commit, and then as one undisturbed append to the table of that moment would change it |
| LedgerProtocol.RunsAreSequential | proof/ledger.py:127-186 | Runs are serialisable: whatever the interleaving, the committed table is what appending the committed activities one after the other would have left |
| LedgerProtocol.ReachableLedgersVerify | proof/ledger.py:112-194 | After any interleaving of successful and aborted appends the table is linked, references point strictly backward, and later runs only extend it; it verifies VALID or EMPTY as long as no committed append held a bool |
| LedgerProtocol.RowsAreAdmitted | proof/ledger.py:112-194 | Every row of a reachable ledger is that of one committed append: it carries what was asked for, which met those conditions, and in which no secret was found |
| Radix.ConvertBack | identity/did.py:45-74 | Converting a numeral to another base and back gives the same digits, leading zeros included |
| Did.AlphabetExactly | identity/did.py:30 | A character is in the alphabet if and only if it is an ASCII digit or letter other than '0', 'I', 'O' and 'l' |
| Did.EncodedChars | identity/did.py:45-56 | Every character of an encoding is such a one |
| Did.Base58Inverse | identity/did.py:45-74 | A text decodes to non-empty data if and only if it is the encoding of that data |
| Did.LowDigitsFirst | identity/did.py:48-50 | The divmod loop computes the shortest numeral, least significant digit first |
| Did.Base58Encode | identity/did.py:45-56 | The encoding loop computes the specified Base58 text |
| Did.ToBytesIsShortest | identity/did.py:68 | The byte count taken from the bit length gives the shortest base-256 numeral |
| Did.Base58Decode | identity/did.py:59-74 | The decoding loop computes the specified result, with the empty, non-ASCII and bad-character outcomes |
| Did.ServerBase58Decode | tests/integration/fake_technocore.py:35-48 | The server's own decoder agrees with the client's on every non-empty text, and reads the empty text as no bytes |
| Did.DidKeyInverse | identity/did.py:77-110 | A DID decodes to a key if and only if it is that key's encoding, so every key has one spelling |
| Did.NotAsciiExactly | identity/did.py:90-102 | Decoding raises UnicodeEncodeError exactly on non-ASCII DIDs that start with did:key:z |
| Did.ValidityAnswered | identity/did.py:118-123 | is_valid_did_key answers true exactly on encodings of keys and raises exactly on those DIDs |
| Did.AccentedDids | identity/did.py:97-102 | A DID that raises, and a non-ASCII DID that is only malformed |
| Verifier.VerifyAnswers | identity/verifier.py:24-44 | verify says yes exactly when the DID encodes a key under which the signature checks, and raises exactly on those DIDs |
| Verifier.VerifyMessageRaises | identity/verifier.py:47-56 | verify_message raises exactly when the payload can be built and the DID is such a one |
| Verifier.VerifyMessageAnswers | identity/verifier.py:47-56 | verify_message says yes if and only if the payload can be built and is signed under the key the DID spells |
| Verifier.VerifyNoteRaises | identity/verifier.py:59-66 | The same for notes |
| Verifier.VerifyNoteAnswers | identity/verifier.py:59-66 | The same for notes |
| Did.ServerPublicKey | tests/integration/fake_technocore.py:51-57 | The server accepts the same DIDs as the client and reads the same key from each |
| Did.SpellingNeverDiffers | identity/wiring.py:85-99 | The second mismatch branch is unreachable: two valid DIDs with equal keys are the same string |
| Did.EncodedKeyShape | identity/did.py:77-87 | Every encoded key has exactly 47 Base58 digits after the 'z', beginning "6Mk" |
| Did.DidKeyShape | identity/did.py:77-87 | The identifier of a key is "did:key:z6Mk" and forty-four more characters of the alphabet, and spells the bytes ED 01 and the key |
| Canonical.SingleLineSweep | identity/canonical.py:134-165 | The loop and the two optional stages compute the specified sweep under every policy |
| Canonical.SweepSwept | identity/canonical.py:148-165 | The result holds nothing swept, no doubled or outer spaces if runs are collapsed, no white space at the ends if they are trimmed |
| Canonical.SweepIdempotent | identity/canonical.py:134-165 | The sweep is idempotent under all eight policies |
| Canonical.FixedPoints | identity/canonical.py:116-124 | The fixed points are exactly the texts with nothing left to sweep, under REPLACE and REMOVE alike, so a REMOVE result is a fixed point of REPLACE |
| Canonical.EmptySweep | identity/canonical.py:134-165 | Under each policy the result is empty exactly for texts that hold only characters the policy drops |
| Canonical.DefaultSweepExactly | identity/canonical.py:134-165 | Character by character: the default sweep is the text from its first visible character to its last with a space for every swept one |
| Canonical.CoreSlice | identity/canonical.py:161-164 | The visible core is a slice that holds every visible character |
| Canonical.ReplaceAgainstRemove | tests/integration/conformance.py:75-87 | The REPLACE result is longer than the REMOVE result by exactly the swept characters between the first and last visible one; a case discriminates if and only if there is one |
| Payload.RoomsExactly | identity/canonical.py:208-231 | A room is accepted if and only if it has one to 128 characters, the sweep leaves it as it is, and it holds no bar, slash, question mark or hash sign |
| Payload.NoncesExactly | identity/canonical.py:234-244 | A nonce is accepted if and only if it is at least zero and below ten to the nineteenth |
| Payload.MessagesExactly | identity/canonical.py:247-270 | A message is accepted if and only if room and nonce are, and one to 4096 swept characters remain that can be encoded; its bytes are room, nonce and text between bars |
| Payload.NotesExactly | identity/canonical.py:273-300 | A note is accepted if and only if its names and nonce are, and a swept value remains that can be encoded in at most 8192 bytes; its bytes are namespace, key, nonce and value between bars |
| Payload.MessagePayloadInjective | identity/canonical.py:247-270 | Two accepted messages with equal bytes have equal room, nonce and swept text, whatever policies they were built under |
| Payload.NotePayloadInjective | identity/canonical.py:273-300 | Two accepted notes with equal bytes have equal namespace, key, nonce and swept value |
| Payload.MessageEncodingFails | identity/canonical.py:265-270 | UTF-8 encoding fails if and only if the input was declared swept and still holds a surrogate: never on default input |
| Payload.NoteEncodingFails | identity/canonical.py:294-300 | The same for notes |
| Payload.KindsCoincide | identity/canonical.py:247-300 | An accepted message and an accepted note have equal bytes if and only if the namespace is the room, the key the message's nonce, and the text the note's nonce, a bar and its value |
| Payload.NoteIsMessageExactly | identity/canonical.py:273-300 | An accepted note has the bytes of some accepted message if and only if its namespace is a valid room, its key is a nonce numeral and the rest fits a message: never for any other key |
| Payload.KindsCollide | identity/canonical.py:247-300 | In every table that shows the characters used, a one-character room or namespace, nonces below ten and any one-character value give a message and a note that are both accepted and have equal bytes |
| Payload.NamesInCharset | identity/canonical.py:182-205 | An accepted name is in the server's charset if and only if it holds no newline |
| Payload.NamesExactly | identity/canonical.py:182-205 | But for that newline a name is one to 48 lower-case letters, digits, underscores and hyphens and begins with a letter or digit |
| Payload.NewlineNamePasses | identity/canonical.py:187-205 | Every name of the charset followed by a newline is accepted and outside it |
| Utf8.CodecIsBijective | identity/canonical.py:270 | Strict UTF-8 decodes bytes to a text if and only if they are that text's encoding |
| Utf8.RfcExamples | identity/canonical.py:270 | The characters of the examples in section 7 of RFC 3629 have the bytes given there |
| SignedPath.SegmentRoundTrip | identity/canonical.py:303-319 | Unquoting a quoted segment gives the text back, the segment holds no delimiter, and quoting fails exactly on surrogates |
| SignedPath.QuotedIsShortest | identity/canonical.py:303-311 | Of all percent-encodings of the same bytes (section 2 of RFC 3986) the printed one is no longer than any, and any other of its length only has lower-case hexadecimal digits |
| SignedPath.QuotedIsEncoding | identity/canonical.py:303-311 | What is printed is such an encoding |
| SignedPath.PathSpelled | technocore/client.py:150-159 | The path is /r/, the room, /say-signed/, and DID, signature, nonce and text between slashes |
| SignedPath.SelfCheckExactly | technocore/client.py:172-176 | The self-check says yes if and only if the nonce is an int and the signature is that of the DID's key over room, nonce and text |
| SignedPath.BuiltWrite | technocore/client.py:178-209 | A built write holds the DID, room, nonce, text and swept text it was built from, and the signature over exactly the payload of these |
| SignedPath.ServerReadsPath | tests/integration/fake_technocore.py:115-141 | The server parses the printed path back into exactly the room, DID, signature, nonce and swept text |
| SignedPath.PrintsExactly | technocore/client.py:150-159 | The path of a write that passes its self-check prints if and only if its signature and its text can be encoded, and then it can be read back |
| SignedPath.RawTextVerifies | technocore/client.py:172-176 | A raw text with a surrogate passes the self-check under the signature of its sweep, and its path does not print |
| SignedPath.ServerRebuildsPayload | technocore/client.py:151-209 | For every message the client builds with a signature that can be encoded, the request the server reads has its DID, room, signature and nonce, and the bytes the server rebuilds are the bytes that were signed |
| SignedPath.ReadPrintedNonce | tests/integration/fake_technocore.py:165-168 | The server reads a printed nonce back as itself, whatever digits of other scripts it also takes |
| SignedPath.HonestBuildsVerify | technocore/client.py:203-208 | The self-check of an honest signer neither refuses nor raises: a message is built if and only if its payload is accepted |
| Server.FakeTechnocoreState.Limited | tests/integration/fake_technocore.py:90-96 | Forgets what is a minute old, then refuses or remembers this write, as the window function says |
| Server.FakeTechnocoreState.SaySigned | tests/integration/fake_technocore.py:159-199 | The reply, or none when the digits or the payload raise, and the new nonces, rooms, sequence number and window, for every request |
| Server.VerdictExactly | tests/integration/fake_technocore.py:159-199 | Each reply if and only if its conditions: a bad signature is reported whatever the nonce, a stale nonce only under a signature that checks, and nothing is stored that the DID's key did not sign over room, nonce and swept text |
| Server.BuiltMessageLands | tests/integration/fake_technocore.py:159-199 | A message the client built, whose signature can be encoded and checks at the server, is stored exactly when the window admits it and its nonce is above the last: its syntax is never refused |
| Landing.ReservedMessageBuilds | identity/nonce.py:75-115 | In every interleaving a nonce that was handed out builds: an honest signer's sendable message is never refused for it |
| Landing.ReservedMessageLands | tests/integration/fake_technocore.py:159-199 | In every interleaving such a message lands unless the window refuses it or it, or one reserved later, has already landed |
| Landing.ReceiveIsSaySigned | tests/integration/fake_technocore.py:179-199 | The server step of the interleaving changes counters and log exactly as the endpoint's reply says |
| RateLimit.GrantsBetween | technocore/ratelimit.py:49-60 | Between any two grants of one bucket, by any threads, lie at most a full bucket and the refill of the time between |
| RateLimit.WindowBound | technocore/ratelimit.py:91-105 | At the default safety factor and an advertised limit of at least two, no closed sixty seconds hold more grants than the limit |
| RateLimit.LimitIsAttained | technocore/ratelimit.py:91-105 | For every advertised limit of at least two, even or odd, the bucket sized from it does grant the whole limit within a closed minute |
| RateLimit.LimitKeptExactly | technocore/ratelimit.py:91-105 | All runs keep the advertised limit over closed minutes if and only if it is at least two, negative limits included |
| RateLimit.ServerNeverRefuses | tests/integration/fake_technocore.py:90-96 | A server limiting at the advertised rate refuses no request of such a client, even when arrivals lag grants by up to 120/limit seconds; a limit of one needs equal lag |
| RateLimit.LagToleratedExactly | tests/integration/fake_technocore.py:90-96 | The server refuses nothing that arrives within a given lag of its grant if and only if the limit is one and the lag zero, or the limit is at least two and the lag at most 120/limit seconds |
| RateLimit.NoLimitNoService | tests/integration/fake_technocore.py:93-94 | With a limit below one the server refuses everything, so one is the exact threshold |
| RateLimit.NeverRefusedExactly | tests/integration/fake_technocore.py:90-96 | The server refuses nothing of what the bucket grants if and only if the limit is at least one |
| BucketHistory.HistoryIsRun | technocore/ratelimit.py:49-82 | A bucket's history of locked sections, by any threads, is a run in order: its grants are the run's and it leaves what the run leaves |
| BucketHistory.HistoryKeepsLimit | technocore/ratelimit.py:49-82 | All threads' grants from one shared bucket together keep the limit in every closed minute |
| BucketHistory.RefusalOnlyRefills | technocore/ratelimit.py:62-75 | A lone caller that is refused leaves the bucket as one refill would |
| BucketHistory.GrantTakesOnce | technocore/ratelimit.py:62-75 | A lone caller that is served leaves the bucket as one `try_acquire` of its tokens would, refilled |
| Rediscovery.ReplacementBound | technocore/client.py:307-318 | Threads may wait in a replaced bucket for some delay more (on an exact clock, `max_wait`, as `TokenBucket.TokenBucket.Acquire` shows). In any closed minute that feels at most r replacements, all buckets together grant at most two of the largest buckets, and for each replacement one more and its refill in the delay |
| Rediscovery.ReplacementsKeptExactly | technocore/client.py:307-318 | That bound is exact: with buckets of m tokens that refill x in the delay, n grants a minute are kept if and only if n is at least (r + 2) * m + r * x; with the 30 seconds of `acquire`, x is half of m |
| Rediscovery.LimitKeptWithoutReplacement | technocore/client.py:307-318 | Buckets of half an advertised limit of at least two keep to the limit if and only if no replacement is felt, for odd limits too and for every delay |
| TokenBucket.TokenBucket.Create | technocore/ratelimit.py:42-47 | A bucket starts full, and is refused exactly for a capacity or rate that is not positive |
| TokenBucket.TokenBucket.TryAcquire | technocore/ratelimit.py:54-60 | Refills up to the clock reading and takes the tokens if they are there, as one visit in the bucket's history |
| TokenBucket.TokenBucket.Attempt | technocore/ratelimit.py:66-72 | One round: take, or refill and compute the wait, with others going on in between |
| TokenBucket.TokenBucket.Acquire | technocore/ratelimit.py:62-75 | Whatever other threads do to the bucket, the history grants this caller its tokens in exactly one locked section if it is served and in none if it is refused; refusal comes only without blocking or past the deadline, and names the wait this caller computed last; on an exact clock no grant comes later than max_wait and no sleep takes more than half a second; at most max_wait/0.01 sleeps; a lone caller on an exact clock is served whenever the deficit refills 0.01 s before the deadline |
| TokenBucket.WaitServes | technocore/ratelimit.py:68-71 | A bucket nobody else uses holds the tokens, if they fit it, exactly from the end of the computed wait on, for waits of at least 0.01 s |
| Nonce.StorableNoncesAreValid | identity/nonce.py:101-107 | The digit check after the storage check is unreachable |
| Nonce.NonceStore.Current | identity/nonce.py:68-73 | The stored nonce, or zero |
| Nonce.NonceStore.Reserve | identity/nonce.py:75-115 | Issues and stores one above the larger of stored value and floor exactly when the arguments are sound, that is storable and SQLite does not fail; which of the refusals otherwise, and that nothing changes |
| Nonce.NonceStore.Observe | identity/nonce.py:117-139 | Raises the stored value to the observed one and never lowers it; refuses exactly malformed and unstorable nonces and SQLite failures, and then changes nothing |
| Nonce.ReserveAnnouncementNonce | technocore/announcement.py:108-133 | Alone at the store a call is never raced, and hands out the explicit nonce, or the next one, exactly when it is wanted and storable and SQLite does not fail |
| NonceProtocol.CommitIsLegal | identity/nonce.py:89-115 | What a commit adds to the history is what one undisturbed call would have done |
| NonceProtocol.PlainNoncesCount | identity/nonce.py:75-115 | With floor zero and no observation the nonces of a key are exactly 1..k |
| NonceProtocol.StepKeepsInv | storage/db.py:166-180 | Every step of every process keeps the protocol invariant |
| NonceProtocol.NoncesOverRuns | identity/nonce.py:75-139 | In every interleaving, with failures anywhere, issued nonces strictly increase in commit order, exceed their floor and all earlier observations, and never pass 2**63 - 1 |
| NonceProtocol.AnnouncementsOverRuns | technocore/announcement.py:108-133 | Although `current` is read outside the lock, an answered explicit announcement got the nonce it asked for, no two answered calls share a nonce, and a raced call's burnt nonce reaches nobody |
| NonceProtocol.ServerOverRuns | tests/integration/fake_technocore.py:179-199 | Under any order, loss and repetition of deliveries the server's last nonce never exceeds the local one and stored nonces strictly increase with seq |
| NonceProtocol.FreshNoncePasses | tests/integration/fake_technocore.py:179-187 | A nonce that was handed out passes the server's check exactly until it, or one handed out later for its key, is stored |
| Client.OneTimePublicWriteGate.Create | technocore/client.py:89-100 | A gate exists exactly for a valid room and nonce, a confirmed run, a public host and a 64-digit hex hash |
| Client.HexDigestsExactly | technocore/client.py:449-454 | A digest is sixty-four digits and letters from a to f of either case |
| Client.OneTimePublicWriteGate.Consume | technocore/client.py:110-126 | Succeeds exactly once, and if and only if host, room, nonce and text hash are the gate's; raises if and only if only the hash cannot be computed; any other mismatch closes it |
| Client.RequestsExactly | technocore/client.py:262-288 | A request leaves if and only if the self-check says yes, the budget grants, the path prints, and either there is no gate, the host is loopback and local writes are enabled, or the gate is open and host, room, nonce and text hash are the gate's |
| Client.EndsExactly | technocore/client.py:412-446 | A send ends in a body if and only if its request left and came back with it under a status below 400; after a request that left, in TechnocoreError if and only if that failed in transport or came back with 400 or more, and in another exception if and only if something else failed |
| Client.SendSignedMessage | technocore/client.py:412-446 | Makes the request under exactly those conditions; how it ends in every case, told from the request and the reply alone; the gate is closed either way |
| Client.RawTextRaises | technocore/client.py:425-436 | A built message sent with its raw text, which holds a surrogate, passes the self-check, the guard and the budget, and then raises with no request made |
| Client.SurrogateLetterBuilds | technocore/client.py:178-209 | Every honest signer can build one of a surrogate and a visible letter |
| Client.MismatchSendsNothing | technocore/client.py:110-126 | A send whose write differs from its gate in host, room, nonce or text hash makes no request |
| Client.GateAdmitsOne | technocore/client.py:262-288 | Over any sends through any clients, one after the other, each gate admits at most one request, whose host, room, nonce and text hash are the gate's; no public host is reached without a gate |
| GateProtocol.StepKeepsInv | technocore/client.py:110-129 | Every step of every thread keeps passes, requests and crowded gates in correspondence |
| GateProtocol.GatesOverRuns | technocore/client.py:110-129 | With any threads inside any gates at once, every gated request has its gate's host, room, nonce and text hash, ungated ones reach only loopback hosts, and a gate lets at most one request through unless two calls got past its check, which is exactly when it was crowded |
| GateProtocol.MismatchNeverPasses | technocore/client.py:110-126 | A thread whose write differs from its gate in any of the four does not get past it |
| GateProtocol.NoUseAfterFinish | technocore/client.py:443-446 | Once some call is over, however it ended, its gate lets nobody past its check any more |
| GateProtocol.CrowdedSendsTwice | technocore/client.py:110-126 | While two threads are past the check of one gate, both can send, if the paths of their writes print |
| GateProtocol.TwoThreadsPass | technocore/client.py:110-126 | Any write an open gate was made for gets two threads there |
| Outbound.RecordIntent | technocore/outbound.py:37-52 | One intent row for the write, or a refusal that leaves the ledger alone |
| Outbound.IntentColumns | technocore/outbound.py:37-52 | Which column of the intent row holds which field: DID, room, nonce, signature, the hash of the payload |
| Outbound.OutcomeColumns | technocore/outbound.py:71-103 | The same of the outcome row: the write's fields, the intent it refers to, and the reply's seq and hash, or neither and what went wrong |
| Outbound.SendAndRecord | technocore/outbound.py:55-106 | Intent row, then at most one request that leaves with the intent on record, then the one outcome row that settles it, missing exactly when the send ends in an exception other than TechnocoreError, hashing the reply raises or the ledger refuses the row; the outcome is a result exactly when the request left and came back under a status below 400 |
| OutboundProtocol.StepKeepsInv | technocore/outbound.py:37-106 | Every step of every sender keeps intents, outcomes and requests in correspondence |
| OutboundProtocol.IntentBeforeRequest | technocore/outbound.py:67-70 | Every request has an earlier intent row of its own |
| OutboundProtocol.OneOutcomePerIntent | technocore/outbound.py:71-103 | Each intent has at most one outcome row, whichever senders stop where |
| OutboundProtocol.DanglingIntentsExact | technocore/outbound.py:109-125 | The query lists, in chain order, exactly the intents whose sender has not appended an outcome |
| Announcement.RecordLocalAnnouncementProof | technocore/announcement.py:180-266 | For a proof that says it is verified and checks again, four rows that each refer to the one before and show author, room, nonce, payload hash, and signature or text hash as each stage has it, or fewer if the ledger refuses the next; otherwise nothing |
| Announcement.PrepareFirstAnnouncement | technocore/announcement.py:269-282 | Reserves, signs and records, or says at which stage it stopped; sends nothing |
| Announcement.RecordPublishResult | technocore/announcement.py:375-410 | One result row for the proof that refers to the last of the four, unless the ledger refuses it |
| Announcement.SendPrepared | technocore/announcement.py:310-372 | At most one request, through a gate made for this proof, and one result row unless the send was throttled or raised, the reply cannot be hashed or the ledger refuses the row |
| Announcement.PublishFirstAnnouncementOnce | technocore/announcement.py:285-372 | At most one request, made exactly when the run is confirmed, prepared and allowed, and only with the four linked rows already in the ledger, which stays clean unless the reply's seq on record is a bool |
| Announcement.LaunchesExactly | technocore/announcement.py:310-337 | A run goes on to its send if and only if the proof is of this message, says it is verified, is signed by the key of its DID over its room, nonce and text, and a gate can be made for it |
| Announcement.ProofSigns | technocore/announcement.py:136-177 | A verified proof's write carries the swept text and the signature over its payload, and the proof's hashes are those of payload and swept text |
| Announcement.RunsEndSettled | technocore/announcement.py:337-372 | A run's request leaves exactly when it launches and the guard and budget allow it; a result row is there exactly for the three recorded outcomes and shows signature and reply hash; a run is published if and only if the reply came under a status below 400 with ok true and an int for seq, which is then on record, ambiguous if and only if no request left or it failed or came back with 400 or more, and unexpected after any other reply |
| Announcement.OnlyTheAnnouncementLeaves | technocore/announcement.py:296-338 | That request carries the swept announcement with the expected hash, a nonce above the stored one and a signature that verifies over exactly its payload |

## Left out

- NonceProtocol.ServerOverRuns: is about messages whose nonces come from one store, as the source intends; a second store for the same DID may make the server refuse a fresh nonce.
- RateLimit.WindowBound: real numbers stand for Python's floats, so rounding is not modelled.
- Rediscovery.ReplacementsKeptExactly: where the refill of the delay is not a whole number of tokens the bound is not shown to be attained.
- TokenBucket.TokenBucket.Acquire: how long a caller with competitors waits beyond its own deadline check, and in which order competitors are served, is not bounded.
- HashChain.CanonicalBytesInjective: rows hold what their columns are annotated with; `EntryHash.BoolsBreakChain` treats the bools the source lets in as ints. Metadata is taken already serialised.
- Verify.VerifyChain: rows are those of the ordered query; the stored columns are well-typed UTF-8 and integers, as the schema's types intend.
- Ledger.Ledger.Append: CHECK constraints, 64-bit integers, text that is not UTF-8 and I/O errors are one parameter, `storable`, whose failure rolls back.
- SignedPath.ServerReadsPath: URL normalisation by the HTTP client is not modelled; a room named "." or ".." would be rewritten before it reaches the server.
- SignedPath.SegmentRoundTrip: bytes that are not UTF-8, which `unquote` replaces by U+FFFD and the client never prints, do not route in the model.
- Client.OneTimePublicWriteGate.Create: host names are lower-cased as ASCII.
- Outbound.SendAndRecord: runs to its end or to an exception; that a sender may stop at any point is in `OutboundProtocol`.
- OutboundProtocol.StepKeepsInv: an append is one atomic step, as `LedgerProtocol.RunsAreSequential` shows of the transactions; and no other code appends intent or outcome rows, which is so in the source, where only technocore/outbound.py uses those three types.
- Ed25519, base64, PEM keystores, passphrases, capability wrappers, pickling and repr guards: library calls and object tricks.
- WAL, pragmas, migrations and the statement splitter of storage/db.py: start-up only; the append-only triggers are reflected in there being no step that changes or removes a row.
- The untrusted wrapper types and `isinstance` checks: single-branch refusals that the model's types exclude.
- The secret scanner's patterns: a flag of each append.
- Reading rooms, listing rooms, parsing of advertised limits and replies: no state the theorems are about.
- The command line, `doctor`, settings, public identity configuration and the conformance runner: presentation.

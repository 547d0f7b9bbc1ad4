# CipherVault, verified

A Dafny model of the parts of CipherVault whose correctness is hardest to see from the code: Shamir sharing over
GF(2^8), content-defined chunking and its CRC-32, the watcher that captures and replicates snapshots, the dotenv parser
and secret diff, the bounded archive reader, and the sealed envelopes. `dafny verify dfyconfig.toml` checks everything.
Automatic induction is off throughout.

| module | models |
|---|---|
| `GaloisField`, `Interpolation` | the field, polynomials over it, the factor theorem, Lagrange interpolation |
| `Shamir` | the branchless byte code, splitting and reconstruction |
| `Crc32`, `CrcPolynomial` | the table-driven checksum, the bit-serial one, and the polynomial remainder both are |
| `FastCdc` | the two-mask rolling-hash chunker |
| `CaptureProtocol` | the durable steps of captures and upload retries, as a transition system |
| `VaultWatcher` | the watcher's methods, each proved to be a run of that system |
| `WakeUp` | callback, event loop and worker thread interleaving over their queues and flags |
| `Dotenv`, `DotenvGrammar` | the line parser, a printer it inverts, and what each form of line means |
| `SecretDiff` | the diff of two revisions |
| `CustodyArchive` | the two-member backup archive, its writer and its streaming reader |
| `Envelope` | sealed values, wrapped keys and passphrase backups over an ideal cipher |
| `Common` | option, result and byte types, and a little arithmetic |

## Main results

- Any M or more distinct shares, in any order, rebuild the secret. For fewer than M shares, one fixed permutation of the
  random coefficients turns every splitting of one secret into a splitting of any other with the same shares; M-1 shares
  fit every secret through exactly one choice of coefficients.
- The eight-step multiply is the remainder of the polynomial product modulo the field polynomial, and the a^254 chain is
  the inverse of every nonzero element.
- The table-driven CRC equals the bit-serial one, and is the one word whose complement is the remainder of the message
  modulo the CRC-32 generator, written out. It detects every error confined to 32 consecutive bits, and among those
  confined to 33 it misses exactly the generator itself.
- Each chunk ends at the first position whose weighted byte sum is divisible by the power of two in force there, and
  this determines all chunks. They reassemble to the payload within the size bounds, and agree on a common prefix and
  after a shared cut. At a cut whose hash window lies in a common suffix the other payload's chunk ends too, unless it had an earlier cut.
- In every run of captures, failures, cancellations, retries and restarts with any settings, the stored heads are one
  chain with increasing counters, and the baseline is never ahead of them. A saved snapshot is listed for upload or
  verified with its own head and recovery set, except exactly those that a capture without replication took off the list.
  A retry's checks pass exactly for the snapshots whose head was stored.
- No interleaving loses a wake-up while the worker thread lives, and once the worker has opened its store it lives until
  shutdown is requested.
- A capture succeeds exactly when none of its calls fails, returns the first failure otherwise, and leaves in the store
  exactly what it got to.
- Printed dotenv pairs parse back to themselves, and every form of line has its stated meaning. A revealed diff replayed
  on the old variables gives the new ones, and backwards the old.
- Unpacking never writes more than its budget. It accepts exactly two plain members, in either order and within the
  budget, followed by 1024 to 10752 zeros, and returns an archived bundle exactly when its two sizes fit the budget.
  A stream is accepted as a bundle exactly when it is such and its receipt names the database's digest and size.
- Over an ideal cipher a sealed value opens in its own scope only, a wrapped key only for its own service, and a
  passphrase backup only if those very bytes were sealed.

## What the model assumes

- Content addresses and digests are ideal: a record's address is the record. Signatures are identified with what they
  bind. Snapshot ids are fresh, and the watcher is the only writer of heads.
- The hashes a capture acknowledges are those in the snapshot's manifest.
- Random bytes, file reads, outcomes of fallible calls and the operators' answers are arguments. The order of fallible
  calls is the code's.
- The cipher is a pair of functions for which decryption succeeds exactly on what was sealed (`Envelope.Ideal`). Key
  derivation, the tar header codec and the comparison of a receipt with a database are arguments.
- `FastCdc` keeps the hash as an integer reduced modulo 2^64 at each byte, and requires an average size of at most 2^30
  because the masks are computed with 32-bit shifts (apps/landing/script.js:176).

## Where code and promise differ

- The scope AAD is 91 bytes; its comment says 90 (crates/crypto/src/envelope.rs:22-24).
- A diff without changes is reported as identical files (apps/cli/src/diff.rs:300-303), and changes are meant never to
  be reported so (apps/cli/src/diff.rs:259-261). `SecretDiff.DiffFileBytes` gives the exact condition on both routes: no
  change is reported by variable exactly when both sides define the same variables, so an edited comment goes unnoticed
  (`SecretDiff.CommentUnnoticed`), and by line exactly when both texts have the same set of lines, so a reordering does
  (`SecretDiff.ReorderingUnnoticed`).
- An inline comment is meant to be stripped when whitespace precedes it (apps/cli/src/dotenv.rs:96-103). It is when there
  is a value before it (`DotenvGrammar.SpaceComment`, `DotenvGrammar.TabComment`), but an empty value keeps its comment,
  because the whitespace is trimmed first (`DotenvGrammar.EmptyValueKeepsComment`). After a tab it is stripped only when
  no space and hash follow, because those are looked for first.
- Every failure to open a passphrase backup is meant to look the same (crates/crypto/src/passphrase_backup.rs:6-7); a
  refusal by the key derivation itself does not (`Envelope.FailuresUniform` gives the exact condition). With a salt of
  sixteen bytes and fixed parameters Argon2 refuses exactly a passphrase longer than 2^32 - 1 bytes (section 3.1 of RFC
  9106), so that is the one input that looks different (`Envelope.OnlyOverlongDiffers`, `Envelope.OverlongPassphraseShows`).
- The budget passed when a copy is verified (scripts/recovery/account_custody.py:576) leaves no room for the receipt of
  a database near or above 64 KiB: a fresh archive passes exactly when database and receipt together are at most 65,536
  bytes (`CustodyArchive.CopyVerification`). Every valid bundle with a database of 65,536 bytes or more that can be archived
  is refused (`CustodyArchive.LargeDatabaseRefused`, `CustodyArchive.ZeroDatabaseRefused`).
- A worker whose store does not open takes a queued job with it, so an event can be lost without any shutdown
  (`WakeUp.WorkerFailureLosesEvent`). Without a shutdown that is the only way a worker ends
  (`WakeUp.EndedBeforeRunning`): once the store has opened nothing is lost until shutdown (`WakeUp.NothingLostOnceOpen`).
- Retries are meant to cover every snapshot saved but not replicated (apps/agent/src/watcher.rs:390). They can upload
  exactly those whose head was stored (`CaptureProtocol.RetryPassesExactly`). A snapshot saved by a capture that fails
  before its head stays pending for good (`CaptureProtocol.OrphanReachable`, `CaptureProtocol.OrphanStaysPending`).

## Model

| member | source | states |
|---|---|---|
| GaloisField.MulIsReducedProduct | crates/crypto/src/shamir.rs:15-32 | the field product is the remainder of the polynomial product |
| GaloisField.ReduceIsRemainder | crates/crypto/src/shamir.rs:15-32 | reduction is division with remainder by x^8+x^4+x^3+x+1, coefficient by coefficient, for polynomials of every degree |
| GaloisField.ReduceHomomorphism | crates/crypto/src/shamir.rs:15-32 | reduction is a ring homomorphism |
| GaloisField.MulAssociative | crates/crypto/src/shamir.rs:19-32 | the product is associative |
| GaloisField.MulCommutative | crates/crypto/src/shamir.rs:19-32 | the product is commutative |
| GaloisField.NoZeroDivisors | crates/crypto/src/shamir.rs:19-32 | a product is zero only when a factor is |
| GaloisField.Power255 | crates/crypto/src/shamir.rs:34-57 | every nonzero element to the power 255 is one, so the power 254 is its inverse |
| GaloisField.InverseUnique | crates/crypto/src/shamir.rs:34-57 | an element has one inverse |
| Interpolation.TooManyRoots | crates/crypto/src/shamir.rs:6-7 | a polynomial with as many distinct roots as coefficients is zero |
| Interpolation.InterpolationExists | crates/crypto/src/shamir.rs:6-7 | through any values at distinct points passes exactly one polynomial with that many coefficients |
| Interpolation.LagrangeRecovers | crates/crypto/src/shamir.rs:211-237 | the Lagrange sum over enough points is the polynomial's own value |
| Shamir.GfMul | crates/crypto/src/shamir.rs:19-32 | the branchless loop computes the field product |
| Shamir.GfInv | crates/crypto/src/shamir.rs:36-57 | zero is refused, anything else gets its inverse |
| Shamir.GfDiv | crates/crypto/src/shamir.rs:61-72 | division by zero is refused, otherwise the quotient times the divisor is the dividend |
| Shamir.GfPolyEval | crates/crypto/src/shamir.rs:75-81 | Horner's loop computes the polynomial's value |
| Shamir.SplitSecret | crates/crypto/src/shamir.rs:130-178 | refuses a threshold below two and a total below the threshold; otherwise the share at position i has number i + 1 and 32 bytes, each the value there of the polynomial with that secret byte and its coefficients |
| Shamir.EvaluateShares | crates/crypto/src/shamir.rs:158-162 | fills one byte of every share with that byte's polynomial and leaves the other bytes alone |
| Shamir.CheckIndices | crates/crypto/src/shamir.rs:188-202 | reports the first zero or repeated index |
| Shamir.CombineFaultNone | crates/crypto/src/shamir.rs:181-209 | reconstruction is refused exactly for fewer than two shares, a zero index or a repeated one |
| Shamir.CombineFaultMeaning | crates/crypto/src/shamir.rs:181-209 | which refusal: no shares, then the first share with a zero or used index, then too few |
| Shamir.Weights | crates/crypto/src/shamir.rs:211-226 | each weight is the share's Lagrange basis polynomial at zero |
| Shamir.Accumulate | crates/crypto/src/shamir.rs:228-237 | one reconstructed byte is the Lagrange sum at zero |
| Shamir.CombineShares | crates/crypto/src/shamir.rs:181-240 | fails with the first fault, otherwise returns the Lagrange sums of the shares at zero |
| Shamir.AnyQuorumRecovers | crates/crypto/src/shamir.rs:6-7 | any M or more distinct shares in any order are accepted and reconstruct exactly the secret |
| Shamir.ExactlyOneFitsByte | crates/crypto/src/shamir.rs:151-162 | for any secret byte, any share bytes at M-1 points come from exactly one choice of coefficients |
| Shamir.ExactlyOneFits | crates/crypto/src/shamir.rs:151-162 | the same for whole secrets and whole shares |
| Shamir.XorRandomInvolution | crates/crypto/src/shamir.rs:151-162 | the shift of the coefficients is its own inverse, hence a permutation of the choices |
| Shamir.FewSharesRevealNothing | crates/crypto/src/shamir.rs:6-7 | for any two secrets and fewer than M shares, one fixed permutation of the coefficients maps every splitting of the first to a splitting of the second with the same shares |
| Crc32.MakeTable | apps/landing/script.js:134-142 | entry i is i after eight register steps |
| Crc32.TableStep | apps/landing/script.js:147 | one table lookup does what feeding the eight bits of the byte does |
| Crc32.CvCrc32 | apps/landing/script.js:144-150 | the table-driven checksum is the bit-serial one |
| CrcPolynomial.ChecksumIsRemainder | apps/landing/script.js:133-150 | a word is the checksum exactly when its complement is the remainder of the message, with its first 32 bits complemented and times x^32, modulo the generator |
| CrcPolynomial.RegisterIsRemainder | apps/landing/script.js:138 | after any message the register is the remainder of the division by the generator, coefficient by coefficient |
| CrcPolynomial.RemainderUnique | apps/landing/script.js:138 | a dividend has one remainder of degree below 32 |
| CrcPolynomial.PolyIsGenerator | apps/landing/script.js:138 | the constant 0xedb88320 is the generator's coefficients, written out, reflected and without the leading one |
| CrcPolynomial.CheckValue | apps/landing/script.js:144-150 | the checksum of the digits 1 to 9 is 0xCBF43926 |
| CrcPolynomial.EmptyChecksum | apps/landing/script.js:144-150 | the checksum of nothing is zero |
| Crc32.RegisterLinear | apps/landing/script.js:138 | the register is linear in its start and in the message |
| Crc32.ChecksumCollision | apps/landing/script.js:144-150 | equal-length messages collide exactly when their difference brings a zero register back to zero |
| Crc32.BurstDetected | apps/landing/script.js:133-150 | different messages of equal length that differ only within 32 consecutive bits have different checksums |
| Crc32.BurstUpTo33 | apps/landing/script.js:133-150 | of the errors spanning at most 33 bits exactly those equal to the generator collide |
| CrcPolynomial.GeneratorPattern | apps/landing/script.js:138 | the undetected pattern of 33 bits is the generator's coefficients, highest first |
| FastCdc.MaskExponent | apps/landing/script.js:175-179 | the exponent is the least n with 2^n at least the average size |
| FastCdc.FindCut | apps/landing/script.js:190-206 | the two scans find the specified cut of the rest of the payload |
| FastCdc.ScanLarge | apps/landing/script.js:200-206 | the scan past the average size, under the larger mask, finds the specified cut |
| FastCdc.FastCdcChunk | apps/landing/script.js:172-211 | the chunks are the specified lengths laid end to end from offset zero |
| FastCdc.CutIsFirst | apps/landing/script.js:192-206 | a chunk ends after the first position whose hash passes the mask in force there, else at the size limit |
| FastCdc.CutTestMeaning | apps/landing/script.js:175-203 | with n the exponent of the least power of two reaching the average, a position is a cut exactly when the weighted sum is divisible by 2^(n+1) below the average size and by 2^(n-1), or one, from there on |
| FastCdc.CutMeaning | apps/landing/script.js:190-206 | a chunk ends at the first position that passes, else at the size limit, stated without the masks |
| FastCdc.LengthMeaning | apps/landing/script.js:184-209 | each chunk is what is left when that is at most the minimum, and otherwise the first cut of the rest; this determines its length |
| FastCdc.CutBounds | apps/landing/script.js:190-206 | a cut exceeds the minimum, unless minimum and maximum coincide, and never the maximum |
| FastCdc.LengthsTile | apps/landing/script.js:184-209 | the lengths are positive and add up to the payload |
| FastCdc.LengthBounds | apps/landing/script.js:184-209 | no chunk exceeds the maximum, and every chunk but the last exceeds the minimum unless the two coincide |
| FastCdc.ChunksReassemble | apps/landing/script.js:184-209 | the chunks' bytes in order are the payload |
| FastCdc.HashClosedForm | apps/landing/script.js:196 | the rolling hash is the sum of gear values times powers of two, modulo 2^64 |
| FastCdc.HashIsLocal | apps/landing/script.js:196-202 | the low n bits of the hash depend on the last n bytes only |
| FastCdc.CutTestIsLocal | apps/landing/script.js:175-206 | once as many bytes are scanned as the mask has bits, the cut test depends on that many last bytes only |
| FastCdc.CommonPrefix | apps/landing/script.js:184-209 | non-final chunks ending inside a common prefix are the same in both payloads |
| FastCdc.AppendKeepsChunks | apps/landing/script.js:184-209 | appending bytes keeps every chunk but the last |
| FastCdc.ChunksAfterCut | apps/landing/script.js:184-209 | from a cut on, the chunks are those of the rest of the payload by itself |
| FastCdc.ResynchroniseAtCut | apps/landing/script.js:184-209 | after cuts at the same point of a common suffix all later chunks agree |
| FastCdc.ResynchroniseByContent | apps/landing/script.js:184-209 | at a cut whose hash window lies in a common suffix the other payload's chunk ends no later; it ends there exactly when it had no earlier cut, and then every later chunk agrees |
| FastCdc.ResynchronisedOffsets | apps/landing/script.js:184-209 | after cuts at the same point of a common suffix later chunks have equal lengths and offsets shifted by the distance between the cuts |
| FastCdc.ToChunksAt | apps/landing/script.js:207-208 | a chunk's offset is the sum of the lengths before it |
| CaptureProtocol.NextHolds | apps/agent/src/watcher.rs:252-458 | every step, failure, cancellation and restart keeps the invariant of store, baseline and phase |
| CaptureProtocol.RunHolds | apps/agent/src/watcher.rs:252-458 | every state of every run satisfies that invariant, with settings that may differ after each restart |
| CaptureProtocol.HeadsFormAChain | apps/agent/src/watcher.rs:254-305 | in every run the heads in the store are exactly one linear chain with strictly increasing counters, ending at the active head |
| CaptureProtocol.BaselineIsCommitted | apps/agent/src/watcher.rs:274-306 | outside dry-run the baseline is empty or the manifest of a snapshot whose head was stored |
| CaptureProtocol.NothingLeavesUnverified | apps/agent/src/watcher.rs:335-454 | a saved snapshot is listed for upload or verified with its own head and recovery set exactly when no capture without replication took it off the list; when every process so far replicates it always is |
| CaptureProtocol.LocalSnapshotReachable | apps/agent/src/watcher.rs:383-385 | a run in which a snapshot captured without replication is neither listed nor verified once a replicating process starts |
| CaptureProtocol.RetryPassesExactly | apps/agent/src/watcher.rs:405-425 | in every run a retry's checks pass for a saved snapshot exactly when its head was stored |
| CaptureProtocol.OrphanStaysPending | apps/agent/src/watcher.rs:390-425 | a snapshot whose capture failed before its head stays listed and never passes a retry's checks |
| CaptureProtocol.OrphanReachable | apps/agent/src/watcher.rs:287-305 | a run, with replication on or off, that leaves such a snapshot |
| CaptureProtocol.CounterMaySkip | apps/agent/src/watcher.rs:282-289 | a failed capture can skip a counter: a run whose first head carries counter 2 |
| VaultWatcher.VaultWatcher.Open | apps/agent/src/watcher.rs:54-107 | refused exactly when the database is missing or does not open, the active head cannot be read, or there is one and its manifest cannot be; otherwise the restart step, with any settings, and the baseline is the last stored head's manifest |
| VaultWatcher.VaultWatcher.CheckForChanges | apps/agent/src/watcher.rs:170-189 | false exactly when every file read matches the baseline; true or the read's error at the first that does not |
| VaultWatcher.VaultWatcher.AcknowledgeCapture | apps/agent/src/watcher.rs:191-198 | the baseline becomes the capture's digests and nothing else changes |
| VaultWatcher.FromPairsLast | apps/agent/src/watcher.rs:191-198 | a path's digest is that of its last entry |
| VaultWatcher.FromPairsKeys | apps/agent/src/watcher.rs:191-198 | only paths with an entry have a digest |
| VaultWatcher.VaultWatcher.CaptureAndSync | apps/agent/src/watcher.rs:252-388 | is a run of the protocol; succeeds exactly when no call fails, otherwise returns the first failure in call order; the store is what the capture got to; on success the record follows the old head with the next counter, is active, is the baseline, is verified when replicating, and is still listed exactly when taking it off the list failed |
| VaultWatcher.CapturedFields | apps/agent/src/watcher.rs:287-385 | what is left in the store, field by field, by how far the capture got |
| VaultWatcher.VaultWatcher.PublishHead | apps/agent/src/watcher.rs:291-385 | the second half of a capture continues the run, returns the first failure of its calls, and leaves recovery set, head and upload list as far as it got |
| VaultWatcher.VaultWatcher.AcknowledgeAndUpload | apps/agent/src/watcher.rs:306-385 | the baseline becomes the record's files unless acknowledging fails, and the upload is taken off the list exactly when nothing failed and that was recorded |
| VaultWatcher.VaultWatcher.Upload | apps/agent/src/watcher.rs:335-385 | the outcome of each call decides the result; success means verified, and the upload is taken off the list exactly when that was recorded; anything else changes nothing |
| VaultWatcher.VaultWatcher.RetryPendingUploads | apps/agent/src/watcher.rs:391-458 | is a run of the protocol that takes off the list exactly the items that pass their checks, verify and are recorded, up to the first item that stops the round, and returns that item's failure; whatever left the list is verified |
| VaultWatcher.VaultWatcher.RetryItem | apps/agent/src/watcher.rs:405-454 | the item leaves the list, verified with its own consistent head and recovery set, exactly when it passes its checks, verifies and is recorded; only a cancelled upload or a failure to record stops the round |
| VaultWatcher.UnchangedMeansCommitted | apps/agent/src/watcher.rs:170-189 | outside dry-run, no change found means every tracked file matches one committed snapshot |
| WakeUp.NextHolds | apps/agent/src/watcher.rs:467-562 | every interleaved step of callback, loop and worker keeps the wake-up invariant |
| WakeUp.NoLostWakeUp | apps/agent/src/watcher.rs:467-562 | in every interleaving, while the worker lives, each event that matters is on its way to the worker or a check began after it |
| WakeUp.QuietMeansChecked | apps/agent/src/watcher.rs:495-562 | when queues, flags and threads are at rest, a check began after every event that matters |
| WakeUp.QueueIsBounded | apps/agent/src/watcher.rs:467 | the event queue never holds more than 128 events |
| WakeUp.QueueFills | apps/agent/src/watcher.rs:467 | for every n up to 128 a run in which n events wait in the queue |
| WakeUp.FullQueueOverflows | apps/agent/src/watcher.rs:470-475 | an event is queued while fewer than 128 wait, and at 128 goes to the overflow flag instead |
| WakeUp.WorkerFailureLosesEvent | apps/agent/src/watcher.rs:489-498 | a run in which the worker's store does not open and an event is lost without shutdown |
| WakeUp.EndedWorkerChecksNothing | apps/agent/src/watcher.rs:489-530 | after the worker has ended, an event it had not checked is never checked |
| WakeUp.RunsUntilShutdown | apps/agent/src/watcher.rs:489-530 | a worker that has opened its store runs until shutdown is requested |
| WakeUp.EndedBeforeRunning | apps/agent/src/watcher.rs:489-498 | without a shutdown a worker that has ended never ran: its store did not open |
| WakeUp.NothingLostOnceOpen | apps/agent/src/watcher.rs:467-562 | once the worker has opened its store and until shutdown is requested, each event that matters is on its way or a check began after it |
| Dotenv.UnescapeDoubleQuoted | apps/cli/src/dotenv.rs:109-138 | resolves escapes left to right, keeping unknown escapes and a final backslash |
| Dotenv.UnescapeEscape | apps/cli/src/dotenv.rs:109-138 | unescaping undoes escaping for every value |
| Dotenv.ParseDotenvWithLines | apps/cli/src/dotenv.rs:19-78 | the parse of the text after its byte-order mark, line by line, stopping at the first error |
| Dotenv.EntriesComeFromLines | apps/cli/src/dotenv.rs:30-76 | every entry is the assignment on the line it names, in line order |
| Dotenv.AssignmentsAreEntries | apps/cli/src/dotenv.rs:30-76 | no assignment is missed |
| Dotenv.FailsOnBadLine | apps/cli/src/dotenv.rs:54-71 | parsing fails exactly when some line assigns to a missing or malformed name |
| Dotenv.FirstError | apps/cli/src/dotenv.rs:54-71 | the error is that of the first bad line, with its number |
| Dotenv.NotUtf8 | apps/cli/src/dotenv.rs:20-23 | text that is not UTF-8, and no other, is refused as such |
| DotenvGrammar.ValueLines | apps/cli/src/dotenv.rs:30-106 | a name and an unquoted value assign it, with a comment after a space or a tab left out, and a value in single quotes is verbatim |
| DotenvGrammar.AssignmentLine | apps/cli/src/dotenv.rs:45-74 | a valid name, an equals sign and any text assign the value of that text |
| DotenvGrammar.SpaceComment | apps/cli/src/dotenv.rs:98-100 | a comment after a space is left out of an unquoted value |
| DotenvGrammar.TabComment | apps/cli/src/dotenv.rs:101-103 | a comment after a tab is left out when no space and hash follow |
| DotenvGrammar.EmptyValueKeepsComment | apps/cli/src/dotenv.rs:82-103 | when nothing but spaces precedes the comment, the comment is the value |
| DotenvGrammar.SingleQuoted | apps/cli/src/dotenv.rs:91-94 | a value in single quotes is verbatim |
| DotenvGrammar.DoubleQuoted | apps/cli/src/dotenv.rs:85-88 | a value in double quotes has its escapes resolved |
| DotenvGrammar.Escapes | apps/cli/src/dotenv.rs:117-123 | each known escape stands for its character |
| DotenvGrammar.KeptAsWritten | apps/cli/src/dotenv.rs:124-134 | unknown escapes, ordinary characters and a final backslash stay as written |
| DotenvGrammar.ExportIgnored | apps/cli/src/dotenv.rs:38-43 | a leading export and the spaces after it change nothing |
| DotenvGrammar.IndentIgnored | apps/cli/src/dotenv.rs:31 | spaces before a line change nothing |
| DotenvGrammar.SkippedLines | apps/cli/src/dotenv.rs:33-52 | blank lines, comment lines and lines without an equals sign assign nothing |
| DotenvGrammar.BadNames | apps/cli/src/dotenv.rs:54-71 | an empty name and a name with another character are refused as they stand |
| DotenvGrammar.NameCharacters | apps/cli/src/dotenv.rs:62-64 | the characters of a name, listed |
| DotenvGrammar.SpaceCharacters | apps/cli/src/dotenv.rs:31 | the characters trimming takes for spaces, listed |
| DotenvGrammar.TrimMeaning | apps/cli/src/dotenv.rs:31 | trimming takes off the spaces at both ends and no more |
| DotenvGrammar.BomIgnored | apps/cli/src/dotenv.rs:24-26 | one byte-order mark in front changes nothing |
| DotenvGrammar.CrlfEnds | apps/cli/src/dotenv.rs:30 | a line ends at CRLF |
| DotenvGrammar.LfEnds | apps/cli/src/dotenv.rs:30 | a line ends at LF |
| DotenvGrammar.LastLine | apps/cli/src/dotenv.rs:30 | the last line needs no end and nothing follows a final one |
| Dotenv.PrintedLineParses | apps/cli/src/dotenv.rs:30-106 | a printed pair with a valid key and any value parses to itself |
| Dotenv.RoundTrip | apps/cli/src/dotenv.rs:19-138 | printing any pairs with valid keys and parsing gives them back in order, numbered by line |
| Dotenv.PrintedFormIsEquivalent | apps/cli/src/dotenv.rs:19-138 | any file that parses can be rewritten in printed form without changing its pairs |
| SecretDiff.CollectVars | apps/cli/src/diff.rs:113-120 | collects the assignments into a map |
| SecretDiff.LastWinsValue | apps/cli/src/diff.rs:113-120 | a variable's value is that of its last assignment |
| SecretDiff.LastWinsKeys | apps/cli/src/diff.rs:113-120 | the variables are those assigned |
| SecretDiff.DiffDotenv | apps/cli/src/diff.rs:107-205 | one entry per name of either side in ascending order, each telling what happened to it, with counts equal to the entries of each kind |
| SecretDiff.AscendingUnique | apps/cli/src/diff.rs:107-205 | a set of names has one ascending list, so a diff is determined by the two maps |
| SecretDiff.LessMeaning | apps/cli/src/diff.rs:122-135 | names are ordered by their first differing character, a name before its continuations |
| SecretDiff.ReplayGivesNew | apps/cli/src/diff.rs:107-205 | replaying a revealed diff on the old variables gives the new ones |
| SecretDiff.ReverseGivesOld | apps/cli/src/diff.rs:107-205 | a diff read backwards is the diff of the sides exchanged, and replayed on the new variables gives the old |
| SecretDiff.CountsMeaning | apps/cli/src/diff.rs:130-195 | the counts are the numbers of names added, removed and given another value |
| SecretDiff.NoChangeMeansSameVars | apps/cli/src/diff.rs:107-205 | no change is counted exactly when both sides define the same variables |
| SecretDiff.MaskingKeepsShape | apps/cli/src/diff.rs:91-205 | the masked diff is the revealed one with each value masked: same names, kinds and counts |
| SecretDiff.MaskHides | apps/cli/src/diff.rs:91-104 | two values look the same masked exactly when both have at most six characters, or both seven to twelve and equal first and last two, or both more and equal first and last three |
| SecretDiff.DiffText | apps/cli/src/diff.rs:208-257 | removed are the old lines absent from the new text, added the new ones absent from the old, in order; swapping the texts swaps the counts |
| SecretDiff.MissingConcat | apps/cli/src/diff.rs:219-247 | order and repetitions of the reported lines are kept |
| SecretDiff.MissingOne | apps/cli/src/diff.rs:219-220 | one line is reported exactly when it does not occur on the other side |
| SecretDiff.TextUnchangedMeansSameLines | apps/cli/src/diff.rs:208-257 | no change is counted exactly when both texts have the same set of lines |
| SecretDiff.ReorderingUnnoticed | apps/cli/src/diff.rs:300-303 | two different texts for which the line diff reports no change |
| SecretDiff.DiffFileBytes | apps/cli/src/diff.rs:262-281 | dotenv files that both parse are compared by variable, everything else by line, with the entries and counts of that diff; no change is counted exactly when the variables are the same, or by line the sets of lines |
| SecretDiff.DotenvNames | apps/cli/src/diff.rs:268-269 | dotenv files are exactly those named .env, .env. and anything, or anything followed by .env, in any directory |
| SecretDiff.CommentUnnoticed | apps/cli/src/diff.rs:268-277 | two dotenv files that differ in a comment, and as lines, for which no change is reported |
| SecretDiff.DiffReport.constructor | apps/cli/src/diff.rs:67-76 | an empty report with zero totals |
| SecretDiff.DiffReport.AddFileReport | apps/cli/src/diff.rs:78-83 | appends the file, adds each of its counts to that total, and keeps the totals equal to the sums over the files |
| SecretDiff.DiffReport.HasChanges | apps/cli/src/diff.rs:85-87 | true exactly when some file has a change |
| CustodyArchive.CopyContent | scripts/recovery/account_custody.py:445-450 | copies exactly the content there is, up to its size, and says whether it is complete |
| CustodyArchive.ReadMember | scripts/recovery/account_custody.py:432-455 | takes one member off the stream, or stops with the fault and the files written so far |
| CustodyArchive.UnpackBundle | scripts/recovery/account_custody.py:413-456 | accepted exactly when the stream is canonical and its receipt matches its database; a canonical stream with another receipt is an invalid bundle, and no other stream is; for every stream at most the budget is written and only to the two expected names |
| CustodyArchive.MismatchRefused | scripts/recovery/account_custody.py:392-399 | a canonical stream is accepted exactly when its receipt parses to format 1, the digest and the size of its database |
| CustodyArchive.BlockRefusals | scripts/recovery/account_custody.py:422-436 | which error a truncated, unfinished, overlong, extra or unreadable block gives |
| CustodyArchive.MemberRefusals | scripts/recovery/account_custody.py:437-455 | which error an unexpected, linked, oversized, truncated or badly padded member gives, and what of it is left |
| CustodyArchive.UnpackWithinBudget | scripts/recovery/account_custody.py:438-442 | no stream makes the specified reader write more than the budget |
| CustodyArchive.AcceptedIsCanonical | scripts/recovery/account_custody.py:413-456 | an accepted stream is two plain members, one of each name, and 1024 to 10752 zeros, and the files are the members' contents |
| CustodyArchive.TwoMembersUnpack | scripts/recovery/account_custody.py:413-456 | such a stream, in either order, is accepted exactly when both sizes together fit the budget, and then yields its contents |
| CustodyArchive.AcceptsExactly | scripts/recovery/account_custody.py:413-456 | the reader accepts a stream exactly when it is canonical: two plain members within the budget, and the zeros |
| CustodyArchive.TrailerBounds | scripts/recovery/account_custody.py:426-430 | record padding leaves 512 to 10240 zero bytes after the first end block, the range the reader admits |
| CustodyArchive.TrailerBoundsTight | scripts/recovery/account_custody.py:426-430 | both ends of that range occur |
| CustodyArchive.ArchiveBundle | scripts/recovery/account_custody.py:402-410 | refuses a bundle exactly when its names are not the two expected ones or its receipt does not match, or a header cannot hold a size; otherwise writes both members, database first, and the trailer |
| CustodyArchive.LayoutAligned | scripts/recovery/account_custody.py:406-408 | an archive is a whole number of 10 KiB records |
| CustodyArchive.RoundTrip | scripts/recovery/account_custody.py:402-456 | an archive layout unpacks to its contents exactly when both sizes together fit the budget |
| CustodyArchive.ArchiveRoundTrip | scripts/recovery/account_custody.py:402-456 | an archived bundle comes back file for file exactly when its sizes together fit the budget |
| CustodyArchive.CopyVerification | scripts/recovery/account_custody.py:576 | with the budget passed there, a fresh archive is accepted exactly when database and receipt together are at most 65,536 bytes |
| CustodyArchive.LargeDatabaseRefused | scripts/recovery/account_custody.py:576 | every valid bundle with a database of at least 65,536 bytes, a receipt that is not empty and sizes a header can hold is archived and then refused as excessive |
| CustodyArchive.ZeroDatabaseRefused | scripts/recovery/account_custody.py:392-399 | one such bundle: 65,536 zero bytes and a receipt that parses to format 1, their digest and their size |
| Envelope.ScopeAad | crates/crypto/src/envelope.rs:25-40 | 91 bytes with every field at its own fixed place and the version big-endian |
| Envelope.BigEndianValue | crates/crypto/src/envelope.rs:38 | the version's four bytes are most significant first |
| Envelope.ScopeInjective | crates/crypto/src/envelope.rs:22-40 | different scopes have different associated data |
| Envelope.DomainsDisjoint | crates/crypto/src/envelope.rs:17-20 | the associated data of values, wrapped keys and backups never coincide |
| Envelope.ValueOpensInItsScope | crates/crypto/src/envelope.rs:73-95 | for every history, a sealed value opens to p under a scope exactly when p was sealed for that scope, key and nonce with this ciphertext |
| Envelope.CrossScopeFails | crates/crypto/src/envelope.rs:4-6 | with fresh nonces a value opens under its own scope and fails under every other |
| Envelope.UnwrapsOwnKeysOnly | crates/crypto/src/envelope.rs:137-164 | a service unwraps exactly what it wrapped, and every refusal is the authentication error |
| Envelope.WrappedValueRoundTrip | crates/crypto/src/envelope.rs:73-164 | a value sealed under a key that was wrapped comes back through unwrapping and opening |
| Envelope.SealPassphraseBackup | crates/crypto/src/passphrase_backup.rs:27-45 | fails exactly for an empty passphrase or a refused derivation; otherwise writes the magic, the derivation id, salt and nonce at their places, and the ciphertext over these 46 bytes |
| Envelope.OnlySealedBackupsOpen | crates/crypto/src/passphrase_backup.rs:49-65 | a backup opens to p exactly when the passphrase is not empty and those very bytes were sealed from p under its derived key |
| Envelope.FailuresUniform | crates/crypto/src/passphrase_backup.rs:6-7 | a failure differs from the authentication error exactly when a recognised envelope's key derivation refuses the passphrase |
| Envelope.OnlyOverlongDiffers | crates/crypto/src/passphrase_backup.rs:49-65 | for a derivation that refuses exactly passphrases over 2^32 - 1 bytes, the different error is exactly that of such a passphrase on a recognised envelope |
| Envelope.OverlongPassphraseShows | crates/crypto/src/passphrase_backup.rs:63 | 2^32 zero bytes as passphrase on a recognised envelope give the different error |

## Left out

- The gear matrix generator and SHA-256 (apps/landing/script.js): chunking results hold for every 256-entry gear table.
- The exact bytes of digests, signatures, content addresses and ciphertexts: library calls, taken as ideal.
- UTF-8 decoding and lossy decoding of file bytes: the decoded text is an argument, absent when decoding fails.
- gzip and the tar header codec: the reader works on the decompressed stream, and headers come from an encode/decode pair
  required to round-trip.
- File permissions, exclusive creation and fsync of unpacked files.
- The watcher's async runtime: its loop, callback and worker are a transition system over their shared accesses, and
  cancellation and timeouts are outcomes or steps. A panicking worker thread is not modelled.
- Liveness: continuous events may postpone a capture for ever, so only safety is stated.
- The coherent file reading, link checks and ignore rules of the watcher: what a read returned and whether an event
  matters are arguments.
- The source labels of a diff report and its printed form.
- Encryption failing on an oversized plaintext; in the model sealing with a key and nonce always succeeds.
- Hexadecimal encoding of shares, zeroization, constant-time behaviour and the quality of randomness.
- The command line, the user interface, the operator pool and the provisioning scripts.
- VaultWatcher.VaultWatcher.RetryPendingUploads: the outcomes of each item's calls are arguments, so why an operator refuses an upload is not modelled.
- WakeUp.NoLostWakeUp: states the property while the worker thread lives, because an ended worker checks nothing; `WakeUp.NothingLostOnceOpen` says when it lives.

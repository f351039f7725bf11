# RuleOak models in Dafny

This project models the algorithms RuleOak's safety claims rest on and proves their properties
for every input, every run and every reachable state. A loop or a class of the repository is a
method or a class here, tied by its contract to a specification; the main results are about
those specifications. Where the code does not do what its comments or documentation promise,
the model follows the code, a lemma gives an input that shows it, and another gives the exact
condition under which the promise holds.

| component | modules |
|---|---|
| the streaming JSON framer and its two gates | JsText, JsonText, JsonFraming, FramingGrammar, FramingRoundTrip, StreamGates, GateDecisions, GateOutcomes, Reprinting, ChildFraming, BatchNumbers, OutboundForwarding, StreamDecoding, GateBytes |
| canonical JSON, sealed envelopes, dependency closures | CanonicalJson, CanonicalOrder, CanonicalVisit, CanonicalLimits, EvidenceEnvelope, SealedEnvelopes, FamilyResolver |
| ZIP: one writer, two readers, the checksum, extraction | ZipBytes, Utf8, SlashPaths, Crc32, CrcChecks, StoredZip, ZipRoundTrip, StoredReads, ArchiveBytes, CandidateZip, CandidatePreflight, CandidateTiling, ZipAgreement, EntryRecords, EntryArchives, WrittenArchive, CandidateFacts, ArchiveReaders, CandidateExtraction |
| crash-tolerant protocols over files | EffectSteps, EffectBoundary, ApprovalClaims, ApplyPrepared |
| graph walks, windows, budgets, verdicts, diffs, learning | BreadthFirst, SemanticImpact, GraphTrace, ContextWindow, ContextBudget, EvidenceAdjudication, EvidencePass, SemanticDiff, Learning |

Assumptions about code and services outside the model:

- A buffer turned into a string is decoded as the Encoding Standard says (section 8.1.1): one
  replacement character for each ill-formed byte, or for the bytes that could have started a
  character.
- `JSON.parse` in the gates is a function of the text, the permission decision a function of the
  calls decided before and of the call itself.
- `JSON.stringify` prints a number as a numeral, or as `null`. Where values of one parsed array are
  printed as an array and parsed again, each number is what its text reads as (-0 becomes 0, an
  infinity becomes null) and all else is unchanged. Canonical JSON and the printed values of JsonText
  hold only numbers that come back; the canonicalizer refuses the others.
- Hashing, inflating, NFC, case folding and the reserved-name pattern are arbitrary functions.
- A lease is consumed by an atomic test-and-set, the evidence log is append-only, a file rename is
  atomic, and random effect identifiers do not repeat. Verification results are arbitrary, and so is
  which file operation throws and whether it had taken effect.
- One writer works on an effect at a time; approval processes have distinct identifiers and
  nobody re-queues a record from outside.

Where the code falls short of what is promised:

- The inbound gate decodes each chunk of standard input on its own, so a chunk that ends inside a
  character changes the text that is decided and forwarded (StreamDecoding.TextsAreWholeIff gives the
  exact condition, GateBytes.SplitCallIsAnother a tool call, GateBytes.PlainChunksIff what the child sees).
- A batch is printed anew for the child, so an allowed call that holds a number like -1e400 or -0
  reaches it with another value that nobody decided (ChildFraming.ChildGetsExactlyAllowed gives the
  exact condition, BatchNumbers.BatchedNumberIsLost a tool call).
- A name that starts with a byte order mark is shown differently by the two ZIP readers
  (ZipAgreement.ReadersAgree gives the exact condition for agreement, ArchiveReaders.ReadDifferently
  an accepted archive).
- The path checks of an archive fold letter case as the lower-case function does. On a file system that
  identifies more names, entries may clash (CandidateExtraction.ExtractionIsExact gives the exact condition).
- A rollback does not restore originals over 2 MiB, nor permission bits beyond nine, nor a file
  replaced by a write that failed afterwards (ApplyPrepared.RestoresIff; the inputs are
  OversizeOriginalIsLost, SpecialModeIsLost and LateWriteStays).
- Observation keys join two identifiers with a colon that both may contain
  (EvidenceAdjudication.FaithfulIff, AmbiguousKeyFlips).
- A crash between claiming and deciding an approval strands the record (ApprovalClaims.CrashStrands;
  CanEndIff: exactly the stranded records can no longer be decided).
- A budget on another metric, or on fewer capabilities, is called strengthened by its numbers alone
  (SemanticDiff.DirectionMeansAdmissible gives the exact condition; the inputs are
  OtherMetricMisleads and FewerCapabilitiesMislead).
- An exact-action suggestion names the resource of another action when a resource comes again under a
  new key before the other resources have come (Learning.PairedIff, PairedWrongly).

## Model

| member | source | states |
|---|---|---|
| JsonFraming.FindJsonEnd | packages/cli/src/stream-gate.js:119-143 | the loop with its stack and string flags finds the same end, or none, as the recursive scanner, with the same malformed flag |
| JsonFraming.ExtractJsonFragments | packages/cli/src/stream-gate.js:145-175 | the position-advancing loop cuts a buffer into exactly the fragments and the remainder of the specification |
| JsonFraming.FindEndExtends | packages/cli/src/stream-gate.js:119-143 | an end found in a prefix of the input is the same end in every extension of it |
| JsonFraming.ChunkIndependence | packages/cli/src/stream-gate.js:145-175 | for every division of an input into chunks, feeding the chunks gives the same fragments (adjacent noise merged) and the same remaining buffer as one call on the whole text |
| JsonFraming.Lossless | packages/cli/src/stream-gate.js:145-175 | the raw text of all fragments followed by the remaining buffer is the input |
| JsonFraming.RemainingSettled | packages/cli/src/stream-gate.js:149-164 | a buffer the framer leaves behind yields nothing new when it is framed again |
| FramingGrammar.EndIsWord | packages/cli/src/stream-gate.js:119-143 | the scanner stops without complaint after n units if and only if those units, with the opener, are a string-aware balanced bracket word of an independent grammar |
| FramingGrammar.WordsArePrefixFree | packages/cli/src/stream-gate.js:119-143 | no balanced bracket word is a proper prefix of another, so the end found is the shortest and the only one |
| FramingGrammar.MalformedIsHopeless | packages/cli/src/stream-gate.js:136-137 | when the scanner reports a wrong closer, no continuation of the text starts with a balanced word |
| FramingGrammar.OpenCanBeClosed | packages/cli/src/stream-gate.js:142 | when the scanner finds no end, the text can still be completed to a balanced word |
| FramingRoundTrip.PrintedTrees | packages/cli/src/stream-gate.js:119-143 | every printed JSON value, with numbers that do not come back too, parses as trees of the framing grammar, and a printed object or array is one bracketed group |
| FramingRoundTrip.FramingUndoesPrinting | packages/cli/src/stream-gate.js:111-175 | any sequence of printed objects and arrays separated by text without opening brackets is recovered one fragment a value, nothing merged, split or left over |
| JsonText.ReadPrinted | packages/protocol/src/family.js:24-50 | where every numeral reads back as its number, reading a printed JSON value gives the value back and stops exactly at its end |
| JsonText.PrintInjective | packages/protocol/src/family.js:24-50 | where every numeral reads back as its number, different JSON values have different printed texts |
| StreamGates.InboundGate.Write | packages/cli/src/stream-gate.js:197-202 | one chunk changes buffer, child input, client output and decision history exactly as handling the extracted fragments in order |
| StreamGates.InboundGate.HandleBatch | packages/cli/src/stream-gate.js:232-243 | a batch forwards, in order, exactly the items that are no route probe and, if tool calls, are allowed after the calls before them; it answers, in order, exactly the withheld items that are no notifications |
| StreamGates.InboundGate.End | packages/cli/src/stream-gate.js:204-217 | at the end of input a bracketed tail is withheld and answered with a parse error, any other tail is passed on |
| StreamGates.BatchReplies | packages/cli/src/stream-gate.js:232-243 | the items forwarded and the items answered are those at exactly these places of the batch, in order; each reply carries the identifier of its withheld item and the reason, and notifications are never answered |
| GateOutcomes.GateOutcome | packages/cli/src/stream-gate.js:197-248 | for every input and chunking, what the child gets and the client is told are, piece by piece and in order: noise unchanged; a message alone as it came and a line feed if and only if it is no route probe and, if a tool call, allowed after the calls before it, and otherwise one reply with its identifier and the reason, or none for a notification; a batch as its passing items and the replies to the others; one parse error for each malformed piece; and at the end the rest, or one reply when it opens a message |
| GateOutcomes.PiecesSorted | packages/cli/src/stream-gate.js:145-175 | every JSON piece is a balanced word that parses, every malformed piece opens and is none, and no noise opens |
| GateOutcomes.MessageKinds | packages/cli/src/stream-gate.js:26-41 | tool calls, route probes and notifications by the first members of their names |
| GateOutcomes.CallsAre | packages/cli/src/stream-gate.js:235-252 | the calls of a batch are the items at exactly the places of tool calls, in order |
| GateDecisions.ForwardsExactlyAllowed | packages/cli/src/stream-gate.js:197-248 | for every input and chunking, the tool calls that reach the child, alone or in batches, are exactly the decided calls that were allowed, in the order of their decisions |
| GateDecisions.AllowedIff | packages/cli/src/stream-gate.js:250-258 | a call is among the allowed ones if and only if some decision of the history, made after the calls before it, allowed it |
| GateDecisions.EveryCallDecided | packages/cli/src/stream-gate.js:197-248 | the decision history of a session is exactly the tool calls in the complete fragments of its text chunks that parse, each once and in order |
| StreamGates.GateChunkIndependence | packages/cli/src/stream-gate.js:197-248 | what is sent to the child, the messages to the client and the decisions do not depend on how the text of the input is cut into text chunks |
| StreamDecoding.TextsAreWholeIff | packages/cli/src/stream-gate.js:197-198 | for every sequence of byte chunks, well-formed or not, the texts of the chunks put together are the text of the whole if and only if no chunk ends inside a character or inside bytes that become one replacement character |
| StreamDecoding.CleanIffWellFormed | packages/cli/src/stream-gate.js:197-198 | in a well-formed stream that is the case exactly when every chunk is well-formed by itself |
| StreamDecoding.LossyIsStrict | packages/cli/src/stream-gate.js:198 | on well-formed bytes the replacing decoder gives the characters of the strict one, in UTF-16 |
| StreamDecoding.UnitsAre | packages/cli/src/stream-gate.js:198 | the units of a character are its number, or a high and a low surrogate that give it back |
| StreamDecoding.OneCut | packages/cli/src/stream-gate.js:197-198 | two parts decoded apart never give less text than together, and the same exactly when the cut is clean |
| GateBytes.ByteChunkIndependence | packages/cli/src/cli.js:1028-1038 | under clean cuts, what is sent to the child, the messages to the client and the decisions do not depend on how the bytes of standard input arrive |
| GateBytes.EveryByteCallDecided | packages/cli/src/cli.js:1028-1038 | under clean cuts the decision history is exactly the tool calls of the decoded input |
| GateBytes.PlainChunksIff | packages/cli/src/cli.js:1028-1038 | on input without opening brackets the child sees the same as for the whole input in one chunk if and only if the cuts are clean |
| GateBytes.SplitCallIsAnother | packages/cli/src/cli.js:1037 | the bytes of one printed tool call, cut inside a character: another call is decided and, if allowed, forwarded, with two replacement characters in its place |
| StreamGates.OnlyVettedReachesChild | packages/cli/src/stream-gate.js:204-248 | an opening bracket reaches the child only inside a complete fragment of the input that parsed, or inside reprinted items of such an array |
| ChildFraming.ChildReadsWrites | packages/cli/src/stream-gate.js:204-248 | framing the text that the child gets yields exactly one fragment for each JSON text and each batch the gate wrote, noise otherwise, and leaves nothing bracketed open |
| ChildFraming.ChildGetsExactlyAllowed | packages/cli/src/stream-gate.js:204-248 | the child reads as many tool calls as were allowed, each the allowed call in its place or that call printed and parsed again; they are exactly the allowed calls, in order, if and only if no call sent in a batch holds a number that printing changes |
| ChildFraming.ChildReadsCalls | packages/cli/src/stream-gate.js:232-248 | a call of a batch reaches the child printed and parsed again, any other call as it was decided |
| Reprinting.BackIff | packages/cli/src/stream-gate.js:241 | printing and parsing a value gives it back if and only if every number in it comes back |
| Reprinting.CallsBack | packages/cli/src/stream-gate.js:241 | the tool calls among values printed and parsed again are the tool calls among them, printed and parsed again, in the same places |
| BatchNumbers.BatchedNumberIsLost | packages/cli/src/stream-gate.js:241 | a call with the amount -1e400, allowed in an array of one: the child gets the amount null, which nobody decided; the same call outside an array reaches it as allowed |
| ChildFraming.FragmentsAreWords | packages/cli/src/stream-gate.js:145-175 | every JSON fragment of every input is a balanced bracket word |
| OutboundForwarding.OutboundGate.Write | packages/cli/src/stream-gate.js:371-384 | however the input is chunked, output, observed values and failure are those of handling the pieces of all input so far in order, up to the first value the observer throws on; until then the buffer is what framing that input leaves |
| OutboundForwarding.OutboundGate.End | packages/cli/src/stream-gate.js:385-388 | at the end the output is the whole input, or what was passed on before the observer threw |
| OutboundForwarding.DeliveredIff | packages/cli/src/cli.js:1005-1008 | the output is the whole input if and only if the observer throws on no value in turn; otherwise it is the input right up to the first value it throws on, and stops there |
| OutboundForwarding.FailedAt | packages/cli/src/stream-gate.js:375-379 | a failure is at the first refused value, and exactly the pieces before it were passed on and observed |
| CanonicalJson.CanonDetermines | packages/protocol/src/family.js:21-52 | two values have the same canonical text if and only if they are equal up to the order of object members |
| CanonicalJson.CanonReadsBack | packages/protocol/src/family.js:21-52 | parsing the canonical text gives the value back up to member order |
| CanonicalJson.NormalizeIdempotent | packages/protocol/src/family.js:48 | sorting members at every level twice is sorting them once |
| CanonicalOrder.KeyLessIff | packages/protocol/src/family.js:48 | the order of keys: one goes on after the other, or is less at the first code unit that differs |
| CanonicalOrder.CanonAscends | packages/protocol/src/family.js:45-49 | what the canonical text reads as has its keys in ascending order of their code units at every depth |
| CanonicalOrder.PrintedUnits | packages/protocol/src/family.js:24-50 | literals, brackets, commas, colons and quotes of the printed text, unit by unit |
| CanonicalOrder.UnitEscaped | packages/protocol/src/family.js:31-35 | how each code unit of a string is written: short escapes, four lower-case hexadecimal digits of its number, or itself |
| CanonicalOrder.EscapedFirst | packages/protocol/src/family.js:31-35 | strings are escaped unit by unit, except that a surrogate pair stays |
| CanonicalVisit.CanonicalFamilyJson | packages/protocol/src/family.js:21-52 | accepts exactly the values that denote a finite tree within the limits, with the canonical text of that tree; the text reads as that tree with its keys, in every object at every depth, in ascending order of their code units |
| CanonicalVisit.Canonicalizer.Visit | packages/protocol/src/family.js:24-50 | one visit raises the node and character counters by exactly the cost of the value, keys counted twice and array index names counted, and refuses exactly what does not fit |
| CanonicalVisit.Canonicalizer.CountKeys | packages/protocol/src/family.js:41-44 | the loop over property names adds their lengths and stops as soon as the character limit is passed |
| CanonicalVisit.ActiveIsCyclic | packages/protocol/src/family.js:36 | an object met again while it is being visited denotes no finite tree |
| CanonicalLimits.WellFormedIff | packages/protocol/src/family.js:33 | a string passes the surrogate check exactly when every high surrogate is followed by a low one and every low one follows a high one |
| CanonicalLimits.StringAccepted | packages/protocol/src/family.js:31-35 | a string is accepted up to a million units |
| CanonicalLimits.KeyAccepted | packages/protocol/src/family.js:40-48 | a property name counts twice towards the million |
| CanonicalLimits.NestedAccepted | packages/protocol/src/family.js:25 | arrays in one another are accepted up to 32 levels |
| CanonicalLimits.NullsAccepted | packages/protocol/src/family.js:25 | an array is accepted up to 50000 visits, its own included |
| CanonicalLimits.IndexDigits | packages/protocol/src/family.js:41-44 | the index names of an array count one unit for each decimal digit |
| EvidenceEnvelope.AcceptedUpToOrder | packages/protocol/src/family.js:21-52 | values equal up to member order are accepted or refused alike |
| EvidenceEnvelope.SealedIsMatched | packages/core/src/family.js:21-38 | a sealed envelope, its members in any order, is assessed with integrity matched |
| EvidenceEnvelope.SameSealSameContent | packages/core/src/family.js:36-38 | for any hash, two intact envelopes with the same seal are equal up to member order if and only if the two texts they seal are the same; otherwise these texts are a collision |
| EvidenceEnvelope.SealedBody | packages/core/src/family.js:36-37 | the seal of an intact envelope is the hash of its normalized members without the seal |
| SealedEnvelopes.IntegrityIff | packages/core/src/family.js:36-38 | an envelope is assessed as intact if and only if it is accepted, has the shape of one, and holds the digest of its payload and that of all its members but the seal |
| SealedEnvelopes.SealIff | packages/core/src/family.js:21-29 | sealing succeeds if and only if the unsigned envelope is accepted and some accepted envelope of the right shape has its members and, in place of any digests of its own, the right ones; the result is such an envelope |
| SealedEnvelopes.SealKeeps | packages/core/src/family.js:21-29 | a sealed envelope holds exactly the members of the unsigned one, brought into order, with the digest of its payload and that of everything but the seal |
| FamilyResolver.ResolveFamilyDependencySet | packages/core/src/family.js:59-104 | refuses an invalid registry, another digest and a reference that no entry has, exactly these; otherwise succeeds if and only if nothing reachable from the root is on a cycle and no product occurs with two references, and gives exactly what is reachable, dependencies first, root last; a cycle is reported only where a chain meets a product again, a conflict only where there is one |
| FamilyResolver.Resolver.Visit | packages/core/src/family.js:92-102 | one visit either closes the selected set over a release, leaving the active set as it was, or reports a cycle or conflict that is really reachable |
| FamilyResolver.ClosedIsReachable | packages/core/src/family.js:89-104 | a closed list with the root is exactly the set of reachable releases, and the root is then resolvable |
| FamilyResolver.PathDescends | packages/core/src/family.js:100-101 | in a dependency-first list every dependency path only leads to earlier entries |
| FamilyResolver.ActiveIsBad | packages/core/src/family.js:93 | meeting an active product again means a reachable cycle or a reachable conflict |
| Crc32.CrcTable | packages/cli/src/cli.js:1595-1603 | entry n of the table is the byte n shifted eight times through the reflected polynomial |
| Crc32.TableCrc | packages/cli/src/cli.js:1605-1609 | the table-driven loop computes the bit-serial CRC-32 of every byte string |
| Crc32.TableStep | packages/cli/src/candidate-ingestion.js:55-56 | one table look-up is eight bit-serial steps |
| Crc32.PolynomialNumber | packages/cli/src/cli.js:1599 | the polynomial bits are the constant 0xEDB88320 |
| Crc32.ShiftInjective | packages/cli/src/candidate-ingestion.js:55-56 | two words with the same successor are the same |
| Crc32.ShiftOnto | packages/cli/src/candidate-ingestion.js:55-56 | every 32-bit word is the successor of exactly one word: each step of the register is a bijection |
| Crc32.BurstDetected | packages/cli/src/cli.js:1605-1609 | two texts of one length that differ, but only within 32 consecutive bits, never have the same CRC |
| CrcChecks.CheckValues | packages/cli/src/cli.js:1605-1609 | the checksum of no byte is 0 and that of four bytes 0xFF is 0xFFFFFFFF |
| CrcChecks.Residue | packages/cli/src/cli.js:1605-1609 | a text followed by its own checksum has one and the same checksum whatever the text |
| StoredZip.MakeZip | packages/cli/src/cli.js:1623-1650 | succeeds if and only if there are at most 10000 files of at most 256 MiB in all, and writes exactly the local records, the directory with the running offsets and the end record |
| StoredZip.WriteRecords | packages/cli/src/cli.js:1630-1645 | the loop accumulates both record lists and the offset, and fails exactly when the input total passes the limit |
| StoredZip.ParseStoredZip | packages/cli/src/workstation.js:151-183 | the loop over local headers computes the walk of the specification, with the same refusal for every malformed input |
| StoredReads.ParseIff | packages/cli/src/workstation.js:151-183 | for every buffer: it is read if and only if it has at most 536870912 bytes and is a chain of at most 10000 stored local records without data descriptors, of equal sizes, up to its end or a directory, with names that pass and differ; it is read as exactly their names and contents |
| StoredReads.SafeNameIff | packages/cli/src/workstation.js:172 | a name passes if and only if it is parts without slashes of either kind, none empty or dots, joined by slashes, of at most 1024 UTF-16 units |
| ZipRoundTrip.ParseArchive | packages/cli/src/workstation.js:151-183 | reading what the writer wrote collects the files in order, or gives the reader's first objection to a name |
| ZipRoundTrip.RoundTrip | packages/cli/src/cli.js:1611-1650 | reading a written archive back succeeds if and only if all names are safe and distinct, and then gives exactly the files, whatever order the writer sorted them into |
| ZipRoundTrip.SafeRoundTrip | packages/cli/src/cli.js:1623-1650 | files with distinct safe names within the limits, the empty list included, always come back as exactly their name-to-bytes map |
| ZipRoundTrip.SafeFits | packages/cli/src/cli.js:1611-1621 | with safe names within the limits no 16-bit or 32-bit field wraps around and the archive stays within the reader's size limit |
| ZipRoundTrip.CentralDescribes | packages/cli/src/cli.js:1640-1643 | each central record gives its file's checksum, sizes and name length and the offset at which that file's local record stands |
| ZipRoundTrip.EndDescribes | packages/cli/src/cli.js:1646-1649 | the end record gives the number of files, the size of the directory and its place |
| ArchiveBytes.OneFileArchive | packages/cli/src/cli.js:1611-1650 | the archive of one empty file named with a backslash, byte by byte |
| WrittenArchive.WrittenIff | packages/cli/src/candidate-ingestion.js:58-105 | the preflight accepts an archive of `makeZip` with names under 64 KiB if and only if it is not empty, every name is ASCII and passes, no two names or ancestors clash up to case, no file is an ancestor, and all sizes are within the limits; it then reports the files as written |
| WrittenArchive.FlaggedIff | packages/cli/src/candidate-ingestion.js:62-105 | the same for a writer that also marks its names as UTF-8 |
| EntryArchives.AcceptedIff | packages/cli/src/candidate-ingestion.js:62-105 | an archive of entries with any host, flags, method, attributes, sizes and checksums, data descriptors included, is accepted exactly under conditions on these numbers, and reported as written |
| EntryArchives.SpansTile | packages/cli/src/candidate-ingestion.js:99-101 | the local records of a written archive follow one another in the order of the directory, from its start to the directory |
| EntryRecords.RowIff | packages/cli/src/candidate-ingestion.js:70-96 | one entry passes exactly when its name is well formed, announced and safe, its flags are among bits 1, 2, 3 and 11, it is stored or deflated, its Unix mode says a regular file or a directory as the name does or nothing and has no set-id or sticky bit, and its sizes are within limit and ratio |
| EntryRecords.LocalAgrees | packages/cli/src/candidate-ingestion.js:85-96 | the local record of a written entry always agrees with its central record and ends where it was written to end, after its data descriptor if it has one |
| CandidateFacts.AcceptedFields | packages/cli/src/candidate-ingestion.js:70-96 | in every accepted archive the central and the local record of every entry have these numbers: signatures, allowed flags, method 0 or 8, mode by kind, sizes within limit and ratio, the same name, flags, method and sizes in both |
| CandidateFacts.AcceptedBounds | packages/cli/src/candidate-ingestion.js:62-68 | an accepted archive is within the limits in bytes and entries, and its end record names one disk, the number of its entries and a directory that ends there |
| CandidateFacts.ExtrasIff | packages/cli/src/candidate-ingestion.js:57-60 | an extra area of whole blocks passes exactly when no block is for ZIP64 or a Unicode path |
| CandidateFacts.SafePathIff | packages/cli/src/candidate-ingestion.js:26-31 | a path passes if and only if it is good parts, in characters, joined by slashes, not too many and not too long, in normal form |
| Utf8.DecodeEncoded | packages/cli/src/workstation.js:171 | decoding UTF-8 undoes encoding |
| Utf8.EncodedLength | packages/cli/src/workstation.js:172 | a name has at most as many UTF-16 units as UTF-8 bytes and at least a third as many |
| SlashPaths.SplitJoin | packages/cli/src/candidate-ingestion.js:28 | splitting a path joined from slash-free parts gives the parts back |
| SlashPaths.JoinSplit | packages/cli/src/candidate-ingestion.js:103 | joining the parts of a split path gives the path back |
| CandidateZip.FindEnd | packages/cli/src/candidate-ingestion.js:64 | the backward search over the last 65557 bytes finds the last end record anywhere in the buffer |
| CandidateZip.Extras | packages/cli/src/candidate-ingestion.js:57-60 | the loop accepts exactly the extra areas made of whole blocks, none of them ZIP64 or a Unicode path |
| CandidateZip.ReadRow | packages/cli/src/candidate-ingestion.js:71-96 | the per-entry checks pass exactly when the central record, its name, mode and sizes, and the local record it names are sound, and report where the local record ends |
| CandidateZip.ReadLocalRecord | packages/cli/src/candidate-ingestion.js:85-95 | the local half of the checks passes exactly for local records that agree with the directory, descriptor included |
| CandidatePreflight.ReadDirectory | packages/cli/src/candidate-ingestion.js:69-98 | the loop returns exactly when all entries are sound, end at the end record, have distinct keys and stay within the byte total |
| CandidatePreflight.CheckRanges | packages/cli/src/candidate-ingestion.js:99-101 | the loop over the sorted ranges accepts exactly a gapless chain from 0 to the directory |
| CandidatePreflight.CheckPaths | packages/cli/src/candidate-ingestion.js:102-103 | the loop over prefixes passes exactly when no two implied paths differ only in case and every entry at a parent path is that directory |
| CandidatePreflight.Preflight | packages/cli/src/candidate-ingestion.js:62-105 | returns if and only if the buffer is an accepted archive, with all its entries and the sum of their expanded sizes, every read in bounds |
| CandidateTiling.RangesTile | packages/cli/src/candidate-ingestion.js:99-101 | the range check passes if and only if the ranges contain every byte before the directory exactly once |
| CandidateTiling.EveryByteInOneRecord | packages/cli/src/candidate-ingestion.js:62-105 | in an accepted archive every byte lies in exactly one local record, central record or the end record |
| CandidateTiling.AcceptedRows | packages/cli/src/candidate-ingestion.js:66-98 | the entries of an accepted archive are as many as the end record says, each a sound reading of its position, and their central records tile the directory |
| ZipAgreement.ReadersAgree | packages/cli/src/candidate-ingestion.js:69-101 | on an accepted archive the walk over local headers returns exactly what the directory describes if and only if its entries are at most 10000 stored regular files of equal compressed and expanded size, without descriptors and without a byte order mark in a name |
| ZipAgreement.WalkAccepted | packages/cli/src/workstation.js:155-181 | on an accepted archive the walk visits the local records one after another, whatever order the directory lists them in |
| ZipAgreement.SafeForBoth | packages/cli/src/workstation.js:172 | a name the preflight lets through is safe for the other reader if and only if it is not a directory name |
| ZipAgreement.MarkedNameDisagrees | packages/cli/src/candidate-ingestion.js:78 | an accepted archive with a name that starts with a byte order mark is never read alike |
| ZipAgreement.MarkIsDropped | packages/cli/src/candidate-ingestion.js:78 | four bytes of a name that one decoder gives with its byte order mark and the other without |
| ArchiveReaders.MarkedAccepted | packages/cli/src/candidate-ingestion.js:58-105 | a concrete archive of one file, flagged as UTF-8 with a marked name, is accepted under the default limits, whatever its data |
| ArchiveReaders.ReadDifferently | packages/cli/src/workstation.js:151-183 | the preflight calls the file of that archive `a`, the other reader gives it back under the name with the mark |
| ArchiveReaders.WrittenReadAlike | packages/cli/src/workstation.js:151-183 | an accepted archive of `makeZip` is read alike by both readers if and only if no name is that of a directory |
| CandidateExtraction.Extract | packages/cli/src/candidate-ingestion.js:110-114 | the extraction loop performs exactly the directory and file operations of the specification, in order, and stops at the first failure |
| CandidateExtraction.Disk.MakeDirectories | packages/cli/src/candidate-ingestion.js:110-113 | creating directories recursively fails exactly when a file stands where one of them is needed; otherwise everything that was there stays, each of them is there and nothing else is new |
| CandidateExtraction.ListCompatible | packages/cli/src/candidate-ingestion.js:102-103 | the path checks imply that entries never clash on a file system that folds case no more than the check does |
| CandidateExtraction.ExtractsOne | packages/cli/src/candidate-ingestion.js:110-114 | adding one entry to a listed tree never conflicts and gives the tree with that entry |
| CandidateExtraction.ExtractionIsExact | packages/cli/src/candidate-ingestion.js:106-114 | after an accepted preflight, on every file system and in any order of the entries, extraction leaves exactly the listed tree if and only if the contents are good and no entries clash on that file system; where none clash, it fails only for a wrong content |
| CandidateExtraction.CaseFoldingIsHarmless | packages/cli/src/candidate-ingestion.js:102-114 | on a file system that folds no more than the lower-case function does, extraction fails only for a wrong content and otherwise leaves exactly the listed tree |
| CandidateExtraction.ExtractedFilesAreSound | packages/cli/src/candidate-ingestion.js:110-113 | where no entries clash on the file system, the extraction succeeds if and only if the stored or inflated data of every listed file has the listed size and checksum; then each file is there with that content |
| CandidateExtraction.StaysUnderRoot | packages/cli/src/candidate-ingestion.js:26-31 | every accepted path resolves to a place strictly below the root |
| CandidateExtraction.DotsClimb | packages/cli/src/candidate-ingestion.js:26-31 | parts `..` in front climb one level each, empty parts and `.` stay: the paths that are refused could leave the root |
| EffectSteps.StepKeeps | packages/cli/src/effect-state.js:13-58 | every atomic step, a crash included, keeps the invariant about leases, files, evidence and jobs of every effect |
| EffectSteps.NoLostEffect | packages/cli/src/stdio-effect-boundary.js:53-102 | in every reachable world, crashes included, a dispatched request has a consumed lease of its own and a file, and is absent from the unresolved effects only when a confirmed success or failure was recorded and persisted for it |
| EffectSteps.FilesHaveEvidence | packages/cli/src/stdio-effect-boundary.js:98-99 | in every reachable world a resolved file holds a confirmed success or failure and a pending file one of the other three verdicts, and its verdict and binding events are in the log |
| EffectSteps.RecoveryFinishes | packages/cli/src/effect-state.js:43-59 | a dispatched effect left in flight by a crash can be recovered into the bucket of any verdict |
| EffectSteps.RecoverableIff | packages/cli/src/effect-state.js:20-48 | an effect in flight can be recovered if and only if the log holds a consumption of its lease or a verdict bound to it; one with a bucket file can always be verified again |
| EffectSteps.LogGrows | packages/cli/src/stdio-effect-boundary.js:98-99 | a run only appends to the evidence log |
| EffectBoundary.EffectStore.PersistEffectState | packages/cli/src/effect-state.js:35 | for every way the write, the rename and the clearing may go: it returns exactly when the write does, with a confirmed result under resolved and any other verdict under pending, the other bucket and the journal cleared as far as they could be; when the write throws, the files are as they were or, after its rename, with that verdict in its bucket and nothing else changed; every point is a reachable world |
| EffectBoundary.EffectStore.RecoverOne | packages/cli/src/effect-state.js:46-57 | recovering an effect gives its verdict, filed, exactly when the evidence log holds an anchor and neither the judgement nor the write throws; without an anchor it changes nothing, and a failure leaves what the write left; it sends nothing again and touches no other effect |
| EffectBoundary.EffectStore.ReverifyEffect | packages/cli/src/effect-state.js:41 | re-verifying gives its verdict, filed, exactly when there is a bucket file that the log binds and nothing throws; otherwise it changes nothing or leaves what the write left; it sends nothing again |
| EffectBoundary.RecoverInflightEffects | packages/cli/src/effect-state.js:43-59 | every file is recovered exactly as its own anchor and its own judgement and write allow, one failure stopping no other, and nothing else is touched |
| EffectBoundary.StdioMcpEffectBoundary.BeforeForward | packages/cli/src/stdio-effect-boundary.js:53-70 | each refusal, for a missing identifier, one in use, an invalid lease or a consumed one, happens under exactly its condition and changes nothing; otherwise the request goes out exactly when consuming, journal and evidence all succeed, and leases, journal, log and pending requests are as far as these went |
| EffectBoundary.StdioMcpEffectBoundary.ObserveJson | packages/cli/src/stdio-effect-boundary.js:72-80 | it returns exactly when finalising each pending request among the answered ones succeeds, and then exactly these are finalised; each finalised request is filed as its finalisation went and no other effect is touched |
| EffectBoundary.StdioMcpEffectBoundary.FinalizeUnresolved | packages/cli/src/stdio-effect-boundary.js:82-84 | it returns exactly when finalising every pending request succeeds, and then none stays pending; each finalised request is filed as its finalisation went, and nothing is sent again |
| EffectBoundary.StdioMcpEffectBoundary.Finalize | packages/cli/src/stdio-effect-boundary.js:86-102 | finalising removes the request and gives its verdict, filed, exactly when its two events and its write succeed; otherwise the files are as they were or as the write left them; no other effect is touched |
| ApprovalClaims.DecidedOnce | packages/cli/src/cli.js:1182-1239 | over every interleaving of any number of processes with errors and crashes, the record is in exactly one of the queue and one claim or has been decided, at most one decision is logged, and a decided record agrees with it |
| ApprovalClaims.FailureRequeues | packages/cli/src/cli.js:1199-1216 | a process that fails while reading, checking the policy or building puts the record back into the queue |
| ApprovalClaims.DecisionStays | packages/cli/src/cli.js:1236-1238 | once decided, no step of any process changes the decision or the log, or queues the record again |
| ApprovalClaims.StrandedForever | packages/cli/src/cli.js:1190-1194 | a record claimed by a process that is gone stays undecided in every continuation |
| ApprovalClaims.CanEndIff | packages/cli/src/cli.js:1182-1239 | a reachable record can still be decided, by the processes there are or by new ones, if and only if it is not stranded |
| ApprovalClaims.CrashStrands | packages/cli/src/cli.js:1190-1194 | a crash right after the claim is a reachable way to strand a record |
| ApprovalClaims.DecidePendingApproval | packages/cli/src/cli.js:1182-1239 | for any operations of other processes between any two of its own and any of its own failing: an unknown decision is refused, and otherwise it ends as not found, taken, requeued, decided or with its claim left exactly as the record is queued at the look and at the claim and its own operations succeed; decided means this decision is the one logged and decided, requeued that the record is queued with nothing logged, and a claim left behind tells how far log and decision came |
| SemanticImpact.TransitiveDependents | packages/cli/src/semantic-impact.js:89-110 | the rows are precisely the nodes to which dependency edges lead back from the affected ones, each once, nearest first, at the least number of edges and with an edge to a node one nearer |
| SemanticImpact.ReverseIndex | packages/cli/src/semantic-impact.js:91-95 | the index lists exactly the dependency edges into each node |
| BreadthFirst.Exact | packages/cli/src/semantic-impact.js:97-108 | when the queue has run empty the recorded depths are the distances and nothing within the limit was missed |
| BreadthFirst.Discover | packages/cli/src/semantic-impact.js:99-106 | appending a new neighbour keeps the queue ordered by depth and every recorded depth reachable |
| GraphTrace.TraceUnderstanding | packages/cli/src/brownfield-understanding.js:426-440 | precisely the nodes that edges of the chosen direction lead to within the depth, which is 3 unless given and between 0 and 12, and precisely the edges at nodes above that depth, with both ends among the nodes |
| GraphTrace.Walk | packages/cli/src/brownfield-understanding.js:429-437 | the loop ends with exact depths for all visited nodes and all edges followed from them |
| ContextWindow.BestStart | packages/cli/src/context-compiler.js:50 | the running counts pick the leftmost start whose window covers the most distinct query tokens |
| ContextWindow.Slide | packages/cli/src/context-compiler.js:50 | removing the line that leaves and adding the line that enters gives the counts of the new window |
| ContextWindow.ScoreIsCoverage | packages/cli/src/context-compiler.js:50 | the number of positive counts is the number of distinct tokens in the window, counted from scratch |
| ContextWindow.BestWindow | packages/cli/src/context-compiler.js:50-51 | the ranges are ordered, disjoint, within the file and of at most the allowed number of lines: the head, and the best window after it |
| ContextBudget.TrimToBudget | packages/cli/src/context-compiler.js:55 | totals are exact and within both budgets, no slice is kept twice, and every required path has a place exactly when all required anchors fit together; anchors come first in group order, then whole slices in the order of groups and ranks; unless the places for files are used up, every slice is kept or too large for the bytes left, and if they are, this holds for all slices before the stop but those after the slice that took the last place |
| ContextBudget.KeepAnchors | packages/cli/src/context-compiler.js:55 | the first phase keeps the smallest anchor of each required path for which there is room, and misses one only when there is none |
| ContextBudget.RoomMeansThere | packages/cli/src/context-compiler.js:55 | a required path with a slice that still fits in the second phase already has its place |
| ContextBudget.KeepExact | packages/cli/src/context-compiler.js:55 | keeping one more slice keeps all running totals exact |
| ApplyPrepared.Apply | packages/cli/src/intent-change.js:46 | either every row is done, or the files are those of the rollback from the first failing row |
| ApplyPrepared.RestoresIff | packages/cli/src/intent-change.js:46 | the rollback restores exactly the starting files if and only if no touched original is over the size limit or has permission bits beyond nine, and the failing write did not itself replace a file no earlier row names |
| ApplyPrepared.OthersUnchanged | packages/cli/src/intent-change.js:46 | paths no row names never change, applied or rolled back |
| ApplyPrepared.ForwardAt | packages/cli/src/intent-change.js:46 | after any number of rows a path holds what the last row naming it says, under the nine permission bits it started with, or 0644 |
| ApplyPrepared.WorkIff | packages/cli/src/intent-change.js:46 | rows work if and only if no fault hits them, no content is over 2097152 bytes, and each deleted path was last written by an earlier row or, if no row names it, existed |
| ApplyPrepared.RolledBackAt | packages/cli/src/intent-change.js:46 | what the rollback leaves at every path: nothing, the original under nine permission bits, the file of the write that failed late, or what was there |
| ApplyPrepared.UndoAt | packages/cli/src/intent-change.js:46 | the reverse rollback leaves each touched path as captured before the first write, also when rows share a path, unless the original is over the limit |
| ApplyPrepared.OversizeOriginalIsLost | packages/cli/src/intent-change.js:46 | two existing files to delete: when the second deletion fails, the first file, which is over the limit, is gone |
| ApplyPrepared.SpecialModeIsLost | packages/cli/src/intent-change.js:46 | a file with a permission bit beyond nine gets its content back and loses the bit |
| ApplyPrepared.LateWriteStays | packages/cli/src/io/durable-file.js:7 | a write that fails after its rename leaves the new content in place |
| ApplyPrepared.Disk.AtomicWrite | packages/cli/src/io/durable-file.js:7 | a write replaces the whole file, does nothing, or replaces it and then fails; a content over the limit does nothing |
| EvidenceAdjudication.EvaluateIntentEvidence | packages/cli/src/intent-evidence-authority.js:44-51 | the loops compute the index, the records and the overall status of the specification |
| EvidenceAdjudication.PassIff | packages/cli/src/intent-evidence-authority.js:36-51 | the overall status is PASS if and only if there is a requirement, each has a type, and each slot has an independent PASS record and no independent FAIL or CONFLICTED one |
| EvidencePass.EvaluatesToPassIff | packages/cli/src/intent-evidence-authority.js:44-52 | with unambiguous keys the overall status is PASS if and only if there is a requirement, each has a required type, and for each of them some independent evidence passes, by observations that are neither expired nor not yet valid, while no independent evidence names a current observation that fails or conflicts |
| EvidencePass.EvaluatesToRefutedIff | packages/cli/src/intent-evidence-authority.js:44-52 | with unambiguous keys the overall status is FAIL or CONFLICTED if and only if some independent evidence of a required type names a current observation that fails or conflicts |
| EvidencePass.RecordMeans | packages/cli/src/intent-evidence-authority.js:35 | a record is independent, passes, or fails or conflicts exactly as the observations that its evidence names in its own bundle say |
| EvidencePass.ReferredAre | packages/cli/src/intent-evidence-authority.js:35 | with unambiguous keys a record aggregates exactly the observations that its evidence names |
| EvidenceAdjudication.CombinePass | packages/cli/src/intent-evidence-authority.js:30-33 | a record passes exactly when all its observations pass, or for any-aggregation when one passes and none contradicts it |
| EvidenceAdjudication.CombineIff | packages/cli/src/intent-evidence-authority.js:30-33 | exactly when a record conflicts, fails, is stale, unknown or not run |
| EvidenceAdjudication.SlotIff | packages/cli/src/intent-evidence-authority.js:37-39 | exactly when a required type conflicts, fails, is stale or unknown: independent records decide, and all records tell why none does |
| EvidenceAdjudication.WorstIff | packages/cli/src/intent-evidence-authority.js:36 | the overall status of several is the first that occurs of CONFLICTED, FAIL, STALE, UNKNOWN, NOT_RUN and PASS, and UNKNOWN for none |
| EvidenceAdjudication.NonIndependentIsPowerless | packages/cli/src/intent-evidence-authority.js:37-39 | adding non-independent records never changes a PASS, FAIL or CONFLICTED slot and never creates one |
| EvidenceAdjudication.FaithfulIff | packages/cli/src/intent-evidence-authority.js:46 | every observation is found under its own key if and only if no two different observations share a key |
| EvidenceAdjudication.OrderIndependent | packages/cli/src/intent-evidence-authority.js:44-51 | with unambiguous keys the overall status does not depend on the order of bundles, observations, evidence or requirements |
| EvidenceAdjudication.AmbiguousKeyFlips | packages/cli/src/intent-evidence-authority.js:46 | two concrete bundles whose keys coincide and whose order decides between PASS and FAIL |
| SemanticDiff.CompareCollection | packages/cli/src/semantic-diff.js:29 | the loop gives one row for each added, removed or changed entity, in the order of the sorted identifiers |
| SemanticDiff.SortedUnique | packages/cli/src/semantic-diff.js:29 | there is only one sorted list of the identifiers, so the rows do not depend on the order of the entries |
| SemanticDiff.DiffPatches | packages/cli/src/semantic-diff.js:28-29 | applying the rows to the base gives the candidate |
| SemanticDiff.DiffMirrors | packages/cli/src/semantic-diff.js:28-29 | swapping the inputs mirrors every row |
| SemanticDiff.DirectionMeansAdmissible | packages/cli/src/semantic-diff.js:48 | for validated budgets, strengthened means the same operator and unit and a properly smaller set of admitted measurements, weakened a properly larger one, if and only if the budgets are comparable: tighter numbers, either way, are for the same metric and for no fewer capabilities, and the same numbers for the same metric are not for some capabilities more or fewer |
| SemanticDiff.AdmitsLessIff | packages/cli/src/semantic-diff.js:48 | one budget admits properly less than another exactly when it bounds the same metric, for at least the same capabilities, at least as tightly, and one of these strictly |
| SemanticDiff.OtherMetricMisleads | packages/cli/src/semantic-diff.js:48 | a bound on one metric replaced by a lower one on another is called strengthened, and admits what was excluded |
| SemanticDiff.FewerCapabilitiesMislead | packages/cli/src/semantic-diff.js:48 | so is a lower bound for one capability in place of a bound for two |
| Learning.LearningSession.Observe | packages/cli/src/learning.js:80-130 | after every observation each group equals the aggregate recomputed from the log |
| Learning.AggregatesMore | packages/cli/src/learning.js:111-129 | updating a group with one observation gives the aggregate of the longer list |
| Learning.AllowOnlyWhenAllAllowed | packages/cli/src/learning.js:57-61 | a group allows exactly when none of its observations was critical, denied or sent for approval, and denies exactly when one was critical or denied |
| Learning.ExactSuggestions | packages/cli/src/learning.js:132-165 | the loop gives one suggestion for each exact key, paired with the resource at the same place of the other list, else the first resource |
| Learning.PairedIff | packages/cli/src/learning.js:138-139 | every exact-action suggestion names the resource of its own key if and only if the keys come in step with the resources: as many first keys as resources bring one each, and later keys belong to the first resource |
| Learning.PairedWrongly | packages/cli/src/learning.js:138-139 | three keys on two resources for which the second key is suggested with the resource of the third |
| Learning.CommonResourcePattern | packages/cli/src/learning.js:45-55 | for two or more resources the pattern is the longest common prefix that ends in a separator followed by two stars, or one star when there is none |

## Left out

- The decoder that `setEncoding` puts on the child's output: it keeps characters together across chunks, so the outbound gate is modelled on text chunks.
- `JSON.parse` on texts that `JSON.stringify` would not print (white space, other escapes, duplicate keys): the reader in JsonText accepts printed texts only.
- WrittenArchive.WrittenIff: does not cover names of 64 KiB and more, whose length wraps in its two-byte field.
- EntryArchives.AcceptedIff: does not cover 65535 entries and more, numbers too large for their fields, extra areas and comments of entries, or stored data that is not where the directory says; CandidateFacts.AcceptedFields and CandidateFacts.ExtrasIff speak of every archive.
- EvidencePass.EvaluatesToPassIff: bundles are as their validator leaves them, evidence naming observations of its own bundle only.
- Names with lone surrogates in the ZIP modules: names there are sequences of Unicode characters.
- A decision that throws in the inbound gate, as `beforeForward` may: nothing more of that input is handled (`packages/cli/src/cli.js:1030`), and the model has no such run; a throwing observer of the outbound gate is modelled.
- What `onMalformed` does in the outbound gate, which the command line never passes.
- Policy evaluation, receipts, approval dialogues and the wording of denials in the inbound gate: one decision function stands for them.
- The shape validators of `packages/protocol/src` other than the cross-entry rules of the registry: shapes are a predicate.
- EvidenceEnvelope.AssessIntegrity: covers the integrity part of the assessment; freshness, revocation, producers and claim callbacks are independent checks on the caller's inputs.
- `scanCandidateTree`, hashing of trees and the choice of the extracted root directory in candidate ingestion.
- The removal of the temporary directory after a failed extraction; CandidateExtraction.Extract says only which failure is reported.
- CandidatePreflight.Preflight: reports the rows it read; the two permission values of extracted files are not modelled.
- Two processes persisting the same effect at once, which the effect boundary does not promise to survive.
- `reconcilePendingEffects` as a loop: it is recovery followed by re-verification of each pending effect, both modelled.
- Session caches and policy suggestions written by an approval: one step that may fail stands for them.
- Confidence figures, capability names and the final display sorts of the impact and trace reports.
- GraphTrace.TraceUnderstanding: edges are listed before they are deduplicated by identifier and sorted for display.
- Lexical scoring, redaction, coverage figures and the rendering of context packages.
- `reviewImplementationProposal` as the gate before ApplyPrepared.Apply: the rows are arbitrary, so the results hold for every review; the failing inputs are ones it lets through.
- Failing rollback writes other than those the size limit makes certain.
- Signature checks of attestations and the independence rules for producers: an observation carries their outcome.
- Learning.PairedIff: does not cover an observed resource that is literally `*`, which the suggestions use for no resource.
- The session summary of the learning module, the identifiers and wording of its suggestions, and the general suggestions beyond their pattern.

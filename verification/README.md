# Verification of the Stellar transaction manager and its neighbours

Dafny 4.11 models, with proofs, of the parts of chainlink-stellar whose
correctness spans many calls. `dafny verify dfyconfig.toml` checks the whole
project.

| module (file) | models |
|---|---|
| `Allocator` (allocator.dfy) | the per-account sequence allocator as a state machine, and theorems about whole runs of it |
| `TxStore` (txstore.dfy) | the `TxStore` and `AccountStore` objects; every method is proved to take one step of `Allocator`, and a ghost trace ties an object to its run |
| `Submit`, `Restore` (submit.dfy, restore.dfy) | handling one submit response on top of the store; the restore retry loop |
| `Fees`, `FeeTracker` (fees.dfy, fee_tracker.dfy) | the inclusion-fee strategy; the stale-while-revalidate fee cache |
| `Xdr`, `Domain`, `ScValConvert`, `ScValLoops`, `ScValRead` | XDR Soroban values, the relayer's own mirror of them, the two translators and their loops, and what a translation tells of its value |
| `Codecs`, `CodecRoundTrip`, `CodecWire` | the generated bindings: each type schema denotes an encoder and a decoder; their round trip, and the form of what they send and accept |
| `Splitters`, `Discriminants` | the binding generator's bracket-aware scanners and its numbering of enum variants |
| `Bytes`, `Eip2098` | big-endian numbers; the in-place rewriting of verifier blobs to EIP-2098 signatures |
| `Poller` (poller.dfy) | the execution-attempt poller: cursor protocol and attempt cache |
| `Pools` (pools.dfy) | choosing the EVM pool and token for transfers to Stellar |
| `Wrappers`, `Sorting` | optional values and results; a stable sort and Go's string order |

Code that updates state in place is modelled by classes, arrays and loops
(`TxStore`, `Eip2098`, `Splitters`, `Poller`, `FeeTracker`, `Restore`,
`ScValLoops`, `Pools`); each method is proved against a specification function
or property, and the theorems are about those.

## Main results

- **Allocator.** On every run of sound steps the next sequence is the least one
  not below the on-chain mark that is neither in flight nor used up
  (`AllocatorRefinement`). A step is sound when a resync goes back only over
  sequences in flight or used up (so any resync that does not go back is), and a
  release names a sequence that is in flight, recycled, or below the mark. This
  discipline is exact: after any sound run, a step keeps every sound continuation
  correct if and only if it is sound (`SoundStepsAreExactlyTheSafeOnes`). With no
  discipline at all, no sequence is lost from the accounts (`Conservation`), and
  whatever any number of workers do with stale peeks, an in-flight entry leaves
  only by its own confirmation or a release of it and is never replaced
  (`InterleavingSafety`).
- **When a used-up sequence can come back.** Not while every release names a
  sequence that was opened and is not used up, or one below the mark; and that is
  exact (`HarmlessStepsAreExactlyTheKeepingOnes`). Releasing a used-up sequence
  recycles it at once. Releasing an unopened one revives it later: it is handed
  out as a recycled sequence, used up, and then handed out again as the next one
  to open.
- **A wedge, exactly located.** Adding what was just peeked fails exactly when
  the next sequence to open is itself in flight; that is reachable exactly by
  releasing a sequence that was never opened. The comment on `Release`
  (relayer/txm/txstore.go:146-150) asks the broadcaster to do this after a failed
  broadcast, and relayer/txm/txm.go:444 and 715-780 do so.
  `ReleasingAFreshPeekLosesTheNextTransaction` follows the consequence: the next
  transaction is accepted, the following add fails, and releasing that one drops
  the accepted transaction from the in-flight set unconfirmed.
- **EIP-2098.** The conversion is proved on the blob's text by concatenation. For every blob built from valid signatures, each rewritten S word
  is the standard's compact word and decodes to the original pair; every other
  byte is unchanged. For an arbitrary word the rewriting can be undone exactly
  when the word is at most the group order.
- **Translators and codecs.** XDR to domain is total on decoded values, and coming
  back succeeds exactly on contract arguments, giving the value with nil vectors
  and maps filled in; and every value, sendable or not, can be read off its
  translation. For every schema in the common fragment of encoder and
  decoder, encoding succeeds exactly when each union has one variant set, and
  decoding gives the value back exactly when its addresses are strkeys. What is
  encoded has Soroban's form for the type, said by the arms of the XDR value.
- **Splitters, fees, poller, pools, restore**: see the table.

Where code and documentation disagree the model follows the code:

- `GetNextSequence` only peeks, so there is no allocated-but-never-broadcast
  sequence for `Release` to return (above).
- `InclusionFee` does not cap attempt 0; `CapHoldsIffBaseBelowMax` says when the
  cap holds anyway.
- `I128FromScVal` drops the high word; `I128FromPartsIsExactIffItFits` says when
  that is harmless.
- `convertAddressToDomain` and `convertScValsToDomain` convert from the domain to
  XDR, whatever their names say.
- A union's `ToScVal` is said to return an error for a wrong number of variants
  set; inside another value it panics instead (`EncoderOutcomes`).
- Enum constants are said to match the wire values; after a variant the patterns
  miss, such as `A = 0x10`, a bare one is numbered too low
  (`LegalDiscriminantsAreRustsIff`).
- The spacing of fee fetches holds for any clock, as the interval test and the
  fetch time use the same reading.

## Model

| member | source | states |
|---|---|---|
| Allocator.Peek | relayer/txm/txstore.go:80-90 | the peeked sequence is the smallest of the next one to open and the recycled ones |
| Allocator.Conservation | relayer/txm/txstore.go:32-159 | every run with no caller discipline: each sequence handed out is in flight, recycled, used up or below the highest mark; in-flight and recycled are disjoint; recycled ones and the next sequence are not below the mark |
| Allocator.MarkIsHighest | relayer/txm/txstore.go:48-69 | the history's mark is the largest of the starting sequence and all resync values of the run |
| Allocator.AcceptedAddConfirms | relayer/txm/txstore.go:94-144 | after any run an accepted add puts exactly its entry in flight, fresh or recycled; it can be confirmed under its own hash and no other, which takes back exactly that entry and recycles a failed sequence unless it is below the mark |
| Allocator.RecycledCanBeAddedAgain | relayer/txm/txstore.go:94-144 | the sequence of a failed transaction not below the mark can be added again at once |
| Allocator.AllocatorRefinement | relayer/txm/txstore.go:20-159 | on every run of sound steps the peeked sequence is the least one not below the mark that is neither in flight nor used up: gaps are plugged first |
| Allocator.SoundStepsAreExactlyTheSafeOnes | relayer/txm/txstore.go:48-159 | after any sound run a step keeps all sound continuations correct if and only if it is sound |
| Allocator.PeekThenAddFailsExactlyWhenWedged | relayer/txm/txstore.go:80-122 | after any run whatever, adding the peeked sequence fails if and only if it is the next one to open and that one is in flight |
| Allocator.WedgeComesExactlyFromReleasingUnopened | relayer/txm/txstore.go:94-159 | while only opened sequences are released no wedge is reachable, and one release of an unopened sequence makes it reachable: if and only if |
| Allocator.ReleasingAFreshPeekLosesTheNextTransaction | relayer/txm/txstore.go:146-159 | the documented release of a peeked sequence: the next transaction is accepted, then cannot be followed, then is dropped unconfirmed by the next release |
| Allocator.HarmlessStepsAreExactlyTheKeepingOnes | relayer/txm/txstore.go:48-159 | after any run of harmless steps no used-up sequence is in flight or recycled, and a further step keeps it so on all harmless continuations if and only if it is harmless; a release is harmless if it names an opened sequence that is not used up or lies below the mark, all other steps are |
| Allocator.InterleavingSafety | relayer/txm/txstore.go:48-159 | any interleaving of workers adding and releasing stale peeks, confirms and resyncs: an in-flight entry leaves only by its own confirmation or a release of it and is never replaced; a stale add is never refused as too early and a stale release names nothing above the next sequence; with harmless releases used-up sequences stay used up |
| TxStore.TxStore.constructor | relayer/txm/txstore.go:32-39 | a new store is the allocator's starting state with an empty history |
| TxStore.TxStore.ResyncNonce | relayer/txm/txstore.go:48-69 | the two loops drop exactly the recycled sequences below the new mark, raise the next sequence to it and never lower it, and set the mark |
| TxStore.TxStore.GetNextSequence | relayer/txm/txstore.go:80-90 | the loop returns the least candidate whatever the map's order, and changes nothing |
| TxStore.TxStore.AddUnconfirmed | relayer/txm/txstore.go:94-122 | accepted exactly for a recycled or the next sequence that is not in flight, and then all four fields: the given record in flight on top of the others, the recycled set without it, the next sequence moved only for a fresh one; otherwise the reason that applies and no change |
| TxStore.TxStore.Confirm | relayer/txm/txstore.go:127-144 | accepted exactly for an in-flight sequence under its own hash, and then all four fields; a failed transaction is recycled only if not below the mark; otherwise the reason that applies and no change |
| TxStore.TxStore.Release | relayer/txm/txstore.go:151-159 | drops the sequence from flight and recycles it unless it is below the mark, whether or not it was ever opened |
| TxStore.TxStore.GetUnconfirmed | relayer/txm/txstore.go:162-183 | each in-flight transaction once, strictly ascending by sequence, whatever the map's order |
| TxStore.SnapshotIsUnique | relayer/txm/txstore.go:162-183 | there is only one such list, so the snapshot is determined by the store |
| TxStore.SnapshotLength | relayer/txm/txstore.go:162-189 | the in-flight count is the length of every snapshot of the store |
| TxStore.AccountStore.constructor | relayer/txm/txstore.go:197-201 | starts with no accounts |
| TxStore.AccountStore.CreateTxStore | relayer/txm/txstore.go:205-215 | fails exactly for a known account, changing nothing; otherwise adds a fresh store that no other account shares |
| TxStore.AccountStore.GetTxStore | relayer/txm/txstore.go:217-225 | the account's store, which is consistent with its own history and shared with no other account, or none |
| Eip2098.ConvertedWordReads | ccv/contract_transmitter/contract_transmitter.go:123-136 | what the standard's decoder reads from a rewritten word, for every 32-byte word: parity 1 and the distance to the group order above half of it, parity 0 and the word otherwise |
| Eip2098.WordInversion | ccv/contract_transmitter/contract_transmitter.go:25-28 | rewriting inverts the aggregator's normalisation for both parities and every valid s |
| Eip2098.WordRoundTripIff | ccv/contract_transmitter/contract_transmitter.go:123-136 | normalising a rewritten word's reading gives the word back if and only if it is at most the group order |
| Eip2098.BlobInversion | ccv/contract_transmitter/contract_transmitter.go:95-140 | for every full blob of normalised signatures each output word is the compact word of its pair and decodes to it; length, header, R words and trailing bytes are unchanged |
| Eip2098.TextInversion | ccv/contract_transmitter/contract_transmitter.go:95-140 | the inversion on the blob's own text, by concatenation: tag, two length bytes, R words each followed by a normalised S word, and any rest go in; the same text with each S word replaced by the compact one comes out |
| Eip2098.OtherBlobs | ccv/contract_transmitter/contract_transmitter.go:106-116 | blobs that are too short, have an empty or a cut-off payload come back as they are, and an uneven payload length is the error |
| Eip2098.OrderIsBelowPowerOfTwo | ccv/contract_transmitter/contract_transmitter.go:25-28 | the group order is 2^256 less the 129-bit number of the curve, and the half order is its floor |
| Eip2098.RewrittenSWord | ccv/contract_transmitter/contract_transmitter.go:122-137 | rewriting the words one after another in the shared buffer gives each the image of its own original |
| Eip2098.UntouchedBytes | ccv/contract_transmitter/contract_transmitter.go:118-137 | a byte outside all rewritten words keeps its value |
| Eip2098.StorePadded | ccv/contract_transmitter/contract_transmitter.go:131-133 | clearing and copying at the end leaves the 32-byte spelling of the number, however short its digits |
| Eip2098.RewriteSWord | ccv/contract_transmitter/contract_transmitter.go:122-136 | one loop round replaces exactly the word of its signature by the converted word |
| Eip2098.ConvertVerifierBlob | ccv/contract_transmitter/contract_transmitter.go:102-140 | the buffer's new text is the conversion the text theorems are about; an error exactly for a full payload not a multiple of 64; short blobs are returned as they are; otherwise a fresh buffer holds the converted blob |
| ScValConvert.XdrRoundTrip | relayer/type_converters.go:15-553 | XDR to domain succeeds on every decoded value; coming back succeeds exactly if every node may be a contract argument, and then gives the value with nil vectors and maps made empty |
| ScValConvert.DomainRoundTrip | relayer/type_converters.go:15-553 | a domain value the converter accepts becomes a well-formed XDR value and comes back with only its declared fields, at every level |
| ScValRead.TranslationTellsTheValue | relayer/type_converters.go:308-689 | every decoded value of all kinds, the unsendable ones included (errors, muxed, balance and pool addresses, instances with storage, nonce keys), can be read off its translation whole, with nil vectors, maps and storage made empty; the translation sets its declared field alone |
| ScValRead.TranslatesExactlyTheReadable | relayer/type_converters.go:308-689 | the translation from XDR succeeds if and only if everywhere the declared arm is set and of a known kind, whatever other arms hold |
| ScValRead.FillingKeepsFilled | relayer/type_converters.go:439-475 | making nil empty changes nothing in a value without nil |
| ScValConvert.AcceptsExactlyTheSendable | relayer/type_converters.go:15-180 | the converter accepts a domain value if and only if everywhere in it the type is an argument type, the declared field is set, addresses are 32-byte account or contract ids, and no pointer is nil |
| ScValLoops.ConvertFromDomain | relayer/type_converters.go:15-180 | the recursive procedure with its vector and map loops computes the function the round trips are about; the arms without loops are one pure function shared with it |
| ScValLoops.ConvertItemsFromDomain | relayer/type_converters.go:125-142 | a vector converts element by element and fails at the first nil or inconvertible one |
| ScValLoops.ConvertEntriesFromDomain | relayer/type_converters.go:144-165 | a map converts entry by entry, order kept, and fails at the first nil or inconvertible key or value |
| ScValLoops.ConvertArguments | relayer/type_converters.go:691-701 | succeeds if and only if every argument converts, and then holds each conversion in place |
| ScValLoops.ConvertToDomain | relayer/type_converters.go:308-509 | the recursive procedure with its vector, map and instance arms computes the function the round trips are about; the other arms are one pure function shared with it |
| ScValLoops.ConvertItemsToDomain | relayer/type_converters.go:439-455 | the vector loop computes the recursive specification |
| ScValLoops.ConvertEntriesToDomain | relayer/type_converters.go:511-528 | the map loop computes the recursive specification |
| ScValConvert.ItemsComeBack | relayer/type_converters.go:439-455 | the round trip for vectors of values: all read, all or none accepted back, order kept |
| ScValConvert.MapEntriesComeBack | relayer/type_converters.go:511-528 | the round trip for map entries, keys and values alike, order kept |
| ScValConvert.DomainRoundTripVec | relayer/type_converters.go:125-142 | an accepted list of domain values becomes well-formed XDR values and comes back with its declared fields only |
| ScValConvert.AddressComesBack | relayer/type_converters.go:530-553 | account and contract addresses survive the round trip; muxed, claimable-balance and pool addresses are read but refused on the way back |
| ScValConvert.ErrorComesBack | relayer/type_converters.go:640-689 | every well-formed contract error is readable, and no error value is accepted as an argument |
| CodecRoundTrip.CodecLaw | bindings/generator/codegen.go:102-719 | for every supported schema and every Go value: encoding succeeds exactly when each union has one variant set, and decoding then returns the value exactly when its addresses are strkeys |
| CodecWire.EncodingIsTheWireForm | bindings/generator/codegen.go:102-719 | for every supported schema what the encoder produces carries the value in Soroban's form for the type: the scalar's own arm, a vector item by item, a struct as symbol-keyed entries in ascending order of the names, a union as its variant's name and payload |
| CodecWire.ScalarsDecodeExactly | bindings/scval/scval.go:259-390 | a scalar decodes to a value if and only if the XDR value carries it in that form, whoever encoded it |
| CodecWire.I128DecodesExactly | bindings/scval/scval.go:350-358 | an i128 decodes from every i128, to the 64-bit number congruent to its low word |
| CodecWire.VecsDecodeExactly | bindings/generator/codegen.go:216-225 | a vector decodes exactly if each item does, to what they decode to, in order |
| CodecWire.UnionsDecodeOnlyFromVariants | bindings/generator/codegen.go:469-515 | a union decodes only from the name of one of its variants with as many items as its payload has |
| CodecWire.ForeignEntriesAreSkipped | bindings/generator/codegen.go:131-142 | entries of none of the fields change nothing, wherever they stand |
| CodecWire.LastEntryWins | bindings/generator/codegen.go:131-142 | a later entry of a field overrides earlier ones |
| CodecRoundTrip.EncoderOutcomes | bindings/generator/codegen.go:429-467 | the encoder returns its error if and only if the value itself is a union without exactly one variant set; such a union anywhere deeper makes it panic instead, and nothing else does |
| CodecRoundTrip.UnionDecodes | bindings/generator/codegen.go:469-515 | a vector headed by a variant's name decodes to that variant alone, with its decoded payload |
| CodecRoundTrip.EntriesInAnyOrder | bindings/generator/codegen.go:123-145 | the field loop gives the same struct for the entries in any order, absent fields keep their initial value, and it fails exactly if some present entry fails |
| CodecRoundTrip.StructEncodingIsOrderFree | bindings/generator/codegen.go:102-121 | a struct encodes to the strictly key-sorted entries of its field map, whatever order the map is walked in |
| CodecRoundTrip.BuildStructScVal | bindings/scval/scval.go:181-206 | the result is a map with exactly one symbol-keyed entry for each field holding its value, in ascending order of the names: a proper prefix first, else by the first difference |
| CodecRoundTrip.SortedKeys | bindings/scval/scval.go:182-186 | collecting and sorting gives each key once whatever the map's order, ascending: a proper prefix first, else by the first difference |
| Sorting.StringLeqIsLexicographic | bindings/scval/scval.go:186 | the string order is the lexicographic one |
| Codecs.I128RoundTrip | bindings/scval/scval.go:43-57 | every 64-bit integer survives encoding and decoding, and the encoding denotes it exactly |
| Codecs.I128FromPartsIsExactIffItFits | bindings/scval/scval.go:350-358 | the truncating reader agrees with the exact value of the source reader if and only if that value fits 64 bits, equivalently the high word is the sign extension of the low one |
| Splitters.SplitTopLevel | bindings/generator/parser.go:270-306 | cuts exactly at separators where all three clamped counters are zero; text after the last cut is a piece only if there is any |
| Splitters.ClampedIsRawAboveLowest | bindings/generator/parser.go:273-294 | a clamped counter equals the raw depth above its lowest point so far |
| Splitters.JoinUndoesSplit | bindings/generator/parser.go:270-306 | joining the pieces with the separator restores the text up to one separator ending it at top level |
| Splitters.SplitReturnType | bindings/generator/client_codegen.go:615-646 | cuts exactly at commas where the single unclamped depth is zero; pieces are trimmed and a blank last one dropped |
| Splitters.TrimDropsBlankEnds | bindings/generator/client_codegen.go:631-643 | a trimmed piece is a slice of the text with everything outside it blank and no blank ends |
| Splitters.SplittersAgreeExactlyWhen | bindings/generator/client_codegen.go:615-646 | the two splitters give the same trimmed pieces, up to a blank last one, if and only if before every comma all three depths are at their lowest exactly when angle and round depth sum to zero |
| Splitters.SplittersAgree | bindings/generator/client_codegen.go:615-646 | so they agree on every text without braces and without stray closes |
| Splitters.SplittersDiffer | bindings/generator/client_codegen.go:622-638 | a stray close before a comma, or a comma right inside a brace, makes their results differ whatever follows, so both halves of that hypothesis are needed |
| Splitters.ExtractBalancedBody | bindings/generator/parser.go:163-177 | succeeds if and only if some position closes the brace, and returns the text up to the first such position |
| Splitters.ExtractedBodyIsBalanced | bindings/generator/parser.go:160-177 | that text is brace-balanced and is followed by a closing brace |
| Splitters.ExtractionRoundTrip | bindings/generator/parser.go:160-177 | for every balanced text and any continuation, wrapping in braces and extracting gives exactly the text |
| Discriminants.AssignDiscriminants | bindings/generator/parser.go:199-265 | the loop numbers the recognised pieces as specified: explicit values reset the counter, payload variants and missed text leave it alone |
| Discriminants.EveryRecognisedPieceAppears | bindings/generator/parser.go:202-264 | every recognised piece yields its variant, in order: a unit exactly if it has no payload, with its own discriminant if it gives one |
| Discriminants.CounterCountsBareOnes | bindings/generator/parser.go:199-262 | a bare variant's number counts on from the last given discriminant, or from zero, over the bare variants alone |
| Discriminants.DiscriminantsAreRustsIff | bindings/generator/parser.go:191-199 | in a unit-only enum the recognised variants carry Rust's discriminants if and only if each bare variant right behind one the patterns missed finds the counter where Rust has it |
| Discriminants.LegalDiscriminantsAreRustsIff | bindings/generator/parser.go:191-199 | for enums with distinct non-negative discriminants that means exactly that no bare variant stands right behind a missed one |
| Discriminants.ConstantsAscendIff | bindings/generator/parser.go:191-199 | with every variant recognised the constants strictly ascend, so none collide on the wire, if and only if each explicit discriminant is above the one before it |
| Fees.BumpsDominateGeometricGrowth | relayer/txm/fee.go:45-88 | any number of bumps from the base fee, with any percentiles, gives at least the closed-form fee of that attempt and at most the maximum |
| Fees.CapIsReached | relayer/txm/fee.go:79-88 | with a multiplier above one a positive fee gains at least one stroop a bump until the maximum, reaches it in that many bumps and stays |
| Fees.BumpGains | relayer/txm/fee.go:79-88 | one bump of a positive fee is strictly higher or at the maximum |
| Fees.BumpIsLeastSufficient | relayer/txm/fee.go:79-88 | a bump is the least bid that pays for the multiplied fee and for the percentile, or the maximum, flagged as clamped, exactly when no such bid is within it |
| Fees.TotalFeeMovesByTheBid | relayer/txm/fee.go:29-36 | the total fee is the clamped geometric bid above a fixed part; it moves between attempts by the bid alone, never falls, and lies between the fixed part and the cap above it |
| Fees.InclusionFeeGrows | relayer/txm/fee.go:45-57 | the closed-form fee is never negative and never falls with the attempts |
| Fees.CapHoldsIffBaseBelowMax | relayer/txm/fee.go:45-57 | the cap holds at every attempt if and only if the base fee respects it |
| Fees.SeedIsBounded | relayer/txm/fee.go:59-73 | a seed is within the cap, says so exactly when it was clamped, is otherwise the larger of baseline and percentile, and a percentile that wraps negative is ignored |
| FeeTracker.FeeTracker.constructor | relayer/txm/fee_tracker.go:29-31 | starts with no data |
| FeeTracker.FeeTracker.SorobanInclusionPercentiles | relayer/txm/fee_tracker.go:36-58 | answers with the last successful fetch, fails exactly when there has never been one, fetches exactly when due, and successive fetches are at least the interval apart |
| Poller.StartLedgerCoversTheWindow | ccv/destination_reader/execution_attempt_poller.go:143-163 | for every non-negative window the start is exactly the window before the latest ledger, or the floor when that would be lower |
| Poller.WindowsTile | ccv/destination_reader/execution_attempt_poller.go:165-266 | through any run of answers and failures the successful windows lie end to end from the start to the cursor, which never goes back |
| Poller.TilesCoverOnce | ccv/destination_reader/execution_attempt_poller.go:199-255 | such windows cover each ledger below the cursor, and no ledger twice |
| Poller.EachEventOnce | ccv/destination_reader/execution_attempt_poller.go:199-266 | with complete answers the events processed are those of the covered ledgers, each once and in order |
| Poller.EachEventHasOneLook | ccv/destination_reader/execution_attempt_poller.go:199-266 | what one poll saw of an event is final: later polls see exactly the events of later ledgers, so an attempt that could not be fetched then is lost |
| Poller.CacheIsCompleteIff | ccv/destination_reader/execution_attempt_poller.go:234-305 | under each message id the cache holds as many attempts as the covered ledgers announce if and only if every one of those events was decoded at its one look to an attempt of that id, and otherwise fewer |
| Poller.CacheHoldsExactlyItsAttempts | ccv/destination_reader/execution_attempt_poller.go:292-305 | the cache holds under each message id exactly the attempts its events yielded, in order, all carrying that id |
| Poller.OneMoreSeen | ccv/destination_reader/execution_attempt_poller.go:287-305 | one more event adds its attempt behind the others of its message if it was decoded and the ids agree, and changes nothing else |
| Poller.ExecutionAttemptPoller.constructor | ccv/destination_reader/execution_attempt_poller.go:65-74 | starts at ledger zero with an empty cache |
| Poller.ExecutionAttemptPoller.Start | ccv/destination_reader/execution_attempt_poller.go:87-111 | fails only when the latest ledger is unknown; a failed backfill leaves the cursor at the start ledger |
| Poller.ExecutionAttemptPoller.PollForEvents | ccv/destination_reader/execution_attempt_poller.go:199-266 | one step of the cursor protocol: a failure changes nothing, a success processes all events and moves the cursor to the window's end |
| Poller.ExecutionAttemptPoller.ProcessExecutionStateChanged | ccv/destination_reader/execution_attempt_poller.go:270-313 | a decoded attempt of the event's message goes behind that message's others, whatever else it holds; undecoded or of another message, nothing changes |
| Poller.ExecutionAttemptPoller.GetExecutionAttempts | ccv/destination_reader/execution_attempt_poller.go:125-139 | the attempts cached for the message, or none |
| Pools.CompareFlips | ccv/chain/evm_stellar_token_transfer.go:50-77 | swapping the arguments negates the comparison, and it is zero exactly if version string, qualifier and address agree |
| Pools.ComparesInOrder | ccv/chain/evm_stellar_token_transfer.go:50-77 | before comes the preferred kind, then the lower version string, qualifier and address, in that order |
| Pools.CompareIsTotalPreorder | ccv/chain/evm_stellar_token_transfer.go:50-95 | the comparison is total and transitive, so sorting by it is meaningful |
| Pools.ContainsExactly | ccv/chain/evm_stellar_token_transfer.go:79-89 | the search in qualifiers finds a name wherever it begins |
| Pools.FindTokenForPool | ccv/chain/evm_stellar_token_transfer.go:97-106 | finds a token exactly if one of the listed types matches, and then one of the first such type |
| Pools.ResolveTokenPool | ccv/chain/evm_stellar_token_transfer.go:30-48 | finds a pair exactly if some BurnMint pool of the chain has a token of a listed type with its qualifier there, and then such a pair whose pool no other such pool comes before |
| Pools.PreferredPoolIsChosen | ccv/chain/evm_stellar_token_transfer.go:26-89 | a BurnMint pool paired with a lock-release pool is chosen whenever one has a token, and else a test pool whenever one has |
| Pools.ChoiceIgnoresOrder | ccv/chain/evm_stellar_token_transfer.go:30-106 | permuting the refs changes neither the chosen pool's key nor the token's type and qualifier |
| Pools.FoundIgnoresOrder | ccv/chain/evm_stellar_token_transfer.go:30-106 | permuting the refs does not change whether a pair is found |
| Submit.HandleSendResult | relayer/txm/broadcast.go:202-255 | the verdict for every response and nil argument; the store changes only when accepted, then by exactly the entry of this sequence, hash and record; the record changes only when accepted |
| Submit.VerdictsAreCoherent | relayer/txm/broadcast.go:202-281 | never both accepted and fatal; a reason exactly when not accepted, and which one for each cause; accepted exactly when taken under a hash and the store can add the sequence; retryable exactly when the network is busy or names one of three codes |
| Submit.OneEntryPerSequence | relayer/txm/broadcast.go:202-255 | over any responses for one sequence the store stays as it is if it cannot add the sequence or none was taken under a hash; else the first that was adds its entry and later ones change nothing |
| Submit.HandedOutGoesOutAsItself | relayer/txm/broadcast.go:20-25 | on every run whose on-chain mark is positive, the sequence the store hands out is the one the transaction carries on the wire |
| Submit.ReportedFeeIsExactIff | relayer/txm/broadcast.go:101-166 | where the simulation's data is attached the reported total is the envelope's fee if and only if there is one operation or the bid is zero; for one operation, if and only if it is attached or the operation already carries just the reported resource fee |
| Restore.HandleRestore | relayer/txm/restore.go:14-132 | at most the allowed sends, all of one signed envelope, one a round; nil exactly after a confirmed round and a successful resync, so never without a pending or duplicate answer polled to success; exactly one verdict recorded once initiated unless cancelled |
| Restore.StepsByAnswer | relayer/txm/restore.go:69-125 | which answers confirm, reject or ask for another round, each as an if-and-only-if |
| Restore.OneEnd | relayer/txm/restore.go:69-125 | at most one round of a script ends the restore |

## Left out

- Allocator.AllocatorRefinement: sequences are unbounded integers; the wrap-around of the 64-bit `nextSequence` after 2^63-1 is not modelled.
- TxStore.TxStore.AddUnconfirmed: the transaction pointer is an identity string, so sharing of the record between the store and its caller is not modelled; nor are error texts, and the lock makes each method one atomic step.
- TxStore.TxStore.GetUnconfirmed: entries are values, so that the source returns copies of the entries is not modelled.
- Fees.BumpsDominateGeometricGrowth: the multiplier is an exact real and products are assumed to fit 64 bits; float rounding and the conversion of huge floats are not modelled. This holds for the other fee lemmas too.
- FeeTracker.FeeTracker.SorobanInclusionPercentiles: the clock reading and the RPC answer are parameters; clock differences do not saturate.
- CodecRoundTrip.CodecLaw: named types are unfolded into finite trees, so recursive schemas are not covered; schemas outside the common fragment of encoder and decoder (for instance vectors of strings, optional structs) are not covered; clashes of generated Go field names are not modelled; a getter's panic on a value whose declared arm is nil is a failed decoding; 128-bit unsigned values are their two words.
- ScValConvert.XdrRoundTrip: error texts are dropped; a nil Go slice and an empty one are the same; strkey text is represented by the 32 bytes it encodes, encoding and decoding being taken as inverse.
- Splitters.SplitTopLevel: a text is a sequence of code points; invalid UTF-8, which Go rewrites when ranging over a string, is not modelled.
- Splitters.ExtractBalancedBody: Go indexes bytes and the model characters; the braces are single bytes, so only the position numbers differ.
- Discriminants.AssignDiscriminants: which text the regular expressions recognise as which piece is an input, as is the discriminant Rust gives a piece they miss, and explicit discriminants are assumed to fit a Go int.
- Poller.EachEventOnce: that the RPC returns all events of a half-open window, in order and on one page, is a hypothesis.
- Poller.CacheHoldsExactlyItsAttempts: expiry of cached attempts is not modelled, nor is the decoding of a transaction into an attempt, whose result is an input.
- Pools.ResolveTokenPool: the library's stable sort is an insertion sort here, a semantic version is its canonical string, and strings are compared by character rather than by byte.
- Submit.HandleSendResult: the decoding of the error result is an input; logging, metrics and locks are dropped.
- Submit.ReportedFeeIsExactIff: the envelope fee is what the comments at relayer/txm/broadcast.go:101-105 and 146 say txnbuild computes; the library is not part of this model.
- Restore.HandleRestore: building, signing and encoding are an optional envelope, and the answers, pauses and the outcome of the resync are a script.
- `StellarTxm`'s broadcast and confirm loops and `resyncSequence` are arbitrary callers of the store.
- `GetLastResyncedNonce`, `GetTotalInflightCount` and `GetAllUnconfirmed` only read or sum what is modelled.
- Simulation hint lists, configuration defaults and address-store helpers would only add easy members.
- Regular expressions and the emitted Go text of the generator are not modelled; the codecs' meaning is.
- Cryptography and the XDR and base64 libraries are not part of this model.
- `deployment`, `cmd`, the accessors, the rest of `ccv/chain`, the generated clients and the mocks are wiring or thin wrappers.

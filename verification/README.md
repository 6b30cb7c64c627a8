# Whistleblower registry: verified model

This project models the path of a broadcast envelope through the whistleblower repository and proves what that path
promises. An envelope becomes canonical JSON bytes; the bytes are broadcast, pass a durable dedupe store and a two-task
batching loop, are submitted with retries to an on-chain program, and end as one entry per CID that never changes.

| module | models |
|---|---|
| `Basics`, `Text` | bytes, digests, UTF-8 strings, `trim`, `lines` |
| `Registry` | the reference registry of `core/src/lib.rs`: a mutable class proved against functions on maps |
| `Borsh` | the wire format of instructions and entries, and the second reader in `scripts/verify-testnet.sh` |
| `Guest` | the on-chain program, the rule that applies its output, and its refinement of `Registry` |
| `Chain`, `LezClient` | many clients and third parties against one ledger; the polling reader |
| `Json`, `JsonGrammar`, `Envelope` | a JSON writer and a full JSON reader, and the grammar the reader is proved against; the metadata envelope, its bytes and its hash |
| `Base64`, `Hex` | the encoders and hash parsers of `ui/ffi/src/lib.rs` |
| `Dedupe` | the dedupe store with its text file, and restarts |
| `Retry`, `Publisher` | backoff, the retry loop, the publishing side |
| `Batch` | the batch engine as a machine over task steps, with its dedupe ledger and its flushes |
| `Anchoring` | what the engine's flushes leave on the chain, and in a reference registry |
| `Replay`, `Sessions` | the pipeline from a text file to the entries; sessions that share one ledger file |
| `Backend`, `Desk` | the callback slots and safety timers of the desktop plugin; its publish flow across both slots |

Conventions:

- SHA-256 and the PDA derivation are function parameters, so every statement holds for every choice. Injectivity of the
  PDA derivation on 32-byte seeds is a hypothesis (`PdaInjective`). No statement assumes SHA-256 injective on all
  inputs, which no 32-byte hash is; where collisions matter the hypothesis is `CollisionFree` on the finitely many
  inputs of that statement.
- A Rust `String` is its UTF-8 bytes. Shift-and-mask expressions on bytes are written as division and remainder;
  `Base64.ShiftsAndMasks` proves the two forms equal on bit-vectors.
- Machines (`Chain`, `Batch`, `Backend`, `Desk`) are total functions from a state and an event to a state. A run is any
  sequence of events, and an event that cannot happen changes nothing, so statements about all runs cover all
  interleavings.
- The runtime is not in the repository. The model's rule: load the named accounts, run the program once, and, unless it
  panicked, write the post-states in order; a claim takes effect when its seed derives the account and nobody owns it.
  Only this program writes its PDAs.

## What the proofs found

- One new CID twice in a batch. Each entry is judged by its own pre-state, so the chain keeps the last item where the
  reference registry keeps the first. `Guest.GuestRefinesRegistry` gives the exact condition for one transaction,
  `Chain.LedgerFollowsRegistry` for whole runs, and `Guest.EmittedMatchesReturnedExactly` for what the program emits,
  whatever the runtime does with it. `Guest.DuplicateCidDiverges` is the input.
- So batching is not invisible on the chain. `Anchoring.CutsAgreeExactly` and `Anchoring.ChainConfluenceExactly`: all
  batch sizes and interleavings leave the first-write-wins entries if and only if no new CID hash is named by two
  different wanted items. `Replay.BatchSizeShowsOnChain` derives the failing input from two envelopes in a stream. With a
  client of the reference registry there is no condition (`Anchoring.ReferenceConfluence`).
- The comment at `indexing/src/batch.rs:76-81` says that what was in flight comes back when the broadcaster re-emits. It
  does not: the hash of an envelope is in the ledger before its item is anchored, so the same bytes are a duplicate in
  every later session. `Sessions.FirstSessionOrNever`: an item whose ledger line was written is anchored in some session
  if and only if the first session anchored it. `Sessions.ReEmissionExactly` and `Sessions.KnownExactly` say exactly when
  re-emission brings nothing back, `Sessions.FailedFlushIsLost` and `Sessions.ShutdownIsLost` are failing runs, and
  `Sessions.BlankRecovers` is a re-emission that works: the same envelope in different bytes. The header (lines 16-17)
  also speaks of a replay on startup; the code reloads only hashes. The model follows the code.
- A ledger file whose last line is not terminated swallows the next hash. `Dedupe.ReloadAfterNew` gives the exact
  condition for one write, `Dedupe.RestartsInvisibleExactly` for all sequences of actions, and `Batch.RememberedExactly`
  for the engine. A file written only by the store never gets into that state.
- Safety timers are not cancelled, so a timer of a finished call can end a later call early, and completion events name no
  call, so a late result can be reported as that of a later call. `Backend.TimedOutEarlyExactly` and
  `Backend.MisattributedExactly` give the exact conditions over all continuations, `Backend.LeftoverTimerEndsNextUpload`
  and `Backend.LateResultGoesToNextUpload` runs.
- A backoff multiplier of 0 makes delays shrink after the first one (`Retry.NeverShrinksExactly`).

## Model

| member | source | states |
|---|---|---|
| `Text.NewCid` | core/src/lib.rs:15-22 | a CID is the trimmed text and is refused exactly when that is empty; trimming keeps it valid UTF-8 |
| `Text.NewCidIsCanonical` | core/src/lib.rs:15-22 | canonicalising a canonical CID changes nothing |
| `Text.TrimMeaning` | core/src/lib.rs:17 | trimming takes away white space at both ends, only that, and all of it |
| `Text.LinesMeaning` | indexing/src/orchestration.rs:25 | `str::lines` case by case: terminators, carriage returns before them, and a last line without one |
| `Registry.RegistryState.AnchorOne` | core/src/lib.rs:165-190 | first write wins; the returned entry is the stored one; `inserted` exactly when the hash was new |
| `Registry.RegistryState.AnchorBatch` | core/src/lib.rs:192-216 | the loop computes `PutAll` and `BatchResult`, whose meaning is in the lemmas below |
| `Registry.RegistryState.Apply` | core/src/lib.rs:144-163 | both instructions, dispatched to the two methods |
| `Registry.RegistryState.QueryByCidHash` | core/src/lib.rs:218-220 | found exactly when stored, and then the stored entry |
| `Registry.PreimageExactly` | core/src/lib.rs:223-228 | the hashed text of a CID is the 13 characters "lp0017:cid:v1", a NUL and the CID, so no two CIDs share it |
| `Registry.OneIsBatchOfOne` | core/src/lib.rs:165-216 | the one-entry instruction does what a batch of one entry does |
| `Registry.FirstWriteWins` | core/src/lib.rs:165-216 | closed form of the map after a batch: old entries untouched, each new hash gets the CID, hash, metadata hash and timestamp of its first item, nothing else |
| `Registry.BatchAccounting` | core/src/lib.rs:192-216 | inserted + skipped = length = number returned; growth = inserted = number of distinct new hashes; returned entry i is the final entry of CID i |
| `Registry.BatchSplits` | core/src/lib.rs:192-216 | splitting a batch gives the same map, the same returned entries and the summed counters |
| `Registry.ReplayIsNoOp` | core/src/lib.rs:172-178 | the same batch again, with any timestamp, changes nothing and returns the same entries |
| `Registry.PermutationKeepsMap` | core/src/lib.rs:192-216 | permuting a batch with distinct CID hashes leaves the final map unchanged |
| `Registry.RunKeepsEntries` | core/src/lib.rs:139-221 | over every run of instructions each entry stays under its own `cid_hash(cid)`, no entry changes or disappears, and growth is the sum of the reported `inserted` |
| `Registry.ViewOfPutAll` | core/src/lib.rs:165-216 | CID and metadata hash of every key do not depend on the batch timestamp |
| `Borsh.InstructionCodec` | core/src/lib.rs:103-114 | the instruction decoder accepts exactly the encoder's output and inverts it, both directions |
| `Borsh.EntryCodec` | core/src/lib.rs:82-88 | the same for entries |
| `Borsh.TrailingBytesRejected` | methods/guest/src/bin/whistleblower_registry.rs:91-92 | bytes after a complete instruction or entry are an error |
| `Borsh.InstructionLayout` | core/src/lib.rs:103-114 | the bytes of an instruction by offset: tag 0 or 1, counts and lengths in four and the timestamp in eight bytes, least significant first, CIDs and hashes in request order |
| `Borsh.EntryLayout` | core/src/lib.rs:82-88 | the bytes of an entry by offset |
| `Borsh.ScriptAgreesWithDecoder` | scripts/verify-testnet.sh:49-58 | the offset-based script accepts exactly what the decoder accepts, with the same fields |
| `Guest.GuestMeaning` | methods/guest/src/bin/whistleblower_registry.rs:91-137 | the program aborts exactly on a malformed payload, a wrong account list or an entry that does not fit; otherwise one post-state per account |
| `Guest.ExecuteMeaning` | methods/guest/src/bin/whistleblower_registry.rs:57-77 | an aborted transaction changes nothing; an accepted one keeps filled accounts and fills empty ones with their last item's entry |
| `Guest.ExecuteClaims` | methods/guest/src/bin/whistleblower_registry.rs:57-77 | balance and nonce never move, a filled account is not touched, filling an unowned one claims it |
| `Guest.GuestRefinesRegistry` | methods/guest/src/bin/whistleblower_registry.rs:94-137 | the new ledger represents the reference registry's new map if and only if no new CID occurs in the batch with different first and last content |
| `Guest.DistinctBatchRefines` | core/src/lib.rs:144-216 | with distinct hashes the ledger refines the registry and the accounts, read in request order, are exactly the returned entries |
| `Guest.DuplicateCidDiverges` | methods/guest/src/bin/whistleblower_registry.rs:114-136 | the input on which program and reference differ |
| `Guest.EmittedMatchesReturnedExactly` | methods/guest/src/bin/whistleblower_registry.rs:94-137 | the post-states the program emits decode to the entries the reference returns if and only if no new hash is named by two different items of the batch |
| `Chain.EntriesAreImmutable` | methods/guest/src/bin/whistleblower_registry.rs:57-62 | over any run from any state non-empty account data never changes |
| `Chain.ExactlyFilledAccountsAreOwned` | methods/guest/src/bin/whistleblower_registry.rs:71-77 | over every run exactly the accounts with data belong to the program |
| `Chain.LedgerFollowsRegistry` | methods/guest/src/bin/whistleblower_registry.rs:91-137 | over every run the ledger holds the keys of the reference registry that applied the landed instructions in landing order, and represents it if and only if each of them agreed with itself |
| `Chain.RepliesAgree` | adapters/lez/src/lib.rs:223-275 | all successful anchors and queries of one CID in a run were told the same entry, it is what the ledger holds, and its fields come from one item of one submitted instruction |
| `Chain.LaterRepliesAgree` | adapters/lez/src/lib.rs:183-202 | an answer given at any moment agrees with every answer after any longer run |
| `Chain.AnchorsInRequestOrder` | adapters/lez/src/lib.rs:243-266 | a successful batch returns one entry per item, in request order |
| `Chain.CallSubmits` | adapters/lez/src/lib.rs:228-261 | a call that encodes and reaches the sequencer adds exactly one transaction: it decodes to the instruction and names, per item and in order, the PDA of its CID; the client waits exactly if it was acknowledged |
| `Chain.CallIsAnsweredExactly` | adapters/lez/src/lib.rs:243-266 | from every reachable state a call whose own transaction lands is answered, with entries the ledger holds, if and only if every item is filled or fits; otherwise ledger and answers stay as they were |
| `Chain.CallAcceptedExactly` | adapters/lez/src/lib.rs:243-261 | what a call event submitted is accepted by the program, on whatever ledger it lands, exactly when every new entry fits the account size limit |
| `Chain.LandedCallIsAnswered` | adapters/lez/src/lib.rs:183-202 | however late a transaction lands that requests the instruction its client waits for, if it is accepted the client is answered after one read per item, with entries the ledger holds |
| `Chain.QueryAnsweredExactly` | adapters/lez/src/lib.rs:268-275 | from every reachable state a query is answered exactly when the account is filled, with the entry whose encoding it holds |
| `Chain.GivenUpForGood` | adapters/lez/src/lib.rs:197-200 | a client that gave up is never answered unless it calls again |
| `Chain.AnyoneCanLand` | adapters/lez/src/lib.rs:148-153 | any transaction can be submitted and landed, at once and repeatedly |
| `LezClient.ReadEntryUntil` | adapters/lez/src/lib.rs:183-202 | polls until the first non-empty read or the attempt limit, and returns that read's verdict or a retryable error |
| `LezClient.ReadEntryExactly` | adapters/lez/src/lib.rs:205-218 | one fetch: the entry whose encoding the account holds, nothing while it is empty, a retryable error for a failed fetch, a final one for data that is no entry |
| `LezClient.ReadBatch` | adapters/lez/src/lib.rs:262-266 | reads every item at its own PDA, in order; if every fetch sees an entry for every item it succeeds after one read each; an error is that of one item whose own reads gave up, all before it having been read |
| `Json.ReadAllWritten` | core/src/lib.rs:72-74 | the JSON reader inverts the compact writer on every writable value |
| `JsonGrammar.ReadExactly` | indexing/src/batch.rs:230 | the JSON reader accepts exactly the texts of the grammar of RFC 8259, written here independently of it, and gives the value each one spells |
| `Json.EscapedAs` | core/src/lib.rs:72-74 | the written form of every character: short escapes, "\u00" and two lower-case digits for other controls, itself otherwise |
| `Json.QuotedAs` | core/src/lib.rs:72-74 | a text is written between quotes, part after part |
| `Json.DecimalExactly` | core/src/lib.rs:72-74 | numbers are written as their only decimal text without leading zeros |
| `Json.SpacesAre` | core/src/lib.rs:17 | the white space that is trimmed, by code point |
| `Json.EscapedCharacterRead` | indexing/src/batch.rs:231 | a character escaped as a code unit or a surrogate pair is read as that character |
| `Json.Utf8OfIsUtf8` | indexing/src/batch.rs:231 | the bytes built for an escape are valid UTF-8 exactly for scalar values |
| `Json.Utf8OfDecodes` | indexing/src/batch.rs:230 | and their bits are those of the code point |
| `Json.Utf8Exactly` | indexing/src/orchestration.rs:25 | a byte sequence is text exactly when it is the UTF-8 form of some sequence of characters |
| `Envelope.ParseCanonical` | core/src/lib.rs:71-74 | parsing the canonical bytes gives the envelope back, for every envelope |
| `Envelope.CanonicalLayout` | core/src/lib.rs:59-74 | the canonical bytes, literally: the eight member names in order, each with the text of its value, and no blank |
| `Envelope.PayloadExactly` | indexing/src/batch.rs:220-233 | a payload is read as an envelope exactly when it is a JSON text of an object with the eight named fields, each once, or of the array of the eight values |
| `Envelope.CanonicalInjective` | core/src/lib.rs:71-79 | different envelopes have different canonical bytes |
| `Envelope.ObjectAcceptedExactly` | core/src/lib.rs:59-69 | a JSON object is read as an envelope exactly when each of the eight fields, named literally, occurs once with its value, in any order and among any other members |
| `Envelope.ArrayAcceptedExactly` | core/src/lib.rs:59-69 | besides objects only the array of the eight values in declaration order is read as an envelope |
| `Base64.Base64Encode` | ui/ffi/src/lib.rs:317-338 | the chunk loop computes `Encoded` |
| `Base64.EncodingIsInverse` | ui/ffi/src/lib.rs:315-338 | a strict RFC 4648 section 4 decoder returns b on a text exactly when the text is the encoding of b |
| `Base64.EncodedShape` | ui/ffi/src/lib.rs:317-338 | length 4*ceil(n/3), alphabet characters only, padding of 0, 2 or 1 by n modulo 3 |
| `Base64.AlphabetExactly` | ui/ffi/src/lib.rs:318 | the 64 symbols and the padding character, literally |
| `Base64.EncodedSymbols` | ui/ffi/src/lib.rs:317-338 | every three bytes are four symbols of six bits, high bits first |
| `Base64.ShiftsAndMasks` | ui/ffi/src/lib.rs:324-332 | the shift and mask expressions equal the divisions and remainders of the model |
| `Hex.HashText` | ui/ffi/src/lib.rs:120-143 | a hash text is accepted exactly when 64 hex digits remain after the prefixes, and for which value |
| `Hex.HashTextBack` | ui/ffi/src/lib.rs:145-152 | the emitted text in any casing, behind any number of "0x", parses back |
| `Hex.StripExactly` | ui/ffi/src/lib.rs:120-143 | the prefix removal drops as many leading "0x" as there are, and nothing else |
| `Hex.EncodedDigits` | ui/ffi/src/lib.rs:145-152 | the emitted digits: two of "0123456789abcdef" a byte, high one first |
| `Hex.DigitExactly` | ui/ffi/src/lib.rs:120-143 | the characters accepted as digits, with their values |
| `Dedupe.DurableDedupeStore.Open` | indexing/src/orchestration.rs:21-33 | fails exactly on invalid UTF-8; otherwise holds the trimmed non-empty lines |
| `Dedupe.DurableDedupeStore.Ingest` | indexing/src/orchestration.rs:35-55 | outcome, set and file for new, duplicate and unwritable cases |
| `Dedupe.EnvelopeHashText` | indexing/src/orchestration.rs:58-64 | the ledger text of an envelope is the lower-case hex of the hash of topic, NUL and payload |
| `Dedupe.LoadExactly` | indexing/src/orchestration.rs:25-30 | a store opened on a file knows exactly the trimmed forms of its non-blank lines |
| `Dedupe.LoadAfterWrite` | indexing/src/orchestration.rs:21-33 | what reopening finds after a hash was appended to any text whatever |
| `Dedupe.ReloadAfterNew` | indexing/src/orchestration.rs:42-51 | writing a new hash and reopening gives the in-memory set if and only if the file had no unterminated non-blank last line |
| `Dedupe.RestartsAreInvisible` | indexing/src/orchestration.rs:21-55 | closing and reopening at any points never fails and changes neither an outcome nor the final store |
| `Dedupe.RestartsInvisibleExactly` | indexing/src/orchestration.rs:21-55 | from a store opened on any UTF-8 file restarts are invisible in every sequence of actions if and only if the file has no dangling line, or nothing at all is new to it |
| `Dedupe.FreshStoreConsistent` | indexing/src/orchestration.rs:23-32 | a store over an absent or empty file satisfies the hypothesis of the previous row |
| `Dedupe.NewExactlyOnce` | indexing/src/orchestration.rs:35-64 | New exactly on the first occurrence of a topic and payload, for NUL-free topics |
| `Retry.BackoffClosedForm` | indexing/src/retry.rs:46-52 | the delay as a minimum over exact powers and products |
| `Retry.BackoffGrows` | indexing/src/retry.rs:46-52 | delays never shrink when the multiplier is at least 1 |
| `Retry.CeilingIsFinal` | indexing/src/retry.rs:46-52 | once the ceiling is reached it is kept |
| `Retry.NeverShrinksExactly` | indexing/src/retry.rs:46-52 | exactly when delays never shrink, multiplier 0 included |
| `Retry.WithRetry` | indexing/src/retry.rs:57-76 | result, number of calls and sleeps against any outcome trace, and the panic on zero attempts |
| `Retry.StopsAtMeaning` | indexing/src/retry.rs:63-73 | the stopping attempt is the first success, the first non-retryable error, or the last allowed, and only that |
| `Retry.SettlesExactly` | indexing/src/retry.rs:57-76 | the loop ends in a value or an error exactly when some allowed attempt gives it after nothing but retryable errors, and an error only if final or last |
| `Retry.SleptExactly` | indexing/src/retry.rs:46-73 | each sleep in closed form |
| `Retry.SleepIsBounded` | indexing/src/retry.rs:57-76 | total sleep is within (max_attempts-1)*max_backoff and within the geometric sum |
| `Publisher.BatchToolAgrees` | indexing/src/publisher.rs:101-151 | what was handed to delivery and gave the receipt is, for a batch tool on the topic, exactly the pair the publisher anchors; its bytes parse to the envelope of the inputs |
| `Publisher.PublishedExactly` | indexing/src/publisher.rs:101-151 | publishing succeeds exactly so: upload with a usable CID, the envelope of that CID and the inputs field by field, its canonical bytes handed to delivery on the topic until the receipt, and their hash |
| `Publisher.PublishFailsExactly` | indexing/src/publisher.rs:101-151 | each error exactly: the upload settles on it, the CID is blank, or delivering the right bytes settles on it; it panics only when no attempt is allowed |
| `Publisher.AnchoredExactly` | indexing/src/publisher.rs:153-181 | the full call succeeds exactly when publishing does and anchoring the published pair settles on the entry, and fails exactly when one of them does |
| `Publisher.AnchoredPairIsBroadcast` | indexing/src/publisher.rs:173-181 | the entry returned by the full call answers the attempt for the pair a batch tool derives from what was handed to delivery |
| `Publisher.BroadcastBytesAreHashed` | ui/ffi/src/lib.rs:286-313 | base64 and hex texts of the plugin name the same bytes, these are the envelope of the inputs field by field, and the batch tool derives the same pair from them |
| `Publisher.EntryTextReadsBack` | ui/ffi/src/lib.rs:145-152 | the emitted entry JSON reads back to the entry's timestamp, CID and both hashes, under those four names |
| `Batch.Conservation` | indexing/src/batch.rs:98-218 | at every reachable state accepted items = flushed batches, batch in flight, buffer, channel, in order; batches are non-empty and at most batch_size, the buffer stays below it, and only the last flush can have failed |
| `Batch.AcceptedInOrder` | indexing/src/batch.rs:98-145 | in every run accepted items are a subsequence of the wanted ones of what was taken; missing are exactly the items of failing ledger writes and at most one, the last, after a failed flush |
| `Batch.WhatIsLeftBehind` | indexing/src/batch.rs:154-187 | accepted = reported anchored + what is left: the channel after a good end; the failed batch, which may have landed, and the channel after a failure |
| `Batch.ShutdownFlushes` | indexing/src/batch.rs:156-162 | from every reachable running state that has seen shutdown: what is in flight settles, the whole buffer is flushed as one batch, the loop is done, and the channel stays behind |
| `Batch.ShutdownFlushesBuffer` | indexing/src/batch.rs:156-162 | in particular with nothing in flight: one step and one flush, of exactly the buffer |
| `Batch.ShutdownEndsIntake` | indexing/src/batch.rs:101-103 | after the signal and the next look of the subscriber no event takes, remembers, writes or accepts anything |
| `Batch.EnvelopeTaken` | indexing/src/batch.rs:111-140 | what one envelope does: nothing if known; else memory at once, its own file line if writable even when it does not parse, and its item to the channel, or the end of the subscriber after a failed flush |
| `Batch.ParsedExactly` | indexing/src/batch.rs:220-233 | an envelope gives an item exactly when its topic is the engine's and its payload parses, with the hash of the canonical bytes |
| `Batch.NothingIsInvented` | indexing/src/batch.rs:220-233 | in every run each accepted, dropped or skipped item comes from an envelope taken on the engine's topic, with the hash of its canonical bytes |
| `Batch.RememberedExactly` | indexing/src/orchestration.rs:35-55 | in every run on any ledger file: the file will remember an item unless its line could not be written or was glued to an unterminated last line |
| `Batch.CleanRunResult` | indexing/src/batch.rs:98-187 | a clean run that ends has flushed exactly the first occurrences that parse, in stream order, in batches of at most batch_size, all reported anchored |
| `Batch.Confluence` | indexing/src/batch.rs:98-187 | any two clean runs, with any interleavings, ticks and batch sizes, flush the same sequence |
| `Batch.StepsDecrease` | indexing/src/batch.rs:98-187 | every event that changes anything decreases a weighted count of stream, channel and buffer |
| `Batch.CleanCompletion` | indexing/src/batch.rs:164-180 | a clean run makes at most 4*stream+3 real steps, is never stuck before it is done, and has an end |
| `Batch.BatchLoop.Begin` | indexing/src/batch.rs:66-92 | starting fails exactly on a ledger file that is not UTF-8; otherwise the loop starts with what the file loads to |
| `Batch.BatchLoop.SubscriberTurn` | indexing/src/batch.rs:106-140 | the subscriber's body for one stream item, on the real dedupe store |
| `Batch.BatchLoop.ReceiveTurn` | indexing/src/batch.rs:166-171 | push, and flush when the buffer reaches batch_size |
| `Batch.BatchLoop.FlushBatch` | indexing/src/batch.rs:194-218 | one flush with its retries: reported anchored exactly when an allowed attempt succeeds after nothing but retryable errors |
| `Batch.BatchLoop.RunSchedule` | indexing/src/batch.rs:66-192 | the engine under any schedule of its two tasks is the machine the lemmas are about |
| `Anchoring.GrownByFlushes` | adapters/lez/src/lib.rs:243-266 | over any flushes, anchored or failed, with any number of landed attempts: filled accounts are untouched and new entries are flushed items under their own hash |
| `Anchoring.AnchoredAreFilled` | adapters/lez/src/lib.rs:262-266 | every item reported anchored is still filled after all later flushes |
| `Anchoring.LateLandingChangesNothing` | methods/guest/src/bin/whistleblower_registry.rs:57-62 | an attempt that lands after its batch was filled changes the data of no account |
| `Anchoring.CutsAgreeExactly` | adapters/lez/src/lib.rs:243-266 | from any ledger that represents m: all ways to cut a fitting item sequence into batches leave the first-write-wins view if and only if no hash new to m is named by two different items |
| `Anchoring.RegistryShows` | adapters/mock/src/lib.rs:163-194 | on the reference registry every cut leaves that view, however often each batch is applied |
| `Anchoring.RealizeCut` | indexing/src/batch.rs:154-187 | every cut of the wanted items into batches of at most batch_size is what some clean run of the engine flushes |
| `Anchoring.OnlyWantedReachTheChain` | indexing/src/batch.rs:98-218 | over every run with any failures: new entries on the chain are wanted items, old ones are untouched, and what was reported anchored is there |
| `Anchoring.WantedAreAnchored` | batch/src/main.rs:95-103 | after a clean run every wanted item's PDA is filled, by a wanted item with that hash if it was empty, and by the first one where no two conflict |
| `Anchoring.ChainConfluenceExactly` | indexing/src/batch.rs:98-187 | all clean runs with any batch sizes leave the first-write-wins view on the chain if and only if no hash new to it is named by two different wanted items |
| `Anchoring.ReferenceConfluence` | adapters/mock/src/lib.rs:163-194 | with a client of the reference registry all clean runs leave the same view |
| `Replay.ReplayedPayloads` | indexing/src/file_delivery.rs:59-67 | exactly the trimmed, non-blank, non-comment lines are replayed |
| `Replay.ReplayLineByLine` | indexing/src/file_delivery.rs:59-67 | lines are replayed in file order, each as its trimmed text unless blank or a comment |
| `Replay.EveryRecordIsAnchored` | indexing/src/file_delivery.rs:97-120 | after a clean run over a file every record that parses is found on the chain under its CID hash, unchanged if it was there, else as a wanted record of that hash, and as the first one where no two conflict |
| `Replay.EveryRecordIsRegistered` | adapters/mock/src/lib.rs:163-202 | the same against a client of the reference registry: the first record wins without a condition |
| `Anchoring.AnsweredCompletion` | indexing/src/batch.rs:154-187 | if the wanted items fit, any clean run with right answers so far can be continued to an end where all of them were reported anchored |
| `Replay.ReplayCompletes` | indexing/src/file_delivery.rs:29-33 | in particular over a file: such a run so far can be continued to an end where every record that parses is on the chain |
| `Replay.BatchSizeShowsOnChain` | indexing/src/batch.rs:166-171 | two envelopes with one CID in a stream: the clean run with batch size 1 leaves the first metadata hash on the chain, the one with batch size 2 the second |
| `Sessions.SessionsGrow` | indexing/src/orchestration.rs:21-55 | over any sessions a ledger file that opens goes on opening, and one without a dangling line forgets nothing |
| `Sessions.NeverAgain` | indexing/src/batch.rs:112-124 | a hash in the ledger is never again that of an item, in any later session on any stream |
| `Sessions.FirstSessionOrNever` | indexing/src/batch.rs:76-81 | an item whose ledger line was written is anchored in some session if and only if the first session anchored it, whatever the later ones hear |
| `Sessions.AnchoredFatesAre` | indexing/src/batch.rs:194-218 | the items a session reports anchored are the first of those it sent, with their envelope hashes |
| `Sessions.ReEmissionExactly` | indexing/src/batch.rs:76-81 | later sessions that hear only what was taken flush nothing if and only if the file knows every taken envelope that parses |
| `Sessions.KnownExactly` | indexing/src/batch.rs:112-124 | and that is so exactly when no ledger line failed to be written for an item |
| `Sessions.FailedFlushIsLost` | indexing/src/batch.rs:205-211 | a run: the flush fails, and no later session that hears the envelope again flushes it |
| `Sessions.ShutdownIsLost` | indexing/src/batch.rs:156-162 | a run: shutdown with an item in the channel, and no later session that hears the envelope again flushes it |
| `Sessions.BlankRecovers` | indexing/src/batch.rs:220-233 | the same envelope behind a blank is wanted again, as the same item, exactly when its hash is new |
| `Backend.CallbacksRunOnceInTime` | ui/src/WhistleblowerBackend.cpp:427-513 | every accepted or refused call's callback runs at most once, within its limit, and has run once the limit has passed |
| `Backend.TimerKeepsInv` | ui/src/WhistleblowerBackend.cpp:465-472 | any timer going off keeps the invariant: an occupied slot has its own timer armed |
| `Backend.SuccessComesFromEvents` | ui/src/WhistleblowerBackend.cpp:139-219 | a callback told success is told what a completion event of the run carried, for the recorded operation |
| `Backend.WithoutTimeoutsResultsAreOwn` | ui/src/WhistleblowerBackend.cpp:139-160 | in a run where no callback timed out and nobody else's events came, every result went to the call it belongs to |
| `Backend.MisattributedExactly` | ui/src/WhistleblowerBackend.cpp:139-160 | after any run the pending call can still be told another call's result if and only if another operation is outstanding |
| `Backend.OwnResultIsDelivered` | ui/src/WhistleblowerBackend.cpp:155-159 | after any run the pending call is told the result of its own operation the moment that comes, and the slot is free |
| `Backend.AnyEventEndsTheCall` | ui/src/WhistleblowerBackend.cpp:155-159 | any completion event ends the pending call with what it carries, whoever's operation it was; with nothing pending it runs no callback |
| `Backend.SilenceEndsTheCall` | ui/src/WhistleblowerBackend.cpp:462-472 | if no event comes, its timers alone end it within its limit |
| `Backend.CallTaken` | ui/src/WhistleblowerBackend.cpp:427-473 | a call is accepted with its timer armed exactly when the module is there and the slot is free |
| `Backend.TimedOutEarlyExactly` | ui/src/WhistleblowerBackend.cpp:462-472 | after any run some continuation ends the pending call by a timer before its limit if and only if the timer of an earlier accepted call has not gone off |
| `Backend.RungByTime` | ui/src/WhistleblowerBackend.cpp:462-472 | an accepted call's timer has not gone off before the limit of that call, and has after it |
| `Backend.LeftoverTimerEndsNextUpload` | ui/src/WhistleblowerBackend.cpp:462-472 | a run: the second upload is timed out after 30 of its 60 seconds |
| `Backend.LateResultGoesToNextUpload` | ui/src/WhistleblowerBackend.cpp:139-160 | a run: the result of a timed-out upload is reported as that of the next |
| `Backend.CallbackSlot.Begin` | ui/src/WhistleblowerBackend.cpp:427-473 | occupy the slot and arm a timer, or refuse at once |
| `Backend.CallbackSlot.Finish` | ui/src/WhistleblowerBackend.cpp:155-159 | clear the slot, then run the callback |
| `Backend.CallbackSlot.RunSchedule` | ui/src/WhistleblowerBackend.cpp:427-513 | the slot under any schedule of calls, events, timers and time is the machine the lemmas are about |
| `Desk.SlotsRun` | ui/src/WhistleblowerBackend.cpp:277-339 | in every run of the plugin each of its two slots goes through a run of its own machine |
| `Desk.RunKeepsJoined` | ui/src/WhistleblowerBackend.cpp:307-338 | over every run: each upload callback with a usable CID is reported exactly once, nothing else is, and report k is broadcast call k at the same moment with the texts of that CID and that call |
| `Desk.ReportsAreReadBack` | ui/src/WhistleblowerBackend.cpp:381-413 | over every run the bytes broadcast for a report are read by the batch tool as the trimmed CID and the hash that was shown |
| `Desk.RequestsAreKept` | ui/src/WhistleblowerBackend.cpp:277-307 | upload call k is the user's k-th request, with its inputs |
| `Desk.PublishTaken` | ui/src/WhistleblowerBackend.cpp:431-441 | a request starts an upload exactly when the module is there and none is pending, and else ends at once |
| `Desk.LimitsAre` | ui/src/WhistleblowerBackend.cpp:465-504 | over every run the limits are 60 and 30 seconds: every armed timer, the timer of a pending call, and every callback that ran |
| `Desk.BroadcastTold` | ui/src/WhistleblowerBackend.cpp:199-219 | what a pending broadcast is told, by its own event and by a due timer, and that uploads and reports are not touched |
| `Desk.UploadGoesOn` | ui/src/WhistleblowerBackend.cpp:307-338 | what a pending upload is told, and that with a usable CID it is reported and the broadcast is called at once, taken if delivery is there and free |
| `Desk.WhistleblowerBackend.OnStorageUploadDone` | ui/src/WhistleblowerBackend.cpp:307-338 | the upload event on the mutable object is the step of that machine |
| `Desk.WhistleblowerBackend.RunSchedule` | ui/src/WhistleblowerBackend.cpp:277-339 | the object under any schedule is that machine |

## Left out

- SHA-256, zero-knowledge proving, wallet, sequencer and runtime internals: function parameters and the rule stated above.
- Registry.RegistryState.QueryByCidHash: the always-`Ok` result wrapper is dropped, because the method has no error case.
- Anchoring.WantedAreAnchored: one engine and its own flushes; transactions of others that land in between are in `Chain`, where filled entries never change.
- Sessions.KnownExactly: assumes NUL-free topics and no collision among the session's inputs, because with one an envelope can be taken for another.
- serde_json's own code is not part of this model: `Json` follows RFC 8259 and `Envelope` serde's rules for derived structs; which error is reported, and the reader's nesting limit, are dropped.
- The message hash and receive time of an envelope: nothing modelled here reads them.
- Real file I/O: the ledger is a text with atomic appends; a failing write leaves it as it was.
- tokio scheduling, wall-clock time, missed-tick policy and watch-channel wake-ups: any order of events.
- Attempts of a flush that land after it has settled: `Anchoring.LateLandingChangesNothing` shows that they change nothing once the batch is filled; those of a failed last flush are counted in that flush.
- The best-effort confirmation poll of `submit_and_wait`: its result is ignored by the program.
- Error message texts, logging and the submission sink: no statement depends on them.
- FFI pointers, wallet set-up, environment variables, QML, plugin loading, busy and stage display: plumbing and user interface.
- The choice of the CID among the upload event's arguments: the callback argument is a parameter.
- File sizes and clock readings pass through a `double` on their way to the hashing entry point; the model takes the integers it receives.
- The mock adapters and command-line drivers: the same first-write-wins map, and wiring.

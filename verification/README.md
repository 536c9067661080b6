# Verified models of the apex build and attestation tool

A Dafny 4.11 project that models the algorithmic core of `apex`, the tool that builds an OS image,
drives it in a virtual machine and keeps an attestation ledger of what was checked, and proves what
those algorithms promise. `dafny verify dfyconfig.toml` checks everything.

| file | what it models |
|---|---|
| `Bytes`, `Base64`, `Ordering`, `WideIntegers` | byte strings, base64 (section 4 of RFC 4648), lexical order, rows as big-endian integers |
| `SerialFrame`, `SerialFrameLaws`, `SerialFrameRoundTrip`, `SerialFrameExact` | the framing codec for guest output and its incremental decoder |
| `Graph` | execution order derived from what units read and write |
| `Pipeline`, `PipelineLaws`, `PipelineOutcomes`, `PlanSafety` | write-once facts, plans, the runner, and the scheduler composed with it |
| `Claims`, `Ledger`, `LedgerLaws`, `LedgerRuns`, `Minting` | the hash chain with its separate head record, runs of its writer with crashes, and minting into it |
| `SeedImage`, `SeedImageWriting`, `SeedImageLaws` | the ISO 9660 writer (ECMA-119, sections 8.4, 9.1 and 9.4) and a reader that inverts it |
| `Screens` | the two judgements over screenshots |
| `Launching`, `LaunchingLaws`, `LaunchingHost` | starting, stopping and reclaiming the one machine, as a protocol with crashes |
| `Trace`, `TraceLaws`, `TraceHistory`, `TraceCapture` | the fingerprint bus trace and its event log |
| `Readiness`, `ReadinessLaws` | the readiness decision and its strict form |
| `GitReading` | the parser of `git cat-file` batches |

How it is built: where the source changes state (the decoder, the runner's progress, the chain
writer, the proof store, the descriptor's buffer, the machine host, the bus trace) there is a class
or a method with loops, each proved equal to a specification function; the laws are lemmas about
those functions. What the tool calls but does not define is a parameter: the SHA-256 and HMAC
functions, the JSON layer, the regular-expression engine, stages' callables, the hypervisor, git.

Findings. Each is a lemma with a concrete run, or an exact condition:

- A line longer than 1024 bytes can read differently when a feed ends inside it, because all but
  its last 1024 bytes so far are dropped (`SerialFrameLaws.LongRunsDependOnTheCut`). What a cut may
  make of such a line is the line itself or a tail of at least 1024 bytes, and every such choice is
  what some cut makes. So the cut does not matter exactly when every choice folds to one verdict
  (`CutsAgreeExactly`; for the answers alone, `AnswersAgreeExactly`). An unfinished last line never
  matters, and neither does a long line whose tails all look like noise.
- An encoding decodes exactly when its payload is not empty, fits the limit rounded up to a base64
  group, and fits a six-digit chunk count (`SerialFrameRoundTrip.RoundTripExactly`).
- A plan silently holds fewer stages than were declared when two share an id
  (`PlanSafety.PlanIsCompleteExactly`).
- A chain written without a crash reads back as intact exactly when every line fits the line limit
  and the file, but for its last newline, the chain limit; appending checks neither
  (`LedgerRuns.RunsReadBack`). A crash between the chain write and the head write loses nothing that
  was held, but the writer that reopens repeats a number, so nothing appended afterwards, through
  further crashes or not, is ever held (`LedgerRuns.AfterCrashNothingMoreIsHeld`). What is held after
  any run, and exactly when it reads as intact, is `LedgerRuns.RunsHold`.
- An edited line can make reading raise instead of being reported as a break: one that fails to load
  other than as malformed JSON, a right event under an infinite number, or a line right up to its
  number with a tag outside ASCII (`LedgerLaws.RaisedExactly`).
- A filed proof larger than the readers' limit loads but is never intact (`Minting.CitationsLoad`).
- If the tool dies between starting a machine and writing its lease, a second machine is let in
  beside the first (`LaunchingLaws.DeathInTheWindowAllowsTwo`); a death of the whole host at the same
  point is harmless. Over every run, a launch is let in exactly when all that is alive was lost that
  way (`LaunchIsLetInExactly`), and the record names exactly what is alive if and only if nothing
  lost is (`OneMachineExactly`). When the interrupted launch was a resumed run, a reclaim can report
  nothing (`LaunchingLaws.ResumedRunCanBeMissed`, with the exact condition in
  `InterruptionIsReportedExactly`).
- A bus message without a timestamp changes the ownership state before it is refused, so the state
  can stop following from the kept events (`TraceLaws.UntimedCallIsUntold`). It does exactly when the
  message is a reply, a call not open already in the same words, the leaving of a client not gone
  already, or a daemon's change while something is open or owned (`FedIsToldExactly`).
- A release that raises an ordinary exception changes nothing about a run
  (`PipelineLaws.RaisingChangesNothing`); an interrupt out of a release keeps the finalisers of
  earlier stages from being released (`Unwinds`) and escapes (`EscapesExactly`).
- A git answer that ends inside a body gives that object short without any sign of it
  (`GitReading.CutInBody`): only the command's own report of a cut answer tells.
- Of several inconsistencies the scheduler names one, and which one is determined
  (`Graph.AnswerIsUnique`), but by the order of declaration too. Rearranging can name exactly the
  least missing fact of each unit that has one (`Graph.MissingExactly`), and for facts written twice
  exactly the first clash of each way to put the units in order of their ids (`Graph.ClashExactly`),
  of which there are several when ids are shared (`Graph.ClashDependsOnDeclaration`). The answer stays
  the same exactly when those agree (`SameMissingExactly`, `SameClashExactly`); an order or a cycle
  always does (`DeclarationOrderDoesNotMatter`).

## Model

| member | source | states |
|---|---|---|
| Base64.RoundTrip | src/apex/model/serialframe.py:31 | decoding base64 text gives back the bytes it encodes, for all bytes |
| Base64.EncodeAlphabet | src/apex/model/serialframe.py:25-36 | encoded text holds only alphabet symbols and padding, so every chunk passes the chunk pattern |
| Base64.EncodesItsBits | src/apex/model/serialframe.py:31 | a quantum spells the 24 bits of its group, the highest first, zero bits and padding where the group is short |
| Base64.SymbolsAreTheTable | src/apex/model/serialframe.py:31 | the symbols are those of table 1 of RFC 4648, in its order |
| Base64.DecodeExactly | src/apex/model/serialframe.py:124 | text decodes to these bytes if and only if it is their encoding up to the unused bits of its last quantum |
| Base64.AcceptExactly | src/apex/model/serialframe.py:124 | the lenient decoder accepts exactly that, and that followed by surplus padding |
| Base64.LeniencyOnlyAdds | src/apex/model/serialframe.py:124 | text the strict decoder accepts decodes the same in one that passes over surplus padding |
| SerialFrame.RstripExactly | src/apex/model/serialframe.py:70 | the carriage returns that end a line are stripped, all of them and nothing else |
| SerialFrame.AfterFeed | src/apex/model/serialframe.py:61-80 | a feed that returns nothing without completing leaves at most 1024 bytes pending, whatever was fed |
| SerialFrame.FrameDecoder.constructor | src/apex/model/serialframe.py:47-55 | a new decoder holds nothing |
| SerialFrame.FrameDecoder.Feed | src/apex/model/serialframe.py:61-134 | one feed updates buffer, chunks, counted size and payload as the pure decoder step does, and gives its answer |
| SerialFrame.DrainIsFold | src/apex/model/serialframe.py:61-88 | reading a buffer as far as it goes is the plain fold of line consumption over its complete lines, in its answer and in the chunks held; the rest stays buffered |
| SerialFrame.FeedStep | src/apex/model/serialframe.py:61-80 | one feed answers what the whole stream answers and holds the chunks it holds, or answers nothing, and then what is left reads the same |
| SerialFrame.DecodeLines | src/apex/model/serialframe.py:136-148 | decoding a list of lines is the fold over the lines it spells, refused as incomplete without a trailer |
| SerialFrameLaws.FeedsSettle | src/apex/model/serialframe.py:61-88 | for lines within the limit, the feeds come to the fold over the lines: nothing, the payload exactly once, or the refusal last, with the same chunks held and, while open, the same bytes buffered |
| SerialFrameLaws.FeedSplitInvariance | src/apex/model/serialframe.py:61-88 | two ways of cutting one stream of such lines come to the same verdict and hold the same chunks |
| SerialFrameLaws.FeedsRead | src/apex/model/serialframe.py:61-88 | for every stream and every cut, the feeds answer and hold what the fold over some reading of its lines does: each line whole, or a tail of a long one no shorter than the limit |
| SerialFrameLaws.SomeCutReads | src/apex/model/serialframe.py:61-88 | conversely every such choice of readings is what some cut makes of the stream |
| SerialFrameLaws.CutsAgreeExactly | src/apex/model/serialframe.py:61-88 | every cut comes to one verdict, chunks held included, if and only if every choice of readings folds to it |
| SerialFrameLaws.AnswersAgreeExactly | src/apex/model/serialframe.py:61-88 | every cut gives one answer if and only if every choice of readings says it |
| SerialFrameLaws.LongRunsDependOnTheCut | src/apex/model/serialframe.py:77-80 | with a longer line the answer can depend on the cut: a concrete stream, two cuts, two answers |
| SerialFrameRoundTrip.FoldHearsOnlySignal | src/apex/model/serialframe.py:70-88 | lines with neither prefix, and trailing carriage returns, change nothing |
| SerialFrameRoundTrip.NoisyRoundTrip | src/apex/model/serialframe.py:30-134 | any received lines whose signal begins with an encoding read as its payload, all its chunks held, whatever noise is interleaved |
| SerialFrameRoundTrip.StreamRoundTrip | src/apex/model/serialframe.py:30-134 | the same through a byte stream cut into feeds anywhere, when the signal of whatever may be read of it begins with the encoding: the payload is answered exactly once |
| SerialFrameRoundTrip.QuietStreamRoundTrip | src/apex/model/serialframe.py:30-134 | noise lines of any length are harmless there as long as no tail of a long one that a cut may leave starts with a prefix |
| SerialFrameRoundTrip.AcceptedIsTransferable | src/apex/model/serialframe.py:90-134 | from any input at all, and whether or not the base64 decoder passes over surplus padding, an accepted payload is not empty, within the limit's base64 groups and within six index digits |
| SerialFrameRoundTrip.AcceptedSize | src/apex/model/serialframe.py:51-134 | an accepted payload has at most 3 * ceil(limit / 3) bytes |
| SerialFrameRoundTrip.RoundTripExactly | src/apex/model/serialframe.py:30-148 | decoding an encoding gives the payload if and only if it is transferable |
| SerialFrameRoundTrip.DefaultLimitRoundTrip | src/apex/model/serialframe.py:23-148 | every non-empty payload up to the default limit comes back |
| SerialFrameRoundTrip.EncodedLineFits | src/apex/model/serialframe.py:22-41 | no encoded line is wider than the decoder's line limit |
| SerialFrameExact.VerdictExactly | src/apex/model/serialframe.py:70-134 | of any lines, the answer is this one if and only if the lines heard, read by their grammar, say so: nothing while each goes on with the next index within the limit, else the payload or the reason of the first that does not |
| SerialFrameExact.RefusesExactly | src/apex/model/serialframe.py:90-134 | a line that follows accepted chunks is refused for each reason, checksum mismatch among them, exactly under its condition on the line and those chunks |
| SerialFrameExact.EndsExactly | src/apex/model/serialframe.py:111-134 | it completes the transfer exactly when it is the trailer that counts the chunks and carries the digest of what they decode to |
| SerialFrameExact.FinishedIsSigned | src/apex/model/serialframe.py:129-134 | whatever was held before, a payload is answered only to a trailer carrying its digest |
| SerialFrameExact.CorruptionIsRefused | src/apex/model/serialframe.py:129-134 | chunk lines in turn whose trailer carries another digest are refused as a checksum mismatch, noise or not |
| SerialFrameExact.WrittenLines | src/apex/model/serialframe.py:30-41 | the lines an encoder writes are of that grammar |
| SerialFrameExact.DecodedExactly | src/apex/model/serialframe.py:136-148 | what decoding a list of lines answers, exactly |
| Ordering.List | src/apex/registry/graph.py:31-66 | sorting a set lists exactly its elements once each, in ascending order of code points |
| Ordering.LexLessExactly | src/apex/registry/graph.py:31-66 | strings are ordered by the first place where they differ, a proper prefix first |
| Graph.Producers | src/apex/registry/graph.py:29-39 | maps each fact to its writer, or names the first fact met twice, by id and then by fact, with the unit that wrote it first and the one that met it |
| Graph.Dependencies | src/apex/registry/graph.py:42-55 | each unit waits for exactly the other units that write what it reads beyond the seeds, or the first fact nobody writes is named, in order of declaration and then of facts |
| Graph.Topological | src/apex/registry/graph.py:58-72 | the waves terminate, and end in the order by longest chain and then name, or in the units behind a cycle |
| Graph.Order | src/apex/registry/graph.py:23-26 | each of the four answers comes with what makes it true: the first fact with two writers, the first without one, a cycle and what waits on it, or the closed form of the order |
| Graph.OrdersExactlyAcyclic | src/apex/registry/graph.py:58-72 | given unique writers and none missing, it refuses exactly when the producer relation has a cycle, and orders every acyclic set |
| Graph.AnswersAreExact | src/apex/registry/graph.py:23-72 | each refusal is given if and only if its condition holds, in the order of the checks |
| Graph.AnswerIsUnique | src/apex/registry/graph.py:23-72 | there is one answer, down to the fact and the units a refusal names |
| Graph.NeedsComeFirst | src/apex/registry/graph.py:58-72 | every producer precedes its readers |
| Graph.RankOrderIsUnique | src/apex/registry/graph.py:58-72 | the order by longest chain and then name is unique |
| Graph.RankedMeansAcyclic | src/apex/registry/graph.py:58-72 | an order exists only without a cycle |
| Graph.DeclarationOrderDoesNotMatter | src/apex/registry/graph.py:23-72 | rearranging the declarations keeps the kind of answer, the order, the units of a cycle and, for distinct ids, the fact written twice; the exact conditions for the two refusals follow |
| Graph.MissingExactly | src/apex/registry/graph.py:42-55 | some rearrangement names a unit and a missing fact if and only if it is the least fact a unit of that id reads that nobody writes |
| Graph.SameMissingExactly | src/apex/registry/graph.py:42-55 | every rearrangement names the same pair if and only if all units with a missing fact agree on id and least missing fact |
| Graph.ClashExactly | src/apex/registry/graph.py:29-39 | some rearrangement names a fact and its two writers if and only if that is the first clash of some way to put the units in order of their ids |
| Graph.SameClashExactly | src/apex/registry/graph.py:29-39 | every rearrangement names the same clash if and only if it is the first in every such way |
| Graph.ClashDependsOnDeclaration | src/apex/registry/graph.py:29-39 | three units under one id, two orders of declaration, two facts named as written twice |
| Graph.MissingDependsOnDeclaration | src/apex/registry/graph.py:42-55 | of two units that each read what nobody writes the one declared first is named: two answers, unless id and fact agree |
| Pipeline.PlanOf | src/apex/pipeline/plans.py:22-46 | the stages in the derived order, or the refusal of the order |
| Pipeline.Progress.constructor | src/apex/pipeline/runner.py:32-39 | a run begins with the given facts and nothing recorded |
| Pipeline.Progress.Step | src/apex/pipeline/runner.py:123-145 | one stage is shown the facts so far and recorded, or stops the run, as the specification step says |
| Pipeline.Progress.Unwind | src/apex/pipeline/runner.py:148-151 | the finalisers are released, the last first; an ordinary exception is suppressed and the rest go on, an interrupt ends it and escapes |
| Pipeline.Apply | src/apex/pipeline/runner.py:99-120 | stages skipped at preflight are passed over, the others applied until one stops, then everything is unwound |
| Pipeline.Run | src/apex/pipeline/runner.py:53-62 | the run's ending and everything it did, in order |
| PipelineLaws.Unwinds | src/apex/pipeline/runner.py:99-151 | on every path, escaping exceptions included, the finalisers of recorded advances are each released once in reverse order, after everything else: all of them, or up to and including the first that interrupts |
| PipelineLaws.RaisingChangesNothing | src/apex/pipeline/runner.py:148-151 | a run whose releases raise ordinary exceptions ends as it would without them, and does and releases the same in the same order |
| PipelineLaws.EscapesExactly | src/apex/pipeline/runner.py:53-151 | an exception leaves a run if and only if a preflight or an apply raised, a fact was written twice, or a release interrupted |
| PipelineLaws.RefusingFirstAppliesNothing | src/apex/pipeline/runner.py:72-96 | a preflight that refuses or raises means no apply ran and no fact changed |
| PipelineLaws.ChecksAreAccounted | src/apex/pipeline/runner.py:41-50 | on every returned outcome a check is attested exactly when a stage carrying it advanced, and not tested exactly when one did not |
| PipelineLaws.ChecksAreCovered | src/apex/pipeline/runner.py:41-62 | attested and not tested cover the plan's checks, disjointly when no two stages attest the same check |
| PipelineOutcomes.OutcomeExactly | src/apex/pipeline/runner.py:53-145 | what every returning run did, in order, and what its outcome says: success exactly when no preflight refused and every stage applied went on, then all that are to apply were; a refusal exactly otherwise, for the reason given first; and the facts the last stage left |
| PlanSafety.MappingIsWritten | src/apex/pipeline/facts.py:56-64 | writing new facts keeps the old ones, and gives the new ones their values and their writer |
| PlanSafety.WritesExactly | src/apex/pipeline/facts.py:56-64 | writing succeeds if and only if no fact is there already and none is written twice |
| PlanSafety.ReadIsWrittenEarlier | src/apex/pipeline/plans.py:22-46 | in a derived plan every fact read beyond the seeds is written by an earlier stage |
| PlanSafety.PlanIsSchedulable | src/apex/pipeline/plans.py:22-46 | a derived plan can be read front to back: each stage finds what it reads and writes only what is new |
| PlanSafety.DerivedPlansRunSafely | src/apex/pipeline/runner.py:99-131 | for stages that keep to their declarations, every declared read is present at apply, no fact is written twice, each stays credited to its writer, and no exception escapes unless a release interrupts |
| PlanSafety.PlanIsCompleteExactly | src/apex/pipeline/plans.py:22-46 | the plan holds every declared stage exactly when no two share an id |
| Ledger.Verified | src/apex/attestation/ledger.py:282-320 | the held entries, and the first break by malformed line, sequence, tag, link or head; or that an exception escapes |
| Ledger.Writer.constructor | src/apex/attestation/ledger.py:217-229 | a writer continues from the stored head |
| Ledger.Writer.Append | src/apex/attestation/ledger.py:234-249 | refused for a simulated run with nothing written; otherwise one line is appended, then the head replaced |
| LedgerLaws.HeldIsAPrefix | src/apex/attestation/ledger.py:282-320 | for all lines, what a chain holds every longer chain that can be read holds first |
| LedgerLaws.RaisedExactly | src/apex/attestation/ledger.py:252-320 | reading raises if and only if, everything before it being sound, a line fails to load, holds a right event under an infinite number, or is right up to its number with a tag outside ASCII |
| LedgerLaws.ChainsBind | src/apex/attestation/ledger.py:212-213 | two chains of one length with one last link hold the same documents, or at one place hash two different byte strings to one digest |
| LedgerLaws.HeadBindsTheChain | src/apex/attestation/ledger.py:282-320 | two line sequences intact against one head hold an entry for every line and the same documents in the same order, or collide at one place on what they hash |
| LedgerLaws.TamperingIsReported | src/apex/attestation/ledger.py:282-320 | against the head of an intact chain, lines that hold other documents are not intact, when the hash tells apart the finitely many byte strings the two chains hash |
| LedgerLaws.OtherLengthsAreReported | src/apex/attestation/ledger.py:282-320 | a chain of another length is never intact against that head, whatever the hash |
| LedgerLaws.HeldIsGenuine | src/apex/attestation/ledger.py:282-320 | whatever the lines, every entry held is numbered in turn, linked, and carries the tag the key gives its link |
| LedgerLaws.BreaksExactly | src/apex/attestation/ledger.py:294-315 | after sound lines the break at the next is malformed line, sequence, tag or link if and only if that is what is wrong with it, reported under the right number, with everything before it held |
| LedgerLaws.HeadBreaksExactly | src/apex/attestation/ledger.py:316-320 | with every line sound the only break is a head that does not name the last entry |
| LedgerLaws.ParsesExactly | src/apex/attestation/ledger.py:252-279 | a line parses as this entry if and only if it is within the limit and loads as the entry's own document, the event valid and the link a digest |
| LedgerLaws.LineReadsBack | src/apex/attestation/ledger.py:129-279 | a sealed line reads back as stored exactly up to the line limit, and its link still matches |
| Claims.SatisfiesExactly | src/apex/kernel/claims.py:26-37 | an environment meets itself, a machine booted from a medium also a virtual machine, and a simulation nothing |
| LedgerRuns.RunKeepsConsistent | src/apex/attestation/ledger.py:216-249 | any run of appends and reopenings without a crash keeps file, head and sealed entries in step |
| LedgerRuns.RunKeepsTracked | src/apex/attestation/ledger.py:216-249 | any run with crashes keeps them in step until the first, and then leaves a stale head and a repeated number behind the entry the crash left |
| LedgerRuns.RunsHold | src/apex/attestation/ledger.py:204-320 | after any run from an empty store, with any number of crashes, reading raises nothing, holds exactly what can be read back of the entries up to the first crash, and is intact exactly when that is all, or cut off right behind it, and the head names its last |
| LedgerRuns.RunsReadBack | src/apex/attestation/ledger.py:204-320 | without a crash the chain reads back intact, every entry held, if and only if every line fits and the file, but for its last newline, is within the chain limit |
| LedgerRuns.CrashLosesNothing | src/apex/attestation/ledger.py:241-248 | a crash between the two writes loses no held entry |
| LedgerRuns.CrashIsReported | src/apex/attestation/ledger.py:241-248 | when the chain can be read to its end the new entry is held too and the stale head is reported, except on the first append |
| LedgerRuns.CrashesAreReported | src/apex/attestation/ledger.py:217-320 | after any crashes a chain within the limit reads as intact if and only if it is the one line of a first append |
| LedgerRuns.AfterCrashNothingMoreIsHeld | src/apex/attestation/ledger.py:217-249 | after a crash, whatever is appended later and however often it crashes, what is held stays what it was |
| Minting.ProofStore.constructor | src/apex/attestation/proofs.py:89-92 | a store over an empty area has filed nothing |
| Minting.ProofStore.Absorb | src/apex/attestation/proofs.py:94-101 | an object is filed once under its digest, counted when it is new, and refused citations file nothing |
| Minting.FileAll | src/apex/attestation/minting.py:111-113 | once the offers are judged, filing them all refuses nothing and cites what was intended |
| Minting.Mint | src/apex/attestation/minting.py:91-125 | a refusal leaves store and chain as they were; otherwise every offer is filed and one entry citing them all is appended |
| Minting.MintsExactly | src/apex/attestation/minting.py:41-88 | minting succeeds if and only if the check is declared, witnessed where it must be, its proofs accepted and not empty, and a pass has one |
| Minting.RefusesExactly | src/apex/attestation/minting.py:41-88 | each refusal is given if and only if it is due, in the order of the checks |
| Minting.FilingKeepsNames | src/apex/attestation/proofs.py:94-101 | every object keeps hashing to its own name, and none is replaced |
| Minting.FiledExactly | src/apex/attestation/proofs.py:94-101 | what is filed is what was, and the first offer of each new digest, and nothing else |
| Minting.CitationsLoad | src/apex/attestation/proofs.py:106-129 | every citation loads the bytes offered, or a collision is exhibited; it is intact exactly within the object limit |
| Minting.LoadsExactly | src/apex/attestation/proofs.py:106-129 | a citation loads exactly the object under its digest, when that is as long as cited and hashes to its name |
| Minting.MintKeepsTheChain | src/apex/attestation/minting.py:114-124 | minting grows a consistent chain by exactly one entry and keeps it consistent; the entry is a recorded result with what was asked for, citing every offer in order by its digest |
| SeedImage.Padded | src/apex/generating/seedimage.py:88-92 | whole sectors, at least one, beginning with the payload |
| SeedImageWriting.Put | src/apex/generating/seedimage.py:116-135 | writing a field at its offset extends what the buffer holds and leaves the rest zero |
| SeedImageWriting.WriteDescriptor | src/apex/generating/seedimage.py:116-136 | the fields, each written at its own offset into 2048 bytes, lay the descriptor out in order |
| SeedImageWriting.BuildDirectory | src/apex/generating/seedimage.py:52-60 | one pass builds the directory, the padded bodies and the extent after them, and stops exactly at a number that does not fit 32 bits |
| SeedImageWriting.Image | src/apex/generating/seedimage.py:44-73 | the image, or the refusal that is met first |
| SeedImageLaws.RecordReadsBack | src/apex/generating/seedimage.py:95-107 | a directory record reads back with its extent, length, flags and identifier, whatever follows it |
| SeedImageLaws.RecordLayout | src/apex/generating/seedimage.py:95-107 | a directory record by its offsets and literal values |
| SeedImageLaws.DirectoryReadsBack | src/apex/generating/seedimage.py:52-60 | a directory within a sector reads back as its records |
| SeedImageLaws.DescriptorFields | src/apex/generating/seedimage.py:116-136 | the descriptor holds each field where ECMA-119 puts it |
| SeedImageLaws.TablesReadBack | src/apex/generating/seedimage.py:110-113 | both path tables name the root directory's extent |
| SeedImageLaws.NameReadsBack | src/apex/generating/seedimage.py:76-77 | an identifier gives back the file's name |
| SeedImageLaws.IdentifierIs | src/apex/generating/seedimage.py:76-77 | an identifier is the name in capitals with the version suffix |
| SeedImageLaws.PartsReadBack | src/apex/generating/seedimage.py:63-73 | a reader following descriptor, root record and directory recovers volume and files |
| SeedImageLaws.ImageReadsBack | src/apex/generating/seedimage.py:44-73 | every image made reads back as its volume and exactly its files, and its length is the volume size times 2048 |
| SeedImageLaws.ImageHoldsTheFiles | src/apex/generating/seedimage.py:44-73 | a name and bytes are in the image if and only if the map holds them |
| SeedImageLaws.ExtentsAreDisjoint | src/apex/generating/seedimage.py:54-60 | no two files share a sector, and each stays within its own |
| SeedImageLaws.MadeExactly | src/apex/generating/seedimage.py:44-73 | each answer is given if and only if its condition on names and sizes holds: malformed, numbers that do not fit, or an image |
| SeedImageLaws.MadeWhenItFits | src/apex/generating/seedimage.py:44-73 | well-named files within the sizes are made into an image |
| WideIntegers.BigReadsBack | src/apex/model/screens.py:165 | a row read as a big-endian integer and written back is the row |
| WideIntegers.AndOfMasks | src/apex/model/screens.py:147-148 | the conjunction of two rows of masks as integers is their conjunction byte by byte |
| WideIntegers.DifferingMarks | src/apex/model/screens.py:179-181 | the exclusive or of two rows fits their width and is zero exactly where they agree |
| WideIntegers.WeightedSum | src/apex/model/screens.py:165 | weighted sums of rows carry nothing between bytes when each sum is a byte |
| Screens.ClassesAreThePixels | src/apex/model/screens.py:151-165 | for rows of any width the row-wide computation never overflows and gives each pixel its own class under the thresholds |
| Screens.Swatches | src/apex/model/screens.py:168-174 | counts every fourth row once whose pixel-by-pixel classes match, and no other |
| Screens.SwatchesExactly | src/apex/model/screens.py:168-174 | with a search that finds the pattern whenever it is there, the count is the number of sampled rows whose pixels make up the bars |
| Screens.BarsExactly | src/apex/model/screens.py:62-68 | a row holds the bars if and only if the pattern, piece by piece, matches some part of it |
| Screens.VisibleNeedsRoom | src/apex/model/screens.py:113-115 | bars are visible only on a frame at least 240 wide and 77 high |
| Screens.NextSpan | src/apex/model/screens.py:69-184 | the next maximal run of differing bytes |
| Screens.ChangedPixels | src/apex/model/screens.py:177-196 | looking only at runs of differing bytes counts each moved pixel exactly once, as a look at every pixel would |
| Screens.RowIsItsSlice | src/apex/model/screens.py:97-102 | a row is the slice of the buffer at its index times the stride |
| Screens.SurfaceChangeOf | src/apex/model/screens.py:199-213 | refused for frames of different sizes; otherwise the count of moved pixels below the top bar of the two buffers, and the minimum |
| Screens.SurfaceIsSymmetric | src/apex/model/screens.py:199-213 | the judgement does not depend on which frame came first |
| Screens.TopBarNeverCounts | src/apex/model/screens.py:207-211 | a change confined to the top bar counts nothing |
| Screens.SurfaceExactly | src/apex/model/screens.py:177-213 | the count is the number of pixels below the first forty rows in which a byte moved by twenty or more, against the greater of five thousand and a hundredth of the frame |
| LaunchingLaws.StepIsSafe | src/apex/provisioning/launching.py:36-160 | every single effect, guest exit and death keeps the records, the lock holder's grounds and the named machine |
| LaunchingLaws.OneMachineAtMost | src/apex/provisioning/launching.py:36-160 | over every interleaving without a death of the tool between spawn and root lease, at most one machine lives, and with the lock free the stored unreleased lease names it |
| LaunchingLaws.LaunchIsLetInExactly | src/apex/provisioning/launching.py:163-170 | over every run a launch is let in exactly when whatever is alive was lost in that window; without such a death, exactly when nothing is running |
| LaunchingLaws.OneMachineExactly | src/apex/provisioning/launching.py:36-170 | over every run the record names exactly what is alive if and only if nothing lost is alive, and at most one machine is alive if and only if at most one lost one is, and none beside a machine on record |
| LaunchingLaws.StraysBoundTheRest | src/apex/provisioning/launching.py:58-66 | otherwise there is at most one further machine for each such death |
| LaunchingLaws.DeathInTheWindowAllowsTwo | src/apex/provisioning/launching.py:58-66 | a concrete run with one such death ends with two machines alive |
| LaunchingLaws.OnlyLaunchesChangeTheRun | src/apex/provisioning/launching.py:86-160 | nothing but a launch changes the intent or the run of the stored lease |
| LaunchingLaws.InterruptionIsReportedExactly | src/apex/provisioning/launching.py:145-160 | an interrupted launch is reported orphaned by a reclaim before any further launch exactly when its run was not the stored lease's, or that lease was not released and no reclaim has released it since |
| LaunchingLaws.ResumedRunCanBeMissed | src/apex/provisioning/resuming.py:69-70 | a concrete run in which a resumed run's lost machine is alive and a reclaim reports nothing |
| LaunchingLaws.LeasesWereAsked | src/apex/provisioning/launching.py:49-66 | every lease ever written carries the intent some launch was asked with |
| LaunchingLaws.SimulationsAttestNothing | src/apex/provisioning/launching.py:70-83 | under a simulated hypervisor no lease on record vouches for anything attestable |
| LaunchingLaws.WitnessIsRight | src/apex/provisioning/launching.py:70-83 | what the launching adapter vouches for: a simulation as nothing else, a builder as the build, a test machine as a virtual machine by its medium |
| LaunchingLaws.LaunchRuns | src/apex/provisioning/launching.py:45-67 | a whole launch is intent, spawn, root lease, run lease, and leaves exactly that |
| LaunchingLaws.StopRuns | src/apex/provisioning/launching.py:97-115 | a whole shutdown releases the lease in both places |
| LaunchingLaws.StrikeRuns | src/apex/provisioning/launching.py:126-142 | a whole power loss records the fault, kills, and releases |
| LaunchingLaws.ReclaimRuns | src/apex/provisioning/launching.py:145-160 | a reclaim leaves no stale lease |
| LaunchingHost.Host.constructor | src/apex/provisioning/leases.py:134-141 | a fresh runtime root holds no intent and no lease |
| LaunchingHost.Host.Current | src/apex/provisioning/launching.py:86-91 | the stored lease when it is unreleased and its machine runs |
| LaunchingHost.Host.WriteLease | src/apex/provisioning/leases.py:127-131 | both writes of a lease |
| LaunchingHost.Host.Launch | src/apex/provisioning/launching.py:36-67 | refuses beside a running machine or without capacity and changes nothing; a failed spawn leaves the intent alone; else the whole new state |
| LaunchingHost.Host.Shutdown | src/apex/provisioning/launching.py:94-115 | the answer and new state for a monitor that cannot be reached and for a guest that stops, ignores, stops late, or is gone |
| LaunchingHost.Host.PowerLoss | src/apex/provisioning/launching.py:118-142 | only the owned disposable machine is struck, the fault recorded first; a machine that is gone is not signalled |
| LaunchingHost.Host.Reclaim | src/apex/provisioning/launching.py:145-160 | what was found before anything is written, and a stale lease released |
| Trace.Recorder.constructor | src/apex/verification/fingerprinttrace.py:121-129 | a trace begins empty |
| Trace.Recorder.Feed | src/apex/verification/fingerprinttrace.py:131-147 | one message updates the five collections and answers as specified, the timestamp looked at last |
| Trace.Recorder.NoteCall | src/apex/verification/fingerprinttrace.py:172-196 | a call is ignored, refused, or opened under client and serial |
| Trace.Recorder.NoteReply | src/apex/verification/fingerprinttrace.py:198-240 | a reply closes the open call and moves ownership as its method and outcome say |
| Trace.Recorder.NoteSignal | src/apex/verification/fingerprinttrace.py:242-266 | status signals leave ownership alone |
| Trace.Recorder.NoteOwnerChange | src/apex/verification/fingerprinttrace.py:268-282 | a client that leaves is recorded; a daemon that changes hands clears owners and open calls |
| TraceLaws.HandleIsSeen | src/apex/verification/fingerprinttrace.py:172-282 | whatever a message changes, its event tells |
| TraceLaws.NewsIsSeen | src/apex/verification/fingerprinttrace.py:172-282 | an event changes the replay unless it is a status, a call open already in the same words, the leaving of a client gone already, or a daemon's change with nothing open or owned |
| TraceLaws.FedIsToldExactly | src/apex/verification/fingerprinttrace.py:131-147 | a message keeps the state equal to a replay of the events if and only if it yields none, carries a time, or its event, by its kind, repeats what the replay holds |
| TraceLaws.CaptureIsTold | src/apex/verification/fingerprinttrace.py:131-293 | over every sequence of timed messages owners, open calls, clients and disconnected equal a replay of the kept events |
| TraceLaws.OpenWasCalled | src/apex/verification/fingerprinttrace.py:189-210 | an open call was opened by an event nothing has answered, repeated or cleared since |
| TraceLaws.RepliesConsumeCalls | src/apex/verification/fingerprinttrace.py:198-218 | every reply event consumes exactly one earlier call with its client, serial, method and device, and no call is consumed twice |
| TraceLaws.OwnerClaimedLast | src/apex/verification/fingerprinttrace.py:219-240 | a reported owner claimed the device last and nothing has given it up since |
| TraceHistory.OwnerExactly | src/apex/verification/fingerprinttrace.py:219-282 | a device is reported as a client's if and only if that client claimed it and since then nobody claimed it, the client has not released it and the daemon has not changed |
| TraceHistory.KnownExactly | src/apex/verification/fingerprinttrace.py:198-282 | a device is listed at all if and only if it was claimed under this daemon |
| TraceHistory.OpenExactly | src/apex/verification/fingerprinttrace.py:189-282 | a call is open if and only if an event opened it that nothing has touched since |
| TraceHistory.ClientsExactly | src/apex/verification/fingerprinttrace.py:172-282 | the clients are those that called, the disconnected those seen leaving |
| TraceHistory.NotesAreTrue | src/apex/verification/fingerprinttrace.py:227-240 | every reply is noted as its history says: whose the device was, whether that client had left, whether the caller was the owner |
| TraceHistory.CallsExactly | src/apex/verification/fingerprinttrace.py:172-196 | a message yields a call event if and only if its fields are that call, and then opens exactly it |
| TraceHistory.RepliesExactly | src/apex/verification/fingerprinttrace.py:198-225 | a message yields a reply event if and only if the call is open and it answers it |
| TraceHistory.ReplyCloses | src/apex/verification/fingerprinttrace.py:198-233 | a reply names the call it closes, and a denial keeps the daemon's own error name |
| TraceHistory.StatusesExactly | src/apex/verification/fingerprinttrace.py:242-266 | a message yields a status event if and only if it is a status signal with its two values |
| TraceHistory.DeparturesExactly | src/apex/verification/fingerprinttrace.py:268-277 | a client leaves if and only if it is known and its own name lost its owner |
| TraceHistory.DaemonChangesExactly | src/apex/verification/fingerprinttrace.py:268-282 | the daemon changes if and only if its name changed hands between unique names or none |
| TraceHistory.RefusedExactly | src/apex/verification/fingerprinttrace.py:131-147 | a message is refused as malformed if and only if it is wrong in one of the listed ways, and then changes nothing |
| TraceHistory.KeptExactly | src/apex/verification/fingerprinttrace.py:284-293 | an event is kept under a time if and only if its message carries that positive number |
| TraceLaws.UntimedCallIsUntold | src/apex/verification/fingerprinttrace.py:284-290 | a concrete message without a time leaves an open call no event tells of |
| TraceCapture.Consume | src/apex/verification/fingerprinttrace.py:312-334 | the transcript is read line by line under the raw, line, error and event limits |
| TraceCapture.ConsumedIsBounded | src/apex/verification/fingerprinttrace.py:312-334 | from any transcript at most 2000 events and 20 faults, and the kept lines are exactly the events in order |
| TraceCapture.ConsumedIsTold | src/apex/verification/fingerprinttrace.py:312-334 | a transcript whose own messages all carry a time leaves a state its events tell |
| TraceCapture.Capture | src/apex/verification/fingerprinttrace.py:337-367 | the lines of the capture's file and whether it counts as observed, a message cut short at the end counted as a fault |
| TraceCapture.CaptureIsBounded | src/apex/verification/fingerprinttrace.py:312-354 | a capture holds at most 2000 events and 21 faults, and its file holds exactly its events |
| TraceCapture.ObservedIsWhole | src/apex/verification/fingerprinttrace.py:149-155 | an observed capture was not cut short, and with timed messages its state is what its file tells |
| TraceCapture.CleanExactly | src/apex/verification/fingerprinttrace.py:312-334 | no fault is recorded if and only if every line that holds something is within the limits, parses and is not refused, and then every message was fed |
| TraceCapture.ObservedExactly | src/apex/verification/fingerprinttrace.py:149-155 | a capture is summarised as observed if and only if it was read to its end without a fault, left no call open and told of something |
| TraceLaws.StaysOpen | src/apex/verification/fingerprinttrace.py:149-160 | a call stays open until an event touches it |
| TraceCapture.ObservedLeavesNoneOpen | src/apex/verification/fingerprinttrace.py:149-155 | a capture summarised as observed left no call unanswered |
| Readiness.OneRecordPerKnownCheck | src/apex/attestation/readiness.py:85-104 | the first record of each known check, and a fault for every other record |
| Readiness.StateEveryCheck | src/apex/attestation/readiness.py:107-129 | a verdict for every required check, in order, with its faults |
| Readiness.Counts | src/apex/attestation/readiness.py:132-136 | the counts by stored name |
| Readiness.Evaluate | src/apex/attestation/readiness.py:139-159 | the whole outcome |
| Readiness.Retract | src/apex/attestation/retracting.py:31-54 | the narrowed outcome and what was withheld, in order |
| ReadinessLaws.ReadingIsClean | src/apex/attestation/readiness.py:85-104 | no fault exactly when the records are of known checks, one each |
| ReadinessLaws.SeenExactly | src/apex/attestation/readiness.py:85-104 | the record seen for a known check is its first |
| ReadinessLaws.StatementIsSpotless | src/apex/attestation/readiness.py:107-129 | every check permits, without fault or imported record, exactly when each requirement is met |
| ReadinessLaws.JudgedExactly | src/apex/attestation/readiness.py:55-82 | a record's verdict stands unless it is unbound, altered, inadequate or unproven, in that order; then it is blocked with that fault |
| ReadinessLaws.VerdictExactly | src/apex/attestation/readiness.py:107-159 | each check of the catalogue is stated, in order, as its first record is judged, or as not tested |
| ReadinessLaws.FaultsExactly | src/apex/attestation/readiness.py:85-159 | the faults are those of the records in their order, then those of the checks in the catalogue's |
| ReadinessLaws.ReadyExactly | src/apex/attestation/readiness.py:55-159 | ready if and only if there is a candidate, the catalogue is not empty, and records and checks match one to one, each bound, intact, adequate, passed with proof and not imported |
| ReadinessLaws.ReadyInAnyOrder | src/apex/attestation/readiness.py:139-159 | the order of the records does not matter |
| ReadinessLaws.OneMoreDestroys | src/apex/attestation/readiness.py:85-159 | any record added anywhere destroys readiness |
| ReadinessLaws.OneFewerDestroys | src/apex/attestation/readiness.py:116-159 | so does any record removed |
| ReadinessLaws.CountsTally | src/apex/attestation/readiness.py:132-136 | each verdict is counted once under its stored name |
| ReadinessLaws.RetractKeepsFindings | src/apex/attestation/retracting.py:31-54 | strict readiness erases no finding, permits nothing new, and withholds only imported permissions |
| ReadinessLaws.WithheldExactly | src/apex/attestation/retracting.py:37-42 | exactly the imported permissions are withheld |
| ReadinessLaws.StrictLeavesReadyAlone | src/apex/attestation/retracting.py:31-54 | over attestations of the records decided from, being strict leaves ready unchanged |
| ReadinessLaws.StrictlyReadyExactly | src/apex/attestation/retracting.py:31-54 | strict readiness is readiness without an imported check among the verdicts, and the counts are of what is then stated |
| ReadinessLaws.WithheldInOrder | src/apex/attestation/retracting.py:37-42 | what is withheld keeps the order of the verdicts |
| GitReading.ScanAll | src/apex/workspace/gitreading.py:109-119 | the loop over the batch finds what the recursive scan finds |
| GitReading.Contents | src/apex/workspace/gitreading.py:95-126 | nothing for no names; refused for a failed or cut answer or an absent name; else every object |
| GitReading.Sizes | src/apex/workspace/gitreading.py:68-92 | the same for sizes |
| GitReading.BatchReadsBack | src/apex/workspace/gitreading.py:109-119 | for every list of objects with any bytes, newlines and header-like text among them, parsing git's batch gives exactly their bytes |
| GitReading.CutInHeader | src/apex/workspace/gitreading.py:109-119 | an answer that ends inside a header makes reading raise |
| GitReading.CutInBody | src/apex/workspace/gitreading.py:109-119 | an answer that ends inside a body gives that object short, without a sign |
| GitReading.NoNumber | src/apex/workspace/gitreading.py:114-117 | a header whose third word is no number makes reading raise |
| GitReading.OtherLinesArePassed | src/apex/workspace/gitreading.py:114-116 | a line of fewer or more than three words is passed over |
| GitReading.WholeExactly | src/apex/workspace/gitreading.py:120-126 | the read is whole if and only if every requested name was found; one answered only as missing refuses it whole |
| GitReading.ObjectOf | src/apex/workspace/gitreading.py:118 | the object of a name is the bytes git answered for it |
| GitReading.SizesReadBack | src/apex/workspace/gitreading.py:81-85 | parsing the answer for sizes gives exactly each object's size |
| GitReading.SizesAreLengths | src/apex/workspace/gitreading.py:68-126 | the two reads agree: sizes are the lengths of the bytes |

## Left out

- The real adapters, the guest scripts, generated text, command-line dispatch, configuration, lock parsers and acceptance checks: foreign calls, or claims settled by reading one branch.
- Refusal texts, subjects and remedies: only the reason of a refusal is modelled.
- Paths, file modes, stamps and atomic replacement itself: each write of a record is one step.
- SHA-256, HMAC and JSON: parameters. Chain binding names the place where two chains would have to collide instead of assuming that they do not; canonical rendering is assumed injective, and a rendered line to read back whole and not at all when cut short.
- SerialFrame.FrameDecoder.Feed: takes ceil(limit / 3) exactly, where the source divides in floating point.
- Ledger.Verified: coercions of JSON values (a sequence written as text, a stamp that is not text) are not modelled but for an infinite number, nor is an unreadable head record or key.
- Pipeline.Run: an interrupt that arrives between two calls, rather than out of one, is not modelled; nor is the planning bundle that forbids acting during preflight.
- SeedImage.Title: names outside ASCII never reach it, since the two patterns refuse them.
- Screens.Swatches: the regular-expression engine is a parameter; what a match is, `Screens.HasBars`, is defined. The PPM header parser is not part of this model.
- LaunchingHost.Host.Launch: the capacity check is one answer, and a malformed record in the runtime root is not modelled; spawning is assumed to yield an identity never used before and to leave nothing alive when it fails, and a run to name its own run directory.
- LaunchingHost.Host.Shutdown: a monitor that answers but fails the powerdown command is not told from one that cannot be reached; the lease a caller holds is one an earlier launch wrote.
- Trace.Recorder.Feed: the process looked up behind a client and the monotonic clock are not modelled; texts of JSON values that are not strings are taken to equal no bus name.
- TraceCapture.Consume: a parser that fails other than by a value error is not modelled.
- GitReading.Contents: splitting at white space and reading a decimal number are parameters, shown for ASCII words and digits; negative sizes, which git never prints, are not modelled.

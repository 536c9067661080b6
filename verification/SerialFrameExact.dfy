/** Exactly which lines make the decoder answer what: the lines it hears are read by their grammar,
    and every answer, each refusal among them, has its condition over them. */
module SerialFrameExact {
  import opened Bytes
  import Base64
  import opened SerialFrame
  import opened SerialFrameLaws
  import opened SerialFrameRoundTrip

  // ----- the grammar of a line -----

  /** A number and a field, as they follow a prefix. */
  ghost predicate Spells(rest: Bytes, number: nat, field: Bytes) {
    exists text :: IsIndexText(text) && ParseDecimal(text) == number && rest == text + [SEPARATOR] + field
  }

  ghost predicate IsChunkLine(codec: Codec, line: Bytes, index: nat, chunk: Bytes) {
    && IsChunkText(chunk) && |chunk| <= CHUNK
    && exists rest :: line == codec.ChunkPrefix() + rest && Spells(rest, index, chunk)
  }

  ghost predicate IsTrailerLine(codec: Codec, line: Bytes, count: nat, digest: Bytes) {
    IsDigest(digest) && exists rest :: line == codec.TrailerPrefix() + rest && Spells(rest, count, digest)
  }

  /** A line the decoder hears and cannot read. */
  ghost predicate IsGarbled(codec: Codec, line: Bytes) {
    && IsSignal(codec, line)
    && (forall index, chunk :: !IsChunkLine(codec, line, index, chunk))
    && (forall count, digest :: !IsTrailerLine(codec, line, count, digest))
  }

  lemma SpelledSplits(text: Bytes, field: Bytes)
    requires IsIndexText(text)
    ensures var rest := text + [SEPARATOR] + field;
            var at := IndexOf(rest, SEPARATOR);
            at < |rest| && rest[..at] == text && rest[at + 1..] == field
  {
    var rest := text + [SEPARATOR] + field;
    assert rest[..|text|] == text;
    IndexOfFirst(rest, SEPARATOR, |text|);
  }

  lemma SplitAt(rest: Bytes, at: nat)
    requires at < |rest| && rest[at] == SEPARATOR
    ensures rest == rest[..at] + [SEPARATOR] + rest[at + 1..]
  {
  }

  /** What is split at the first separator, when a number and a separator come first. */
  predicate SplitsInto(rest: Bytes, number: nat, field: Bytes) {
    var at := IndexOf(rest, SEPARATOR);
    at < |rest| && IsIndexText(rest[..at]) && ParseDecimal(rest[..at]) == number && field == rest[at + 1..]
  }

  lemma SpellsExactly(rest: Bytes, number: nat, field: Bytes)
    ensures Spells(rest, number, field) <==> SplitsInto(rest, number, field)
  {
    if Spells(rest, number, field) {
      var text :| IsIndexText(text) && ParseDecimal(text) == number && rest == text + [SEPARATOR] + field;
      SpelledSplits(text, field);
    }
    if SplitsInto(rest, number, field) {
      SplitAt(rest, IndexOf(rest, SEPARATOR));
    }
  }

  lemma ChunkLineRest(codec: Codec, line: Bytes, index: nat, chunk: Bytes)
    ensures IsChunkLine(codec, line, index, chunk) <==>
            StartsWith(line, codec.ChunkPrefix()) && IsChunkText(chunk) && |chunk| <= CHUNK
            && Spells(line[|codec.ChunkPrefix()|..], index, chunk)
  {
    var prefix := codec.ChunkPrefix();
    if StartsWith(line, prefix) {
      assert line == prefix + line[|prefix|..];
    }
    if IsChunkLine(codec, line, index, chunk) {
      var rest :| line == prefix + rest && Spells(rest, index, chunk);
      assert line[..|prefix|] == prefix && line[|prefix|..] == rest;
    }
  }

  lemma TrailerLineRest(codec: Codec, line: Bytes, count: nat, digest: Bytes)
    ensures IsTrailerLine(codec, line, count, digest) <==>
            StartsWith(line, codec.TrailerPrefix()) && IsDigest(digest)
            && Spells(line[|codec.TrailerPrefix()|..], count, digest)
  {
    var prefix := codec.TrailerPrefix();
    if StartsWith(line, prefix) {
      assert line == prefix + line[|prefix|..];
    }
    if IsTrailerLine(codec, line, count, digest) {
      var rest :| line == prefix + rest && Spells(rest, count, digest);
      assert line[..|prefix|] == prefix && line[|prefix|..] == rest;
    }
  }

  /** No line starts with both prefixes. */
  lemma OnePrefix(codec: Codec, line: Bytes)
    ensures !(StartsWith(line, codec.ChunkPrefix()) && StartsWith(line, codec.TrailerPrefix()))
  {
    if StartsWith(line, codec.ChunkPrefix()) {
      assert line[..|codec.ChunkPrefix()|][4] == codec.ChunkPrefix()[4] == 76;
    }
    if StartsWith(line, codec.TrailerPrefix()) {
      assert line[..|codec.TrailerPrefix()|][4] == codec.TrailerPrefix()[4] == 69;
    }
  }

  // ----- what is heard of a line -----

  datatype Heard = Garbled | ChunkOf(index: nat, chunk: Bytes) | TrailerOf(count: nat, digest: Bytes)

  function HearChunk(rest: Bytes): Heard {
    var at := IndexOf(rest, SEPARATOR);
    if at == |rest| || !IsIndexText(rest[..at]) || !IsChunkText(rest[at + 1..]) || |rest[at + 1..]| > CHUNK then Garbled
    else ChunkOf(ParseDecimal(rest[..at]), rest[at + 1..])
  }

  function HearTrailer(rest: Bytes): Heard {
    var at := IndexOf(rest, SEPARATOR);
    if at == |rest| || !IsIndexText(rest[..at]) || !IsDigest(rest[at + 1..]) then Garbled
    else TrailerOf(ParseDecimal(rest[..at]), rest[at + 1..])
  }

  function Hear(codec: Codec, line: Bytes): Heard
    requires IsSignal(codec, line)
  {
    if StartsWith(line, codec.ChunkPrefix()) then HearChunk(line[|codec.ChunkPrefix()|..])
    else HearTrailer(line[|codec.TrailerPrefix()|..])
  }

  lemma HearsChunks(codec: Codec, line: Bytes, index: nat, chunk: Bytes)
    requires IsSignal(codec, line)
    ensures IsChunkLine(codec, line, index, chunk) <==> Hear(codec, line) == ChunkOf(index, chunk)
  {
    ChunkLineRest(codec, line, index, chunk);
    if StartsWith(line, codec.ChunkPrefix()) {
      SpellsExactly(line[|codec.ChunkPrefix()|..], index, chunk);
    }
  }

  lemma HearsTrailers(codec: Codec, line: Bytes, count: nat, digest: Bytes)
    requires IsSignal(codec, line)
    ensures IsTrailerLine(codec, line, count, digest) <==> Hear(codec, line) == TrailerOf(count, digest)
  {
    OnePrefix(codec, line);
    TrailerLineRest(codec, line, count, digest);
    if StartsWith(line, codec.TrailerPrefix()) {
      SpellsExactly(line[|codec.TrailerPrefix()|..], count, digest);
    }
  }

  /** What is heard is what the grammar says, and nothing else. */
  lemma HearsExactly(codec: Codec, line: Bytes)
    requires IsSignal(codec, line)
    ensures forall index, chunk ::
              IsChunkLine(codec, line, index, chunk) <==> Hear(codec, line) == ChunkOf(index, chunk)
    ensures forall count, digest ::
              IsTrailerLine(codec, line, count, digest) <==> Hear(codec, line) == TrailerOf(count, digest)
    ensures IsGarbled(codec, line) <==> Hear(codec, line) == Garbled
  {
    forall index, chunk
      ensures IsChunkLine(codec, line, index, chunk) <==> Hear(codec, line) == ChunkOf(index, chunk)
    {
      HearsChunks(codec, line, index, chunk);
    }
    forall count, digest
      ensures IsTrailerLine(codec, line, count, digest) <==> Hear(codec, line) == TrailerOf(count, digest)
    {
      HearsTrailers(codec, line, count, digest);
    }
  }

  /** The step for what is heard. */
  lemma ConsumeHeard(codec: Codec, frame: Frame, line: Bytes)
    requires IsSignal(codec, line)
    ensures var step := Consume(codec, frame, line);
            match Hear(codec, line)
            case Garbled => step == Refused(Malformed, frame)
            case ChunkOf(index, chunk) =>
              step == (if index != |frame.chunks| then Refused(OutOfOrder, frame)
                       else if frame.size + |chunk| > codec.EncodedLimit() then
                         Refused(LimitExceeded, Frame(frame.chunks, frame.size + |chunk|))
                       else More(Frame(frame.chunks + [chunk], frame.size + |chunk|)))
            case TrailerOf(count, digest) =>
              var payload := Base64.Accept(Concat(frame.chunks), codec.lenient);
              step == (if count == 0 || count != |frame.chunks| then Refused(Incomplete, frame)
                       else if payload.None? then Refused(Malformed, frame)
                       else if digest != codec.digest(payload.value) then Refused(ChecksumMismatch, frame)
                       else Complete(payload.value))
  {
    OnePrefix(codec, line);
    if StartsWith(line, codec.ChunkPrefix()) {
      assert !IsChunkText([]);
    } else {
      assert !IsDigest([]);
    }
  }

  // ----- every answer -----

  function FrameOf(chunks: seq<Bytes>): Frame {
    Frame(chunks, |Concat(chunks)|)
  }

  function Decodes(codec: Codec, chunks: seq<Bytes>): Option<Bytes> {
    Base64.Accept(Concat(chunks), codec.lenient)
  }

  /** A line that follows the chunks taken so far takes one more. */
  ghost predicate Goes(codec: Codec, chunks: seq<Bytes>, line: Bytes, chunk: Bytes) {
    IsChunkLine(codec, line, |chunks|, chunk) && |Concat(chunks)| + |chunk| <= codec.EncodedLimit()
  }

  ghost predicate Ends(codec: Codec, chunks: seq<Bytes>, line: Bytes, payload: Bytes) {
    && chunks != [] && Decodes(codec, chunks) == Some(payload)
    && IsTrailerLine(codec, line, |chunks|, codec.digest(payload))
  }

  /** A line that follows the chunks taken so far is refused for this reason. */
  ghost predicate Refuses(codec: Codec, chunks: seq<Bytes>, line: Bytes, reason: Reason) {
    match reason
    case Malformed =>
      IsGarbled(codec, line)
      || (chunks != [] && Decodes(codec, chunks) == None && exists d :: IsTrailerLine(codec, line, |chunks|, d))
    case OutOfOrder => exists index, chunk :: IsChunkLine(codec, line, index, chunk) && index != |chunks|
    case LimitExceeded =>
      exists chunk :: IsChunkLine(codec, line, |chunks|, chunk) && |Concat(chunks)| + |chunk| > codec.EncodedLimit()
    case Incomplete =>
      exists count, d :: IsTrailerLine(codec, line, count, d) && (count == 0 || count != |chunks|)
    case ChecksumMismatch =>
      && chunks != [] && Decodes(codec, chunks).Some?
      && exists d :: IsTrailerLine(codec, line, |chunks|, d) && d != codec.digest(Decodes(codec, chunks).value)
  }

  lemma ConcatOneMore(chunks: seq<Bytes>, chunk: Bytes)
    ensures FrameOf(chunks + [chunk]) == Frame(chunks + [chunk], |Concat(chunks)| + |chunk|)
  {
    ConcatAppend(chunks, [chunk]);
    ConcatOne(chunk);
  }

  lemma GoesExactly(codec: Codec, chunks: seq<Bytes>, line: Bytes)
    requires IsSignal(codec, line)
    ensures var step := Consume(codec, FrameOf(chunks), line);
            && (forall chunk :: Goes(codec, chunks, line, chunk) ==> step == More(FrameOf(chunks + [chunk])))
            && (step.More? ==> exists chunk :: Goes(codec, chunks, line, chunk))
  {
    HearsExactly(codec, line);
    ConsumeHeard(codec, FrameOf(chunks), line);
    forall chunk | Goes(codec, chunks, line, chunk)
      ensures Consume(codec, FrameOf(chunks), line) == More(FrameOf(chunks + [chunk]))
    {
      ConcatOneMore(chunks, chunk);
    }
    if Consume(codec, FrameOf(chunks), line).More? {
      assert Goes(codec, chunks, line, Hear(codec, line).chunk);
    }
  }

  lemma EndsExactly(codec: Codec, chunks: seq<Bytes>, line: Bytes, payload: Bytes)
    requires IsSignal(codec, line)
    ensures Consume(codec, FrameOf(chunks), line) == Complete(payload) <==> Ends(codec, chunks, line, payload)
  {
    HearsExactly(codec, line);
    ConsumeHeard(codec, FrameOf(chunks), line);
  }

  /** The same, from what is heard. */
  predicate RefusesHeard(codec: Codec, chunks: seq<Bytes>, heard: Heard, reason: Reason) {
    match heard
    case Garbled => reason == Malformed
    case ChunkOf(index, chunk) =>
      if index != |chunks| then reason == OutOfOrder
      else reason == LimitExceeded && |Concat(chunks)| + |chunk| > codec.EncodedLimit()
    case TrailerOf(count, digest) =>
      if count == 0 || count != |chunks| then reason == Incomplete
      else if Decodes(codec, chunks).None? then reason == Malformed
      else reason == ChecksumMismatch && digest != codec.digest(Decodes(codec, chunks).value)
  }

  lemma StepRefuses(codec: Codec, chunks: seq<Bytes>, line: Bytes, reason: Reason)
    requires IsSignal(codec, line)
    ensures var step := Consume(codec, FrameOf(chunks), line);
            (step.Refused? && step.reason == reason) <==> RefusesHeard(codec, chunks, Hear(codec, line), reason)
  {
    ConsumeHeard(codec, FrameOf(chunks), line);
  }

  lemma RefusesGarbled(codec: Codec, chunks: seq<Bytes>, line: Bytes, reason: Reason)
    requires IsSignal(codec, line) && Hear(codec, line) == Garbled
    ensures Refuses(codec, chunks, line, reason) <==> reason == Malformed
  {
    HearsExactly(codec, line);
  }

  /** A chunk line is one chunk line and nothing else; so is a trailer. */
  lemma OnlyThatChunk(codec: Codec, line: Bytes)
    requires IsSignal(codec, line) && Hear(codec, line).ChunkOf?
    ensures IsChunkLine(codec, line, Hear(codec, line).index, Hear(codec, line).chunk)
    ensures forall i, c | IsChunkLine(codec, line, i, c) :: i == Hear(codec, line).index && c == Hear(codec, line).chunk
    ensures forall count, digest :: !IsTrailerLine(codec, line, count, digest)
    ensures !IsGarbled(codec, line)
  {
    HearsExactly(codec, line);
  }

  lemma OnlyThatTrailer(codec: Codec, line: Bytes)
    requires IsSignal(codec, line) && Hear(codec, line).TrailerOf?
    ensures IsTrailerLine(codec, line, Hear(codec, line).count, Hear(codec, line).digest)
    ensures forall n, d | IsTrailerLine(codec, line, n, d) ::
              n == Hear(codec, line).count && d == Hear(codec, line).digest
    ensures forall index, chunk :: !IsChunkLine(codec, line, index, chunk)
    ensures !IsGarbled(codec, line)
  {
    HearsExactly(codec, line);
  }

  lemma RefusesChunk(codec: Codec, chunks: seq<Bytes>, line: Bytes, reason: Reason)
    requires IsSignal(codec, line) && Hear(codec, line).ChunkOf?
    ensures Refuses(codec, chunks, line, reason) <==> RefusesHeard(codec, chunks, Hear(codec, line), reason)
  {
    OnlyThatChunk(codec, line);
  }

  lemma RefusesTrailer(codec: Codec, chunks: seq<Bytes>, line: Bytes, reason: Reason)
    requires IsSignal(codec, line) && Hear(codec, line).TrailerOf?
    ensures Refuses(codec, chunks, line, reason) <==> RefusesHeard(codec, chunks, Hear(codec, line), reason)
  {
    OnlyThatTrailer(codec, line);
  }

  lemma RefusesAsHeard(codec: Codec, chunks: seq<Bytes>, line: Bytes, reason: Reason)
    requires IsSignal(codec, line)
    ensures Refuses(codec, chunks, line, reason) <==> RefusesHeard(codec, chunks, Hear(codec, line), reason)
  {
    match Hear(codec, line)
    case Garbled => RefusesGarbled(codec, chunks, line, reason);
    case ChunkOf(_, _) => RefusesChunk(codec, chunks, line, reason);
    case TrailerOf(_, _) => RefusesTrailer(codec, chunks, line, reason);
  }

  lemma RefusesExactly(codec: Codec, chunks: seq<Bytes>, line: Bytes, reason: Reason)
    requires IsSignal(codec, line)
    ensures var step := Consume(codec, FrameOf(chunks), line);
            (step.Refused? && step.reason == reason) <==> Refuses(codec, chunks, line, reason)
  {
    StepRefuses(codec, chunks, line, reason);
    RefusesAsHeard(codec, chunks, line, reason);
  }

  // ----- the verdict on any lines -----

  /** The first lines each go on from those before them, and give these chunks. */
  ghost predicate GoOn(codec: Codec, signal: seq<Bytes>, chunks: seq<Bytes>) {
    && |chunks| <= |signal|
    && forall k | 0 <= k < |chunks| :: Goes(codec, chunks[..k], signal[k], chunks[k])
  }

  /** What the decoder answers to the lines it hears: nothing while they all go on; the payload, or
      the refusal, at the first that does not. */
  ghost predicate Answers(codec: Codec, signal: seq<Bytes>, said: Answer) {
    exists chunks :: GoOn(codec, signal, chunks) && StopsWith(codec, signal, chunks, said)
  }

  ghost predicate StopsWith(codec: Codec, signal: seq<Bytes>, chunks: seq<Bytes>, said: Answer)
    requires |chunks| <= |signal|
  {
    match said
    case Nothing => |chunks| == |signal|
    case Payload(payload) => |chunks| < |signal| && Ends(codec, chunks, signal[|chunks|], payload)
    case Raised(reason) => |chunks| < |signal| && Refuses(codec, chunks, signal[|chunks|], reason)
  }

  /** Every line heard is a signal, as those left of a stream are. */
  predicate AllSignals(codec: Codec, signal: seq<Bytes>) {
    forall k | 0 <= k < |signal| :: IsSignal(codec, signal[k]) && Rstrip(signal[k]) == signal[k]
  }

  lemma GoOnMore(codec: Codec, signal: seq<Bytes>, chunks: seq<Bytes>, chunk: Bytes)
    requires GoOn(codec, signal, chunks) && |chunks| < |signal| && Goes(codec, chunks, signal[|chunks|], chunk)
    ensures GoOn(codec, signal, chunks + [chunk])
  {
    var all := chunks + [chunk];
    forall k | 0 <= k < |all|
      ensures Goes(codec, all[..k], signal[k], all[k])
    {
      assert all[..k] == chunks[..k];
      assert k == |chunks| ==> chunks[..k] == chunks;
    }
  }

  /** A line that goes on is folded over. */
  lemma FoldGoes(codec: Codec, signal: seq<Bytes>, taken: seq<Bytes>, chunk: Bytes)
    requires AllSignals(codec, signal) && |taken| < |signal| && Goes(codec, taken, signal[|taken|], chunk)
    ensures FoldLines(codec, FrameOf(taken), signal[|taken|..])
            == FoldLines(codec, FrameOf(taken + [chunk]), signal[|taken| + 1..])
  {
    var line, rest := signal[|taken|], signal[|taken| + 1..];
    assert signal[|taken|..] == [line] + rest;
    GoesExactly(codec, taken, line);
    FoldOfMore(codec, FrameOf(taken), line, rest);
  }

  /** One that does not ends the fold. */
  lemma FoldStops(codec: Codec, signal: seq<Bytes>, taken: seq<Bytes>)
    requires AllSignals(codec, signal) && |taken| < |signal|
    requires forall chunk :: !Goes(codec, taken, signal[|taken|], chunk)
    ensures var verdict := FoldLines(codec, FrameOf(taken), signal[|taken|..]);
            StopsWith(codec, signal, taken, Said(verdict)) && verdict.frame.chunks == taken
  {
    var line, rest := signal[|taken|], signal[|taken| + 1..];
    var step := Consume(codec, FrameOf(taken), line);
    assert signal[|taken|..] == [line] + rest;
    GoesExactly(codec, taken, line);
    FoldOfMore(codec, FrameOf(taken), line, rest);
    if step.Complete? {
      EndsExactly(codec, taken, line, step.payload);
    } else {
      RefusesExactly(codec, taken, line, step.reason);
      RefusedHolds(codec, FrameOf(taken), line);
    }
  }

  /** Folding on from lines that go on: what is answered in the end, with the chunks held. */
  lemma {:induction false} FoldAnswers(codec: Codec, signal: seq<Bytes>, taken: seq<Bytes>) returns (chunks: seq<Bytes>)
    requires AllSignals(codec, signal) && GoOn(codec, signal, taken)
    ensures GoOn(codec, signal, chunks)
    ensures var verdict := FoldLines(codec, FrameOf(taken), signal[|taken|..]);
            StopsWith(codec, signal, chunks, Said(verdict)) && verdict.frame.chunks == chunks
    decreases |signal| - |taken|
  {
    chunks := taken;
    if |taken| < |signal| {
      if chunk :| Goes(codec, taken, signal[|taken|], chunk) {
        FoldGoes(codec, signal, taken, chunk);
        GoOnMore(codec, signal, taken, chunk);
        chunks := FoldAnswers(codec, signal, taken + [chunk]);
      } else {
        FoldStops(codec, signal, taken);
      }
    }
  }

  lemma RefusedHolds(codec: Codec, frame: Frame, line: Bytes)
    requires Consume(codec, frame, line).Refused?
    ensures Consume(codec, frame, line).frame.chunks == frame.chunks
  {
  }

  lemma {:induction false} SignalsAre(codec: Codec, lines: seq<Bytes>)
    ensures AllSignals(codec, Signal(codec, lines))
  {
    if lines != [] {
      SignalsAre(codec, lines[1..]);
      assert Rstrip(Rstrip(lines[0])) == Rstrip(lines[0]);
    }
  }

  /** Lines that go on are taken whole. */
  lemma {:induction false} GoOnFolds(codec: Codec, signal: seq<Bytes>, chunks: seq<Bytes>)
    requires AllSignals(codec, signal) && GoOn(codec, signal, chunks)
    ensures FoldLines(codec, FRESH, signal) == FoldLines(codec, FrameOf(chunks), signal[|chunks|..])
    decreases |chunks|
  {
    if chunks == [] {
      assert signal[0..] == signal;
    } else {
      var n := |chunks| - 1;
      var init := chunks[..n];
      assert forall k | 0 <= k < n :: init[..k] == chunks[..k];
      GoOnFolds(codec, signal, init);
      InitAndLast(chunks);
      FoldGoes(codec, signal, init, chunks[n]);
    }
  }

  /** The line that ends the transfer says the answer. */
  lemma LastAnswers(codec: Codec, signal: seq<Bytes>, chunks: seq<Bytes>, said: Answer)
    requires AllSignals(codec, signal) && |chunks| < |signal| && StopsWith(codec, signal, chunks, said)
    ensures Said(FoldLines(codec, FrameOf(chunks), signal[|chunks|..])) == said
  {
    var line, rest := signal[|chunks|], signal[|chunks| + 1..];
    assert signal[|chunks|..] == [line] + rest;
    FoldOfMore(codec, FrameOf(chunks), line, rest);
    if said.Payload? {
      EndsExactly(codec, chunks, line, said.payload);
    } else {
      RefusesExactly(codec, chunks, line, said.reason);
    }
  }

  lemma {:induction false} AnswersFold(codec: Codec, signal: seq<Bytes>, chunks: seq<Bytes>, said: Answer)
    requires AllSignals(codec, signal) && GoOn(codec, signal, chunks) && StopsWith(codec, signal, chunks, said)
    ensures Said(FoldLines(codec, FRESH, signal)) == said
  {
    GoOnFolds(codec, signal, chunks);
    if |chunks| < |signal| {
      LastAnswers(codec, signal, chunks, said);
    } else {
      assert signal[|chunks|..] == [];
    }
  }

  /** Of any lines at all: the plain reading answers this if and only if the lines it hears say so
      by their grammar. */
  lemma {:induction false} VerdictExactly(codec: Codec, lines: seq<Bytes>, said: Answer)
    ensures Said(FoldLines(codec, FRESH, lines)) == said <==> Answers(codec, Signal(codec, lines), said)
  {
    var signal := Signal(codec, lines);
    FoldHearsOnlySignal(codec, FRESH, lines);
    SignalsAre(codec, lines);
    if Answers(codec, signal, said) {
      var chunks :| GoOn(codec, signal, chunks) && StopsWith(codec, signal, chunks, said);
      AnswersFold(codec, signal, chunks, said);
    }
    if Said(FoldLines(codec, FRESH, lines)) == said {
      assert signal[0..] == signal && FrameOf([]) == FRESH;
      var chunks := FoldAnswers(codec, signal, []);
    }
  }

  // ----- what follows of the digest -----

  ghost predicate Signs(codec: Codec, line: Bytes, payload: Bytes) {
    exists count :: IsTrailerLine(codec, line, count, codec.digest(payload))
  }

  lemma CompleteIsSigned(codec: Codec, frame: Frame, line: Bytes)
    requires Consume(codec, frame, line).Complete?
    ensures Signs(codec, line, Consume(codec, frame, line).payload)
  {
    assert IsSignal(codec, line);
    HearsExactly(codec, line);
    ConsumeHeard(codec, frame, line);
    assert IsTrailerLine(codec, line, Hear(codec, line).count, Hear(codec, line).digest);
  }

  /** Whatever was taken before, a payload is answered only to a trailer that carries its digest. */
  lemma {:induction false} FinishedIsSigned(codec: Codec, frame: Frame, lines: seq<Bytes>) returns (i: nat)
    requires FoldLines(codec, frame, lines).Finished?
    ensures i < |lines| && Signs(codec, Rstrip(lines[i]), FoldLines(codec, frame, lines).payload)
    decreases |lines|
  {
    var line, rest := lines[0], lines[1..];
    var step := Consume(codec, frame, Rstrip(line));
    assert lines == [line] + rest;
    FoldOfMore(codec, frame, line, rest);
    if step.More? {
      var j := FinishedIsSigned(codec, step.frame, rest);
      i := j + 1;
    } else {
      i := 0;
      CompleteIsSigned(codec, frame, Rstrip(line));
    }
  }

  /** Chunk lines in turn, and a trailer whose digest is not that of what they decode to, are refused
      as a checksum mismatch, whatever noise lies between and whatever follows. */
  lemma CorruptionIsRefused(codec: Codec, lines: seq<Bytes>, chunks: seq<Bytes>, digest: Bytes)
    requires chunks != [] && Decodes(codec, chunks).Some? && digest != codec.digest(Decodes(codec, chunks).value)
    requires |chunks| < |Signal(codec, lines)| && GoOn(codec, Signal(codec, lines), chunks)
    requires IsTrailerLine(codec, Signal(codec, lines)[|chunks|], |chunks|, digest)
    ensures Said(FoldLines(codec, FRESH, lines)) == Raised(ChecksumMismatch)
  {
    var signal := Signal(codec, lines);
    assert StopsWith(codec, signal, chunks, Raised(ChecksumMismatch));
    VerdictExactly(codec, lines, Raised(ChecksumMismatch));
  }

  /** The lines an encoder writes are of this grammar. */
  lemma WrittenLines(codec: Codec, n: nat, chunk: Bytes, digest: Bytes)
    requires n <= MOST_CHUNKS && IsChunkText(chunk) && |chunk| <= CHUNK && IsDigest(digest)
    ensures IsChunkLine(codec, ChunkLine(codec, n, chunk), n, chunk)
    ensures IsTrailerLine(codec, TrailerLine(codec, n, digest), n, digest)
  {
    FieldsSplit(n, chunk);
    DecimalRoundTrip(n);
    AppendAssociates(codec.ChunkPrefix(), Decimal(n), [SEPARATOR]);
    AppendAssociates(codec.ChunkPrefix(), Decimal(n) + [SEPARATOR], chunk);
    AppendAssociates(codec.TrailerPrefix(), Decimal(n), [SEPARATOR]);
    AppendAssociates(codec.TrailerPrefix(), Decimal(n) + [SEPARATOR], digest);
    assert Spells(Decimal(n) + [SEPARATOR] + chunk, n, chunk);
    assert Spells(Decimal(n) + [SEPARATOR] + digest, n, digest);
  }

  /** What decoding a list of lines answers, exactly: the payload, or the reason, of the first line
      that ends the transfer, and a refusal as incomplete when none does. */
  lemma DecodedExactly(codec: Codec, lines: seq<Bytes>, said: Answer)
    ensures var signal := Signal(codec, Lines(Unlines(lines)).lines);
            Decoded(codec, lines) == said <==>
              (said != Nothing && Answers(codec, signal, said))
              || (said == Raised(Incomplete) && Answers(codec, signal, Nothing))
  {
    VerdictExactly(codec, Lines(Unlines(lines)).lines, said);
    VerdictExactly(codec, Lines(Unlines(lines)).lines, Nothing);
  }
}

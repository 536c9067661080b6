/** Decoding what was encoded: through noise, through any cut into feeds, and exactly for the
    payloads that fit the transfer limit and the six index digits. */
module SerialFrameRoundTrip {
  import opened Bytes
  import Base64
  import opened SerialFrame
  import opened SerialFrameLaws

  /** The payloads a transfer carries: not empty, within the limit rounded up to a whole
      base64 group, and in few enough chunks for a six-digit count. */
  predicate Transferable(codec: Codec, payload: Bytes) {
    && payload != []
    && Base64.Groups(|payload|) <= Base64.Groups(codec.limit)
    && 4 * Base64.Groups(|payload|) <= CHUNK * MOST_CHUNKS
  }

  /** The frame after the first `k` chunks of an encoding. */
  function FrameAt(encoded: Bytes, k: nat): Frame {
    Frame(ChunksTo(encoded, k), Cut(encoded, k))
  }

  /** All of it. */
  function WholeFrame(payload: Bytes): Frame {
    FrameAt(Base64.Encode(payload), ChunkCount(Base64.Encode(payload)))
  }

  function ChunksTo(encoded: Bytes, k: nat): (chunks: seq<Bytes>)
    ensures |chunks| == k
  {
    if k == 0 then [] else ChunksTo(encoded, k - 1) + [ChunkAt(encoded, k - 1)]
  }

  lemma PrefixesDiffer(codec: Codec, rest: Bytes)
    ensures !StartsWith(codec.TrailerPrefix() + rest, codec.ChunkPrefix())
    ensures StartsWith(codec.TrailerPrefix() + rest, codec.TrailerPrefix())
    ensures StartsWith(codec.ChunkPrefix() + rest, codec.ChunkPrefix())
    ensures (codec.TrailerPrefix() + rest)[|codec.TrailerPrefix()|..] == rest
    ensures (codec.ChunkPrefix() + rest)[|codec.ChunkPrefix()|..] == rest
  {
    assert codec.ChunkPrefix()[4] == 76 && (codec.TrailerPrefix() + rest)[4] == 69;
  }

  /** A number, the separator and a field split apart again. */
  lemma {:induction false} FieldsSplit(n: nat, field: Bytes)
    ensures var rest := Decimal(n) + [SEPARATOR] + field;
            var at := IndexOf(rest, SEPARATOR);
            at < |rest| && rest[..at] == Decimal(n) && rest[at + 1..] == field
    ensures n <= MOST_CHUNKS <==> IsIndexText(Decimal(n))
  {
    var rest := Decimal(n) + [SEPARATOR] + field;
    DecimalRoundTrip(n);
    assert rest[..|Decimal(n)|] == Decimal(n);
    IndexOfFirst(rest, SEPARATOR, |Decimal(n)|);
    DecimalWidth(n, INDEX_DIGITS);
    SixDigits();
  }

  lemma SixDigits()
    ensures Pow10(INDEX_DIGITS) == MOST_CHUNKS + 1
  {
    assert Pow10(2) == 100;
    assert Pow10(4) == 10 * Pow10(3) == 100 * Pow10(2);
    assert Pow10(6) == 10 * Pow10(5) == 100 * Pow10(4);
  }

  lemma ChunkIsText(payload: Bytes, k: nat)
    requires k < ChunkCount(Base64.Encode(payload))
    ensures IsChunkText(ChunkAt(Base64.Encode(payload), k)) && |ChunkAt(Base64.Encode(payload), k)| <= CHUNK
  {
    var encoded := Base64.Encode(payload);
    forall c | c in ChunkAt(encoded, k)
      ensures Base64.Value(c).Some? || c == Base64.PAD
    {
      Base64.EncodeAlphabet(payload, c);
    }
  }

  lemma ChunkAccepted(codec: Codec, frame: Frame, chunk: Bytes)
    requires |frame.chunks| < MOST_CHUNKS && IsChunkText(chunk) && |chunk| <= CHUNK
    requires frame.size + |chunk| <= codec.EncodedLimit()
    ensures Consume(codec, frame, ChunkLine(codec, |frame.chunks|, chunk))
            == More(Frame(frame.chunks + [chunk], frame.size + |chunk|))
  {
    var rest := Decimal(|frame.chunks|) + [SEPARATOR] + chunk;
    FieldsSplit(|frame.chunks|, chunk);
    DecimalRoundTrip(|frame.chunks|);
    assert Chunk(codec, frame, rest) == More(Frame(frame.chunks + [chunk], frame.size + |chunk|));
    assert ChunkLine(codec, |frame.chunks|, chunk) == codec.ChunkPrefix() + rest;
    PrefixesDiffer(codec, rest);
  }

  lemma CutSizes(encoded: Bytes, k: nat)
    requires k < ChunkCount(encoded)
    ensures Cut(encoded, k) + |ChunkAt(encoded, k)| == Cut(encoded, k + 1) <= |encoded|
    ensures 1 <= |ChunkAt(encoded, k)| <= CHUNK
  {
  }

  lemma ChunkStep(codec: Codec, encoded: Bytes, k: nat)
    requires k < ChunkCount(encoded) <= MOST_CHUNKS && |encoded| <= codec.EncodedLimit()
    requires IsChunkText(ChunkAt(encoded, k))
    ensures Consume(codec, FrameAt(encoded, k), ChunkLine(codec, k, ChunkAt(encoded, k)))
            == More(FrameAt(encoded, k + 1))
  {
    CutSizes(encoded, k);
    ChunkAccepted(codec, FrameAt(encoded, k), ChunkAt(encoded, k));
  }

  lemma {:induction false} ChunksConcat(encoded: Bytes, k: nat)
    ensures Concat(ChunksTo(encoded, k)) == encoded[..Cut(encoded, k)]
  {
    if k > 0 {
      ChunksConcat(encoded, k - 1);
      var chunk := ChunkAt(encoded, k - 1);
      ConcatAppend(ChunksTo(encoded, k - 1), [chunk]);
      assert Concat([chunk]) == chunk;
    }
  }

  lemma TrailerAccepted(codec: Codec, frame: Frame, payload: Bytes)
    requires codec.Valid() && 1 <= |frame.chunks| <= MOST_CHUNKS
    requires Base64.Accept(Concat(frame.chunks), codec.lenient) == Some(payload)
    ensures Consume(codec, frame, TrailerLine(codec, |frame.chunks|, codec.digest(payload)))
            == Complete(payload)
  {
    var digest := codec.digest(payload);
    var rest := Decimal(|frame.chunks|) + [SEPARATOR] + digest;
    FieldsSplit(|frame.chunks|, digest);
    DecimalRoundTrip(|frame.chunks|);
    assert Finish(codec, frame, rest) == Complete(payload);
    assert TrailerLine(codec, |frame.chunks|, digest) == codec.TrailerPrefix() + rest;
    PrefixesDiffer(codec, rest);
  }

  lemma TrailerStep(codec: Codec, payload: Bytes)
    requires codec.Valid() && payload != [] && ChunkCount(Base64.Encode(payload)) <= MOST_CHUNKS
    ensures var encoded := Base64.Encode(payload);
            var count := ChunkCount(encoded);
            Consume(codec, FrameAt(encoded, count), TrailerLine(codec, count, codec.digest(payload)))
            == Complete(payload)
  {
    var encoded := Base64.Encode(payload);
    var count := ChunkCount(encoded);
    ChunksConcat(encoded, count);
    assert encoded[..Cut(encoded, count)] == encoded;
    Base64.RoundTrip(payload);
    Base64.LeniencyOnlyAdds(encoded, codec.lenient);
    TrailerAccepted(codec, FrameAt(encoded, count), payload);
  }

  lemma StripsToItself(line: Bytes)
    requires line != [] && line[|line| - 1] != RETURN
    ensures Rstrip(line) == line
  {
  }

  lemma ChunkLineIsSignal(codec: Codec, payload: Bytes, k: nat)
    requires k < ChunkCount(Base64.Encode(payload))
    ensures var line := ChunkLine(codec, k, ChunkAt(Base64.Encode(payload), k));
            Rstrip(line) == line && IsSignal(codec, line)
  {
    var chunk := ChunkAt(Base64.Encode(payload), k);
    var line := ChunkLine(codec, k, chunk);
    ChunkIsText(payload, k);
    assert chunk[|chunk| - 1] in chunk;
    assert line[|line| - 1] == chunk[|chunk| - 1];
    StripsToItself(line);
    AppendAssociates(codec.ChunkPrefix(), Decimal(k), [SEPARATOR]);
    AppendAssociates(codec.ChunkPrefix(), Decimal(k) + [SEPARATOR], chunk);
    PrefixesDiffer(codec, Decimal(k) + [SEPARATOR] + chunk);
  }

  lemma TrailerLineIsSignal(codec: Codec, count: nat, digest: Bytes)
    requires IsDigest(digest)
    ensures var line := TrailerLine(codec, count, digest);
            Rstrip(line) == line && IsSignal(codec, line)
  {
    var line := TrailerLine(codec, count, digest);
    assert digest[63] in digest;
    assert line[|line| - 1] == digest[63];
    StripsToItself(line);
    AppendAssociates(codec.TrailerPrefix(), Decimal(count), [SEPARATOR]);
    AppendAssociates(codec.TrailerPrefix(), Decimal(count) + [SEPARATOR], digest);
    PrefixesDiffer(codec, Decimal(count) + [SEPARATOR] + digest);
  }

  lemma EncodedLines(codec: Codec, payload: Bytes, k: nat)
    requires codec.Valid() && k < |Encode(codec, payload)|
    ensures Rstrip(Encode(codec, payload)[k]) == Encode(codec, payload)[k]
    ensures IsSignal(codec, Encode(codec, payload)[k])
  {
    var encoded := Base64.Encode(payload);
    if k < ChunkCount(encoded) {
      ChunkLineIsSignal(codec, payload, k);
    } else {
      TrailerLineIsSignal(codec, ChunkCount(encoded), codec.digest(payload));
    }
  }

  lemma {:induction false} EncodeFolds(codec: Codec, payload: Bytes, k: nat)
    requires codec.Valid() && Transferable(codec, payload)
    requires k <= ChunkCount(Base64.Encode(payload))
    ensures FoldLines(codec, FrameAt(Base64.Encode(payload), k), Encode(codec, payload)[k..])
            == Finished(payload, WholeFrame(payload))
    decreases ChunkCount(Base64.Encode(payload)) - k
  {
    var lines := Encode(codec, payload);
    var encoded := Base64.Encode(payload);
    EncodedLines(codec, payload, k);
    assert lines[k..][0] == lines[k] && lines[k..][1..] == lines[k + 1..];
    if k < ChunkCount(encoded) {
      ChunkIsText(payload, k);
      ChunkStep(codec, encoded, k);
      EncodeFolds(codec, payload, k + 1);
    } else {
      TrailerStep(codec, payload);
    }
  }

  /** No encoded line is wider than the decoder is willing to hold. */
  lemma EncodedLineFits(codec: Codec, payload: Bytes, k: nat)
    requires codec.Valid() && Transferable(codec, payload) && k < |Encode(codec, payload)|
    ensures |Encode(codec, payload)[k]| <= 41 + INDEX_DIGITS + 1 + CHUNK <= LINE_LIMIT
  {
    var encoded := Base64.Encode(payload);
    FieldsSplit(k, []);
    assert IsIndexText(Decimal(k));
    if k < ChunkCount(encoded) {
      CutSizes(encoded, k);
    } else {
      assert IsDigest(codec.digest(payload));
    }
  }

  lemma EncodingFolds(codec: Codec, payload: Bytes)
    requires codec.Valid() && Transferable(codec, payload)
    ensures FoldLines(codec, FRESH, Encode(codec, payload)) == Finished(payload, WholeFrame(payload))
  {
    EncodeFolds(codec, payload, 0);
    assert FrameAt(Base64.Encode(payload), 0) == FRESH;
    assert Encode(codec, payload)[0..] == Encode(codec, payload);
  }

  // ----- noise -----

  predicate IsSignal(codec: Codec, line: Bytes) {
    StartsWith(line, codec.ChunkPrefix()) || StartsWith(line, codec.TrailerPrefix())
  }

  /** The received lines with trailing carriage returns cut and everything that starts with
      neither prefix dropped. */
  function Signal(codec: Codec, lines: seq<Bytes>): seq<Bytes> {
    if lines == [] then []
    else
      (if IsSignal(codec, Rstrip(lines[0])) then [Rstrip(lines[0])] else [])
        + Signal(codec, lines[1..])
  }

  lemma {:induction false} FoldHearsOnlySignal(codec: Codec, frame: Frame, lines: seq<Bytes>)
    ensures FoldLines(codec, frame, lines) == FoldLines(codec, frame, Signal(codec, lines))
    decreases |lines|
  {
    if lines != [] {
      var line := Rstrip(lines[0]);
      var step := Consume(codec, frame, line);
      if IsSignal(codec, line) {
        assert Rstrip(line) == line;
        assert Signal(codec, lines)[1..] == Signal(codec, lines[1..]);
        if step.More? {
          FoldHearsOnlySignal(codec, step.frame, lines[1..]);
        }
      } else {
        assert step == More(frame);
        assert Signal(codec, lines) == Signal(codec, lines[1..]);
        FoldHearsOnlySignal(codec, frame, lines[1..]);
      }
    }
  }

  /** Any received lines whose signal begins with the encoding read as the payload, whatever
      noise lies between, before and after. */
  lemma NoisyRoundTrip(codec: Codec, payload: Bytes, received: seq<Bytes>)
    requires codec.Valid() && Transferable(codec, payload)
    requires Encode(codec, payload) <= Signal(codec, received)
    ensures FoldLines(codec, FRESH, received) == Finished(payload, WholeFrame(payload))
  {
    var lines := Encode(codec, payload);
    var signal := Signal(codec, received);
    EncodingFolds(codec, payload);
    FoldAppend(codec, FRESH, lines, signal[|lines|..]);
    assert signal == lines + signal[|lines|..];
    FoldHearsOnlySignal(codec, FRESH, received);
  }

  /** The same through a byte stream: when the signal of whatever may be read of it begins with
      the encoding, every cut into feeds answers the payload exactly once and nothing else. */
  lemma StreamRoundTrip(codec: Codec, payload: Bytes, s: Bytes, feeds: seq<Bytes>)
    requires codec.Valid() && Transferable(codec, payload) && IsCut(feeds, s)
    requires forall read | MayBeRead(read, s) :: Encode(codec, payload) <= Signal(codec, read)
    ensures Reads(codec, START, feeds, Finished(payload, WholeFrame(payload)))
  {
    var read := CutReads(codec, feeds, s);
    NoisyRoundTrip(codec, payload, read);
  }

  /** No tail that may be left of the line starts with a prefix. */
  predicate IsQuiet(codec: Codec, line: Bytes) {
    forall k: nat | k <= |line| && TailMayStay(line, k) :: !IsSignal(codec, Rstrip(line[k..]))
  }

  /** Lines over the limit are noise, and stay noise when a feed cuts them. */
  predicate LongLinesAreQuiet(codec: Codec, lines: seq<Bytes>) {
    forall i | 0 <= i < |lines| && |lines[i]| > LINE_LIMIT :: IsQuiet(codec, lines[i])
  }

  lemma SameSignalOfLine(codec: Codec, read: Bytes, line: Bytes)
    requires IsReading(read, line) && (|line| > LINE_LIMIT ==> IsQuiet(codec, line))
    ensures IsSignal(codec, Rstrip(read)) <==> IsSignal(codec, Rstrip(line))
    ensures IsSignal(codec, Rstrip(read)) ==> read == line
  {
    assert TailMayStay(line, 0) && line[0..] == line;
  }

  lemma {:induction false} SameSignal(codec: Codec, read: seq<Bytes>, lines: seq<Bytes>)
    requires AreReadings(read, lines) && LongLinesAreQuiet(codec, lines)
    ensures Signal(codec, read) == Signal(codec, lines)
  {
    if lines != [] {
      assert IsReading(read[0], lines[0]);
      SameSignalOfLine(codec, read[0], lines[0]);
      var k := FirstReading(read, lines);
      SameSignal(codec, read[1..], lines[1..]);
    }
  }

  /** So noise lines of any length are harmless as long as no tail of a long one looks like the
      codec's own. */
  lemma QuietStreamRoundTrip(codec: Codec, payload: Bytes, s: Bytes, feeds: seq<Bytes>)
    requires codec.Valid() && Transferable(codec, payload) && IsCut(feeds, s)
    requires LongLinesAreQuiet(codec, Lines(s).lines)
    requires Encode(codec, payload) <= Signal(codec, Lines(s).lines)
    ensures Reads(codec, START, feeds, Finished(payload, WholeFrame(payload)))
  {
    forall read | MayBeRead(read, s)
      ensures Encode(codec, payload) <= Signal(codec, read)
    {
      SameSignal(codec, read, Lines(s).lines);
    }
    StreamRoundTrip(codec, payload, s, feeds);
  }

  // ----- exactness -----

  /** What every frame the decoder builds satisfies. */
  ghost predicate WithinLimits(codec: Codec, frame: Frame) {
    && frame.size == |Concat(frame.chunks)| <= codec.EncodedLimit()
    && |Concat(frame.chunks)| <= CHUNK * |frame.chunks|
    && |Concat(frame.chunks)| >= |frame.chunks|
  }

  lemma {:induction false} ParseDecimalBound(s: Bytes)
    requires AllDigits(s)
    ensures ParseDecimal(s) < Pow10(|s|)
  {
    if s != [] {
      ParseDecimalBound(s[..|s| - 1]);
      assert Pow10(|s|) == 10 * Pow10(|s| - 1);
      assert s[|s| - 1] in s;
    }
  }

  lemma {:induction false} Pow10Grows(a: nat, b: nat)
    requires a <= b
    ensures Pow10(a) <= Pow10(b)
  {
    if a < b { Pow10Grows(a, b - 1); }
  }

  lemma FinishIsTransferable(codec: Codec, frame: Frame, rest: Bytes)
    requires WithinLimits(codec, frame) && Finish(codec, frame, rest).Complete?
    ensures Transferable(codec, Finish(codec, frame, rest).payload)
  {
    var count := rest[..IndexOf(rest, SEPARATOR)];
    ParseDecimalBound(count);
    Pow10Grows(|count|, INDEX_DIGITS);
    SixDigits();
  }

  lemma ChunkKeepsLimits(codec: Codec, frame: Frame, rest: Bytes)
    requires WithinLimits(codec, frame) && Chunk(codec, frame, rest).More?
    ensures WithinLimits(codec, Chunk(codec, frame, rest).frame)
  {
    var next := Chunk(codec, frame, rest).frame;
    var chunk := next.chunks[|next.chunks| - 1];
    assert next.chunks == frame.chunks + [chunk];
    ConcatAppend(frame.chunks, [chunk]);
    assert Concat([chunk]) == chunk;
  }

  /** Whatever arrives, an accepted payload is transferable: bounded memory, bounded output. */
  lemma {:induction false} AcceptedIsTransferable(codec: Codec, frame: Frame, lines: seq<Bytes>)
    requires WithinLimits(codec, frame) && FoldLines(codec, frame, lines).Finished?
    ensures Transferable(codec, FoldLines(codec, frame, lines).payload)
    decreases |lines|
  {
    var line := Rstrip(lines[0]);
    var step := Consume(codec, frame, line);
    if StartsWith(line, codec.ChunkPrefix()) {
      ChunkKeepsLimits(codec, frame, line[|codec.ChunkPrefix()|..]);
      AcceptedIsTransferable(codec, step.frame, lines[1..]);
    } else if step.More? {
      AcceptedIsTransferable(codec, frame, lines[1..]);
    } else {
      FinishIsTransferable(codec, frame, line[|codec.TrailerPrefix()|..]);
    }
  }

  lemma AcceptedSize(codec: Codec, lines: seq<Bytes>, payload: Bytes)
    requires Decoded(codec, lines) == Payload(payload)
    ensures 0 < |payload| <= 3 * Base64.Groups(codec.limit)
    ensures Transferable(codec, payload)
  {
    AcceptedIsTransferable(codec, FRESH, Lines(Unlines(lines)).lines);
  }

  /** Decoding an encoding gives the payload back if and only if it is transferable. */
  lemma RoundTripExactly(codec: Codec, payload: Bytes)
    requires codec.Valid()
    ensures Decoded(codec, Encode(codec, payload)) == Payload(payload) <==> Transferable(codec, payload)
  {
    var lines := Encode(codec, payload);
    if Transferable(codec, payload) {
      forall l | l in lines
        ensures NEWLINE !in l
      {
        var k :| 0 <= k < |lines| && lines[k] == l;
        EncodedLineIsOneLine(codec, payload, k);
      }
      LinesOfUnlines(lines, []);
      assert Unlines(lines) + [] == Unlines(lines);
      EncodingFolds(codec, payload);
    }
    if Decoded(codec, lines) == Payload(payload) {
      AcceptedSize(codec, lines, payload);
    }
  }

  lemma EncodedLineIsOneLine(codec: Codec, payload: Bytes, k: nat)
    requires codec.Valid() && k < |Encode(codec, payload)|
    ensures NEWLINE !in Encode(codec, payload)[k]
  {
    var encoded := Base64.Encode(payload);
    assert NEWLINE !in codec.ChunkPrefix() && NEWLINE !in codec.TrailerPrefix();
    if k < ChunkCount(encoded) {
      DecimalRoundTrip(k);
      ChunkIsText(payload, k);
      assert NEWLINE !in ChunkAt(encoded, k);
    } else {
      DecimalRoundTrip(ChunkCount(encoded));
      assert IsDigest(codec.digest(payload));
    }
  }

  /** Under the default limit every payload that is not empty and not over it comes back. */
  lemma DefaultLimitRoundTrip(codec: Codec, payload: Bytes)
    requires codec.Valid() && codec.limit == TRANSFER_LIMIT && 0 < |payload| <= TRANSFER_LIMIT
    ensures Decoded(codec, Encode(codec, payload)) == Payload(payload)
  {
    RoundTripExactly(codec, payload);
  }
}

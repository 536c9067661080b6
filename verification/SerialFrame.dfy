/** The framing codec for guest output (src/apex/model/serialframe.py): base64 cut into indexed
    lines under a token, closed by a trailer with the count and the digest, and an incremental
    decoder over arbitrary byte feeds. The digest is a parameter of the codec. */
module SerialFrame {
  import opened Bytes
  import Base64

  const LINE_LIMIT: nat := 1024
  const TRANSFER_LIMIT: nat := 16 * 1024 * 1024
  const CHUNK: nat := 768
  const INDEX_DIGITS: nat := 6
  const MOST_CHUNKS: nat := 999_999
  const SEPARATOR: byte := 58
  /** "APEXLOG" and "APEXEND". */
  const CHUNK_WORD: Bytes := [65, 80, 69, 88, 76, 79, 71]
  const TRAILER_WORD: Bytes := [65, 80, 69, 88, 69, 78, 68]

  datatype Reason = Malformed | OutOfOrder | LimitExceeded | Incomplete | ChecksumMismatch

  /** The token, the transfer limit, the digest (as the 64 hex digits it is written in), and
      whether the interpreter's base64 decoder passes over surplus padding. */
  datatype Codec = Codec(token: Bytes, limit: nat, digest: Bytes -> Bytes, lenient: bool) {
    ghost predicate Valid() {
      |token| == 32 && AllHex(token) && limit > 0 && forall p :: IsDigest(digest(p))
    }

    function ChunkPrefix(): Bytes {
      CHUNK_WORD + [SEPARATOR] + token + [SEPARATOR]
    }

    function TrailerPrefix(): Bytes {
      TRAILER_WORD + [SEPARATOR] + token + [SEPARATOR]
    }

    function EncodedLimit(): nat {
      4 * Base64.Groups(limit)
    }
  }

  predicate IsIndexText(s: Bytes) {
    1 <= |s| <= INDEX_DIGITS && AllDigits(s)
  }

  predicate IsChunkText(s: Bytes) {
    s != [] && forall c :: c in s ==> Base64.Value(c).Some? || c == Base64.PAD
  }

  // ----- writing -----

  /** The `k`-th chunk of the encoded text starts at `768 * k`; this is where it is cut. */
  function Cut(encoded: Bytes, k: nat): (at: nat)
    ensures at <= |encoded|
  {
    Min(CHUNK * k, |encoded|)
  }

  function ChunkCount(encoded: Bytes): nat {
    (|encoded| + CHUNK - 1) / CHUNK
  }

  function ChunkAt(encoded: Bytes, k: nat): Bytes {
    encoded[Cut(encoded, k)..Cut(encoded, k + 1)]
  }

  function ChunkLine(codec: Codec, index: nat, chunk: Bytes): Bytes {
    codec.ChunkPrefix() + Decimal(index) + [SEPARATOR] + chunk
  }

  function TrailerLine(codec: Codec, count: nat, digest: Bytes): Bytes {
    codec.TrailerPrefix() + Decimal(count) + [SEPARATOR] + digest
  }

  function Encode(codec: Codec, payload: Bytes): seq<Bytes> {
    var encoded := Base64.Encode(payload);
    var count := ChunkCount(encoded);
    seq(count, k requires 0 <= k < count => ChunkLine(codec, k, ChunkAt(encoded, k)))
      + [TrailerLine(codec, count, codec.digest(payload))]
  }

  // ----- reading one line -----

  /** What the decoder has accepted so far: the chunks in order, and their counted size. */
  datatype Frame = Frame(chunks: seq<Bytes>, size: nat)

  const FRESH := Frame([], 0)

  datatype Step = More(frame: Frame) | Complete(payload: Bytes) | Refused(reason: Reason, frame: Frame)

  function Rstrip(line: Bytes): (r: Bytes)
    ensures r <= line
    ensures r != [] ==> r[|r| - 1] != RETURN
  {
    if line != [] && line[|line| - 1] == RETURN then Rstrip(line[..|line| - 1]) else line
  }

  /** The returns at the end of a line are stripped, all of them and nothing else. */
  lemma {:induction false} RstripExactly(line: Bytes, r: Bytes)
    ensures r == Rstrip(line) <==>
            && r <= line && (r != [] ==> r[|r| - 1] != RETURN)
            && forall k | |r| <= k < |line| :: line[k] == RETURN
    decreases |line|
  {
    if line != [] && line[|line| - 1] == RETURN {
      RstripExactly(line[..|line| - 1], r);
    }
  }

  function Consume(codec: Codec, frame: Frame, line: Bytes): Step {
    if StartsWith(line, codec.ChunkPrefix()) then
      Chunk(codec, frame, line[|codec.ChunkPrefix()|..])
    else if StartsWith(line, codec.TrailerPrefix()) then
      Finish(codec, frame, line[|codec.TrailerPrefix()|..])
    else
      More(frame)
  }

  function Chunk(codec: Codec, frame: Frame, rest: Bytes): Step {
    var at := IndexOf(rest, SEPARATOR);
    var index, chunk := rest[..at], if at < |rest| then rest[at + 1..] else [];
    if !IsIndexText(index) || !IsChunkText(chunk) || |chunk| > CHUNK then
      Refused(Malformed, frame)
    else if ParseDecimal(index) != |frame.chunks| then
      Refused(OutOfOrder, frame)
    else
      var size := frame.size + |chunk|;
      if size > codec.EncodedLimit() then
        Refused(LimitExceeded, Frame(frame.chunks, size))
      else
        More(Frame(frame.chunks + [chunk], size))
  }

  function Finish(codec: Codec, frame: Frame, rest: Bytes): Step {
    var at := IndexOf(rest, SEPARATOR);
    var count, digest := rest[..at], if at < |rest| then rest[at + 1..] else [];
    if !IsIndexText(count) || !IsDigest(digest) then
      Refused(Malformed, frame)
    else if ParseDecimal(count) == 0 || ParseDecimal(count) != |frame.chunks| then
      Refused(Incomplete, frame)
    else
      match Base64.Accept(Concat(frame.chunks), codec.lenient)
      case None => Refused(Malformed, frame)
      case Some(payload) =>
        if codec.digest(payload) != digest then Refused(ChecksumMismatch, frame) else Complete(payload)
  }

  // ----- reading a stream -----

  /** The plain reading: every line consumed in turn until one completes or refuses, with what
      is then held. */
  datatype Verdict =
    | Open(frame: Frame)
    | Finished(payload: Bytes, frame: Frame)
    | Stopped(reason: Reason, frame: Frame)

  function FoldLines(codec: Codec, frame: Frame, lines: seq<Bytes>): Verdict
    decreases |lines|
  {
    if lines == [] then Open(frame)
    else
      match Consume(codec, frame, Rstrip(lines[0]))
      case More(f) => FoldLines(codec, f, lines[1..])
      case Complete(payload) => Finished(payload, frame)
      case Refused(reason, f) => Stopped(reason, f)
  }

  /** The decoder's fields as one value, and what one feed answers. */
  datatype Decoder = Decoder(buffer: Bytes, frame: Frame, payload: Option<Bytes>)

  const START := Decoder([], FRESH, None)

  datatype Answer = Nothing | Payload(payload: Bytes) | Raised(reason: Reason)

  function DropNoise(buffer: Bytes): (kept: Bytes)
    ensures |kept| <= LINE_LIMIT
  {
    if |buffer| > LINE_LIMIT then buffer[|buffer| - LINE_LIMIT..] else buffer
  }

  /** The decoder after its buffer has been read as far as it goes. */
  function Drain(codec: Codec, frame: Frame, buffer: Bytes): (Decoder, Answer)
    decreases |buffer|
  {
    var newline := IndexOf(buffer, NEWLINE);
    if newline == |buffer| then
      (Decoder(DropNoise(buffer), frame, None), Nothing)
    else
      var rest := buffer[newline + 1..];
      match Consume(codec, frame, Rstrip(buffer[..newline]))
      case More(f) => Drain(codec, f, rest)
      case Complete(payload) => (Decoder(rest, frame, Some(payload)), Payload(payload))
      case Refused(reason, f) => (Decoder(rest, f, None), Raised(reason))
  }

  function AfterFeed(codec: Codec, d: Decoder, data: Bytes): (r: (Decoder, Answer))
    ensures r.0.payload.None? && r.1.Nothing? ==> |r.0.buffer| <= LINE_LIMIT
  {
    if d.payload.Some? then (d, Nothing)
    else DrainBound(codec, d.frame, d.buffer + data); Drain(codec, d.frame, d.buffer + data)
  }

  lemma {:induction false} DrainBound(codec: Codec, frame: Frame, buffer: Bytes)
    ensures Drain(codec, frame, buffer).1.Nothing? ==>
              |Drain(codec, frame, buffer).0.buffer| <= LINE_LIMIT
    ensures Drain(codec, frame, buffer).1.Nothing? ==> Drain(codec, frame, buffer).0.payload.None?
    decreases |buffer|
  {
    var newline := IndexOf(buffer, NEWLINE);
    if newline < |buffer| {
      var step := Consume(codec, frame, Rstrip(buffer[..newline]));
      if step.More? {
        DrainBound(codec, step.frame, buffer[newline + 1..]);
      }
    }
  }

  /** The answers of one feed after another; a refusal ends the reading. */
  function FeedAll(codec: Codec, d: Decoder, feeds: seq<Bytes>): (answers: seq<Answer>)
    ensures |answers| <= |feeds|
    decreases |feeds|
  {
    if feeds == [] then []
    else
      var (next, answer) := AfterFeed(codec, d, feeds[0]);
      [answer] + (if answer.Raised? then [] else FeedAll(codec, next, feeds[1..]))
  }

  /** The decoder those feeds leave. */
  function FedTo(codec: Codec, d: Decoder, feeds: seq<Bytes>): Decoder
    decreases |feeds|
  {
    if feeds == [] then d
    else
      var (next, answer) := AfterFeed(codec, d, feeds[0]);
      if answer.Raised? then next else FedTo(codec, next, feeds[1..])
  }

  lemma {:induction false} FoldAppend(codec: Codec, frame: Frame, a: seq<Bytes>, b: seq<Bytes>)
    ensures FoldLines(codec, frame, a + b) ==
            match FoldLines(codec, frame, a)
            case Open(f) => FoldLines(codec, f, b)
            case Finished(p, f) => Finished(p, f)
            case Stopped(r, f) => Stopped(r, f)
    decreases |a|
  {
    if a == [] {
      assert a + b == b;
    } else {
      assert (a + b)[1..] == a[1..] + b;
      var step := Consume(codec, frame, Rstrip(a[0]));
      if step.More? {
        FoldAppend(codec, step.frame, a[1..], b);
      }
    }
  }

  /** What a drained buffer leaves and answers, for the verdict on its complete lines. */
  predicate Leaves(drained: (Decoder, Answer), verdict: Verdict, rest: Bytes) {
    && drained.0.frame == verdict.frame
    && match verdict
       case Open(_) =>
         drained.1 == Nothing && drained.0.payload == None && drained.0.buffer == DropNoise(rest)
       case Finished(p, _) => drained.1 == Payload(p) && drained.0.payload == Some(p)
       case Stopped(r, _) => drained.1 == Raised(r) && drained.0.payload == None
  }

  lemma FoldOfMore(codec: Codec, frame: Frame, line: Bytes, more: seq<Bytes>)
    ensures var folded := FoldLines(codec, frame, [line] + more);
            var step := Consume(codec, frame, Rstrip(line));
            && (step.More? ==> folded == FoldLines(codec, step.frame, more))
            && (step.Complete? ==> folded == Finished(step.payload, frame))
            && (step.Refused? ==> folded == Stopped(step.reason, step.frame))
  {
    assert ([line] + more)[1..] == more;
  }

  /** Draining a buffer is the plain fold over its complete lines; the rest stays buffered. */
  lemma {:induction false} DrainIsFold(codec: Codec, frame: Frame, buffer: Bytes)
    ensures Leaves(Drain(codec, frame, buffer), FoldLines(codec, frame, Lines(buffer).lines), Lines(buffer).rest)
    decreases |buffer|
  {
    var at := IndexOf(buffer, NEWLINE);
    if at < |buffer| {
      var step := Consume(codec, frame, Rstrip(buffer[..at]));
      if step.More? {
        DrainIsFold(codec, step.frame, buffer[at + 1..]);
      }
      FoldOfMore(codec, frame, buffer[..at], Lines(buffer[at + 1..]).lines);
    }
  }

  /** One feed, seen from the whole stream: either it answers what the stream answers, or it
      answers nothing and what is buffered, followed by the rest, reads the same. */
  lemma FeedStep(codec: Codec, d: Decoder, data: Bytes, more: Bytes)
    requires d.payload.None? && |Lines(d.buffer + data).rest| <= LINE_LIMIT
    ensures var (next, answer) := AfterFeed(codec, d, data);
            var whole := FoldLines(codec, d.frame, Lines(d.buffer + data + more).lines);
            match answer
            case Nothing =>
              && next.payload.None?
              && next.buffer == Lines(d.buffer + data).rest
              && FoldLines(codec, next.frame, Lines(next.buffer + more).lines) == whole
            case Payload(p) => whole == Finished(p, next.frame) && next.payload == Some(p)
            case Raised(r) => whole == Stopped(r, next.frame) && next.payload == None
  {
    var x := d.buffer + data;
    LinesAppend(x, more);
    DrainIsFold(codec, d.frame, x);
    FoldAppend(codec, d.frame, Lines(x).lines, Lines(Lines(x).rest + more).lines);
  }

  lemma LinesEndingInNewline(line: Bytes)
    ensures Lines(line + [NEWLINE]).rest == []
  {
    var rest := Lines(line).rest;
    LinesAppend(line, [NEWLINE]);
    LinesHoldNoNewline(line);
    LinesOfOne(rest, []);
    assert rest + [NEWLINE] + [] == rest + [NEWLINE];
  }

  /** The decoder as it is run: fields updated in place, one feed at a time. */
  class FrameDecoder {
    const codec: Codec
    var buffer: Bytes
    var chunks: seq<Bytes>
    var encodedSize: nat
    var payload: Option<Bytes>

    function State(): Decoder
      reads this
    {
      Decoder(buffer, Frame(chunks, encodedSize), payload)
    }

    constructor (codec: Codec)
      ensures this.codec == codec && State() == START
    {
      this.codec := codec;
      buffer, chunks, encodedSize, payload := [], [], 0, None;
    }

    method Feed(data: Bytes) returns (answer: Answer)
      modifies this
      ensures (State(), answer) == AfterFeed(codec, old(State()), data)
    {
      if payload.Some? {
        return Nothing;
      }
      buffer := buffer + data;
      while true
        invariant payload.None?
        invariant Drain(codec, Frame(chunks, encodedSize), buffer)
               == Drain(codec, old(Frame(chunks, encodedSize)), old(buffer) + data)
        decreases |buffer|
      {
        var newline := IndexOf(buffer, NEWLINE);
        if newline == |buffer| {
          var excess := |buffer| - LINE_LIMIT;
          if excess > 0 {
            buffer := buffer[excess..];
          }
          return Nothing;
        }
        var line := Rstrip(buffer[..newline]);
        buffer := buffer[newline + 1..];
        var step := Consume(codec, Frame(chunks, encodedSize), line);
        match step
        case More(frame) =>
          chunks, encodedSize := frame.chunks, frame.size;
        case Complete(p) =>
          payload := Some(p);
          return Payload(p);
        case Refused(reason, frame) =>
          chunks, encodedSize := frame.chunks, frame.size;
          return Raised(reason);
      }
    }
  }

  /** What `decode_lines` answers: the fold over the lines the list spells, which may themselves
      hold newlines, and a refusal when no trailer arrived. */
  function Decoded(codec: Codec, lines: seq<Bytes>): Answer {
    match FoldLines(codec, FRESH, Lines(Unlines(lines)).lines)
    case Open(_) => Raised(Incomplete)
    case Finished(payload, _) => Payload(payload)
    case Stopped(reason, _) => Raised(reason)
  }

  method DecodeLines(codec: Codec, lines: seq<Bytes>) returns (answer: Answer)
    ensures answer == Decoded(codec, lines)
  {
    var decoder := new FrameDecoder(codec);
    for i := 0 to |lines|
      invariant decoder.codec == codec
      invariant decoder.payload.None? && decoder.buffer == []
      invariant FoldLines(codec, decoder.State().frame, Lines(Unlines(lines[i..])).lines)
             == FoldLines(codec, FRESH, Lines(Unlines(lines)).lines)
    {
      ghost var line := lines[i] + [NEWLINE];
      assert decoder.buffer + line == line;
      LinesEndingInNewline(lines[i]);
      FeedStep(codec, decoder.State(), line, Unlines(lines[i + 1..]));
      assert lines[i..][1..] == lines[i + 1..];
      assert [] + Unlines(lines[i + 1..]) == Unlines(lines[i + 1..]);
      answer := decoder.Feed(lines[i] + [NEWLINE]);
      if !answer.Nothing? {
        return;
      }
    }
    return Raised(Incomplete);
  }
}

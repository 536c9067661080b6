/** What the framing codec promises of a stream cut into feeds: exactly which lines a cut can
    make of it, and so exactly when the cut does not matter. */
module SerialFrameLaws {
  import opened Bytes
  import opened SerialFrame

  // ----- what a run of feeds answers -----

  /** The answers of a run of feeds that says one thing: nothing at all, the payload exactly
      once, or the refusal last. */
  predicate Settles(answers: seq<Answer>, said: Answer) {
    match said
    case Nothing => forall i | 0 <= i < |answers| :: answers[i] == Nothing
    case Payload(_) =>
      exists i | 0 <= i < |answers| ::
        answers[i] == said && forall j | 0 <= j < |answers| && j != i :: answers[j] == Nothing
    case Raised(_) =>
      && answers != []
      && answers[|answers| - 1] == said
      && forall j | 0 <= j < |answers| - 1 :: answers[j] == Nothing
  }

  function Said(verdict: Verdict): Answer {
    match verdict
    case Open(_) => Nothing
    case Finished(payload, _) => Payload(payload)
    case Stopped(reason, _) => Raised(reason)
  }

  /** A run of feeds comes to a verdict: its answers say it, every feed is answered unless one
      is refused, and the decoder is left with the chunks the verdict holds. */
  predicate Reads(codec: Codec, d: Decoder, feeds: seq<Bytes>, verdict: Verdict) {
    && Settles(FeedAll(codec, d, feeds), Said(verdict))
    && (!verdict.Stopped? ==> |FeedAll(codec, d, feeds)| == |feeds|)
    && FedTo(codec, d, feeds).frame == verdict.frame
    && FedTo(codec, d, feeds).payload == (if verdict.Finished? then Some(verdict.payload) else None)
  }

  lemma SettlesAfterNothing(answers: seq<Answer>, said: Answer)
    requires Settles(answers, said)
    ensures Settles([Nothing] + answers, said)
  {
    var all := [Nothing] + answers;
    if said.Payload? {
      var i :| 0 <= i < |answers| && answers[i] == said
        && forall j | 0 <= j < |answers| && j != i :: answers[j] == Nothing;
      assert all[i + 1] == said;
    }
  }

  lemma SettlesOnce(answers: seq<Answer>, a: Answer, b: Answer)
    requires Settles(answers, a) && Settles(answers, b)
    ensures a == b
  {
  }

  lemma {:induction false} SilentAfterPayload(codec: Codec, d: Decoder, feeds: seq<Bytes>)
    requires d.payload.Some?
    ensures |FeedAll(codec, d, feeds)| == |feeds|
    ensures forall i | 0 <= i < |feeds| :: FeedAll(codec, d, feeds)[i] == Nothing
    ensures FedTo(codec, d, feeds) == d
    decreases |feeds|
  {
    if feeds != [] {
      SilentAfterPayload(codec, d, feeds[1..]);
    }
  }

  lemma ReadsAfterNothing(codec: Codec, d: Decoder, feed: Bytes, next: Decoder, feeds: seq<Bytes>, verdict: Verdict)
    requires AfterFeed(codec, d, feed) == (next, Nothing) && Reads(codec, next, feeds, verdict)
    ensures Reads(codec, d, [feed] + feeds, verdict)
  {
    assert ([feed] + feeds)[1..] == feeds;
    SettlesAfterNothing(FeedAll(codec, next, feeds), Said(verdict));
  }

  /** Once a feed has answered, the feeds after it change nothing. */
  lemma ReadsAfterAnswer(codec: Codec, d: Decoder, feed: Bytes, feeds: seq<Bytes>, verdict: Verdict)
    requires Leaves(AfterFeed(codec, d, feed), verdict, []) && !verdict.Open?
    ensures Reads(codec, d, [feed] + feeds, verdict)
  {
    var (next, answer) := AfterFeed(codec, d, feed);
    assert ([feed] + feeds)[1..] == feeds;
    if answer.Payload? {
      SilentAfterPayload(codec, next, feeds);
      assert FeedAll(codec, d, [feed] + feeds)[0] == answer;
    }
  }

  // ----- the lines a cut can make -----

  /** What may be read of a line: the line itself, or, when a feed ends inside one longer than
      the limit, a tail of it no shorter than the limit. */
  ghost predicate IsReading(read: Bytes, line: Bytes) {
    exists k: nat | k <= |line| :: TailMayStay(line, k) && read == line[k..]
  }

  predicate TailMayStay(line: Bytes, k: nat) {
    k == 0 || k + LINE_LIMIT <= |line|
  }

  ghost predicate AreReadings(read: seq<Bytes>, lines: seq<Bytes>) {
    |read| == |lines| && forall i | 0 <= i < |lines| :: IsReading(read[i], lines[i])
  }

  lemma ReadAsItIs(lines: seq<Bytes>)
    ensures AreReadings(lines, lines)
  {
    forall i | 0 <= i < |lines|
      ensures IsReading(lines[i], lines[i])
    {
      assert TailMayStay(lines[i], 0) && lines[i] == lines[i][0..];
    }
  }

  lemma ReadingsAppend(a: seq<Bytes>, b: seq<Bytes>, lines: seq<Bytes>, more: seq<Bytes>)
    requires AreReadings(a, lines) && AreReadings(b, more)
    ensures AreReadings(a + b, lines + more)
  {
  }

  /** What is dropped of an unfinished run shows only in the line it ends up in. */
  lemma DroppedIsReading(run: Bytes, data: Bytes)
    requires NEWLINE !in run
    ensures AreReadings(Lines(DropNoise(run) + data).lines, Lines(run + data).lines)
    ensures DropNoise(Lines(DropNoise(run) + data).rest) == DropNoise(Lines(run + data).rest)
  {
    var kept, at := DropNoise(run), IndexOf(data, NEWLINE);
    assert forall b :: b in kept ==> b in run;
    if at == |data| {
      assert data[..at] == data;
      LinesOfNone(run + data);
      LinesOfNone(kept + data);
      DropTwice(run, data);
    } else {
      var head, more := data[..at], data[at + 1..];
      LineAfter(run, data, at);
      LineAfter(kept, data, at);
      KeptIsReading(run, head);
      OneReading(kept + head, run + head);
      ReadAsItIs(Lines(more).lines);
      ReadingsAppend([kept + head], Lines(more).lines, [run + head], Lines(more).lines);
    }
  }

  lemma OneReading(read: Bytes, line: Bytes)
    requires IsReading(read, line)
    ensures AreReadings([read], [line])
  {
  }

  lemma DropTwice(run: Bytes, data: Bytes)
    ensures DropNoise(DropNoise(run) + data) == DropNoise(run + data)
  {
  }

  lemma LineAfter(run: Bytes, data: Bytes, at: nat)
    requires NEWLINE !in run && at == IndexOf(data, NEWLINE) < |data|
    ensures Lines(run + data) ==
            Text([run + data[..at]] + Lines(data[at + 1..]).lines, Lines(data[at + 1..]).rest)
  {
    assert run + data == (run + data[..at]) + [NEWLINE] + data[at + 1..];
    LinesOfOne(run + data[..at], data[at + 1..]);
  }

  lemma KeptIsReading(run: Bytes, head: Bytes)
    ensures IsReading(DropNoise(run) + head, run + head)
  {
    var k: nat := |run| - |DropNoise(run)|;
    assert DropNoise(run) + head == (run + head)[k..];
    assert TailMayStay(run + head, k);
  }

  // ----- every cut reads some of them -----

  /** However a stream is cut, what the feeds answer and leave is the plain fold over a reading
      of its lines. `run` is all that has arrived since the last newline. */
  lemma {:induction false} FeedsRead(codec: Codec, d: Decoder, run: Bytes, feeds: seq<Bytes>)
      returns (read: seq<Bytes>)
    requires NEWLINE !in run && d.payload == None && d.buffer == DropNoise(run)
    ensures AreReadings(read, Lines(run + Concat(feeds)).lines)
    ensures Reads(codec, d, feeds, FoldLines(codec, d.frame, read))
    ensures FoldLines(codec, d.frame, read).Open?
            ==> FedTo(codec, d, feeds).buffer == DropNoise(Lines(run + Concat(feeds)).rest)
    decreases |feeds|
  {
    if feeds == [] {
      assert run + Concat(feeds) == run;
      LinesOfNone(run);
      return [];
    }
    var feed, later := feeds[0], feeds[1..];
    var arrived, verdict := Lines(run + feed), FoldLines(codec, d.frame, Lines(d.buffer + feed).lines);
    DroppedIsReading(run, feed);
    DrainIsFold(codec, d.frame, d.buffer + feed);
    AppendAssociates(run, feed, Concat(later));
    LinesAppend(run + feed, Concat(later));
    HeadAndTail(feeds);
    var more: seq<Bytes>;
    if verdict.Open? {
      LinesHoldNoNewline(run + feed);
      var next := Decoder(DropNoise(arrived.rest), verdict.frame, None);
      more := FeedsRead(codec, next, arrived.rest, later);
      ReadsAfterNothing(codec, d, feed, next, later, FoldLines(codec, verdict.frame, more));
    } else {
      more := Lines(arrived.rest + Concat(later)).lines;
      ReadAsItIs(more);
      ReadsAfterAnswer(codec, d, feed, later, verdict);
    }
    read := Lines(d.buffer + feed).lines + more;
    FoldAppend(codec, d.frame, Lines(d.buffer + feed).lines, more);
    ReadingsAppend(Lines(d.buffer + feed).lines, more, arrived.lines, Lines(arrived.rest + Concat(later)).lines);
  }

  // ----- and every reading is some cut -----

  /** Where a feed must end inside a line for the tail from `k` on to be what is left of it. */
  function CutFor(k: nat): (cut: nat)
    ensures k <= cut
  {
    if k == 0 then 0 else k + LINE_LIMIT
  }

  lemma FirstHalf(codec: Codec, frame: Frame, line: Bytes, k: nat)
    requires NEWLINE !in line && CutFor(k) <= |line|
    ensures AfterFeed(codec, Decoder([], frame, None), line[..CutFor(k)])
            == (Decoder(line[k..CutFor(k)], frame, None), Nothing)
  {
    var head := line[..CutFor(k)];
    assert [] + head == head;
    assert head[..|head|] == head;
    assert IndexOf(head, NEWLINE) == |head|;
    assert DropNoise(head) == line[k..CutFor(k)];
  }

  lemma SecondHalf(codec: Codec, frame: Frame, line: Bytes, k: nat)
    requires NEWLINE !in line && CutFor(k) <= |line|
    ensures Leaves(AfterFeed(codec, Decoder(line[k..CutFor(k)], frame, None), line[CutFor(k)..] + [NEWLINE]),
                   FoldLines(codec, frame, [line[k..]]), [])
  {
    var buffer := line[k..CutFor(k)] + (line[CutFor(k)..] + [NEWLINE]);
    assert buffer == line[k..] + [NEWLINE] + [];
    LinesOfOne(line[k..], []);
    DrainIsFold(codec, frame, buffer);
  }

  /** A line fed in two pieces so that only its tail from `k` on is read. */
  function Halves(line: Bytes, k: nat, later: seq<Bytes>): seq<Bytes>
    requires CutFor(k) <= |line|
  {
    [line[..CutFor(k)]] + ([line[CutFor(k)..] + [NEWLINE]] + later)
  }

  lemma HalvesRead(codec: Codec, frame: Frame, line: Bytes, k: nat, later: seq<Bytes>, verdict: Verdict)
    requires NEWLINE !in line && CutFor(k) <= |line|
    requires var first := FoldLines(codec, frame, [line[k..]]);
             if first.Open? then Reads(codec, Decoder([], first.frame, None), later, verdict)
             else verdict == first
    ensures Reads(codec, Decoder([], frame, None), Halves(line, k, later), verdict)
  {
    var half, first := Decoder(line[k..CutFor(k)], frame, None), FoldLines(codec, frame, [line[k..]]);
    var ending := line[CutFor(k)..] + [NEWLINE];
    FirstHalf(codec, frame, line, k);
    SecondHalf(codec, frame, line, k);
    if first.Open? {
      ReadsAfterNothing(codec, half, ending, Decoder([], first.frame, None), later, verdict);
    } else {
      ReadsAfterAnswer(codec, half, ending, later, verdict);
    }
    ReadsAfterNothing(codec, Decoder([], frame, None), line[..CutFor(k)], half, [ending] + later, verdict);
  }

  lemma HalvesConcat(line: Bytes, k: nat, later: seq<Bytes>)
    requires CutFor(k) <= |line|
    ensures Concat(Halves(line, k, later)) == line + [NEWLINE] + Concat(later)
  {
    var first, second := line[..CutFor(k)], line[CutFor(k)..] + [NEWLINE];
    assert ([second] + later)[1..] == later;
    assert ([first] + ([second] + later))[1..] == [second] + later;
    assert first + second == line + [NEWLINE];
    AppendAssociates(first, second, Concat(later));
  }

  lemma FirstReading(read: seq<Bytes>, lines: seq<Bytes>) returns (k: nat)
    requires AreReadings(read, lines) && lines != []
    ensures CutFor(k) <= |lines[0]| && read[0] == lines[0][k..]
    ensures AreReadings(read[1..], lines[1..])
  {
    assert IsReading(read[0], lines[0]);
    k :| k <= |lines[0]| && TailMayStay(lines[0], k) && read[0] == lines[0][k..];
    forall i | 0 <= i < |lines| - 1
      ensures IsReading(read[1..][i], lines[1..][i])
    {
      assert IsReading(read[i + 1], lines[i + 1]);
    }
  }

  lemma FirstLine(s: Bytes, at: nat)
    requires at == IndexOf(s, NEWLINE) < |s|
    ensures Lines(s).lines == [s[..at]] + Lines(s[at + 1..]).lines
  {
  }

  lemma LineAndRest(s: Bytes, at: nat)
    requires at < |s| && s[at] == NEWLINE
    ensures s[..at] + [NEWLINE] + s[at + 1..] == s
  {
  }

  lemma RestAlone(codec: Codec, frame: Frame, s: Bytes)
    requires IndexOf(s, NEWLINE) == |s|
    ensures Lines(s).lines == []
    ensures Reads(codec, Decoder([], frame, None), [s], Open(frame))
  {
    var next := Decoder(DropNoise(s), frame, None);
    assert AfterFeed(codec, Decoder([], frame, None), s) == (next, Nothing) by {
      assert [] + s == s;
    }
    NothingMore(codec, next);
    ReadsAfterNothing(codec, Decoder([], frame, None), s, next, [], Open(frame));
  }

  lemma NothingMore(codec: Codec, d: Decoder)
    requires d.payload == None
    ensures Reads(codec, d, [], Open(d.frame))
  {
  }

  lemma ConcatOne<T>(part: seq<T>)
    ensures Concat([part]) == part
  {
    assert part + [] == part;
  }

  /** Every choice of readings is what some cut makes of the stream. */
  lemma {:induction false} SomeCutReads(codec: Codec, frame: Frame, s: Bytes, read: seq<Bytes>)
      returns (feeds: seq<Bytes>)
    requires AreReadings(read, Lines(s).lines)
    ensures Concat(feeds) == s
    ensures Reads(codec, Decoder([], frame, None), feeds, FoldLines(codec, frame, read))
    decreases |s|
  {
    var at := IndexOf(s, NEWLINE);
    if at == |s| {
      RestAlone(codec, frame, s);
      ConcatOne(s);
      return [s];
    }
    FirstLine(s, at);
    LineAndRest(s, at);
    var k := FirstReading(read, Lines(s).lines);
    var line, later := s[..at], [s[at + 1..]];
    HeadAndTail(read);
    FoldAppend(codec, frame, [line[k..]], read[1..]);
    if FoldLines(codec, frame, [line[k..]]).Open? {
      later := SomeCutReads(codec, FoldLines(codec, frame, [line[k..]]).frame, s[at + 1..], read[1..]);
    } else {
      ConcatOne(s[at + 1..]);
    }
    HalvesRead(codec, frame, line, k, later, FoldLines(codec, frame, read));
    HalvesConcat(line, k, later);
    feeds := Halves(line, k, later);
  }

  // ----- exactly when the cut does not matter -----

  lemma ReadsOnce(codec: Codec, d: Decoder, feeds: seq<Bytes>, a: Verdict, b: Verdict)
    requires Reads(codec, d, feeds, a) && Reads(codec, d, feeds, b)
    ensures a == b
  {
    SettlesOnce(FeedAll(codec, d, feeds), Said(a), Said(b));
  }

  predicate IsCut(feeds: seq<Bytes>, s: Bytes) {
    Concat(feeds) == s
  }

  ghost predicate MayBeRead(lines: seq<Bytes>, s: Bytes) {
    AreReadings(lines, Lines(s).lines)
  }

  lemma CutReads(codec: Codec, feeds: seq<Bytes>, s: Bytes) returns (read: seq<Bytes>)
    requires IsCut(feeds, s)
    ensures MayBeRead(read, s) && Reads(codec, START, feeds, FoldLines(codec, FRESH, read))
  {
    assert [] + s == s;
    read := FeedsRead(codec, START, [], feeds);
  }

  lemma ReadByCut(codec: Codec, read: seq<Bytes>, s: Bytes) returns (feeds: seq<Bytes>)
    requires MayBeRead(read, s)
    ensures IsCut(feeds, s) && Reads(codec, START, feeds, FoldLines(codec, FRESH, read))
  {
    feeds := SomeCutReads(codec, FRESH, s, read);
  }

  /** Every cut of a stream comes to one verdict, chunks held included, if and only if every
      choice of readings of its lines folds to it. */
  lemma CutsAgreeExactly(codec: Codec, s: Bytes, verdict: Verdict)
    ensures (forall feeds | IsCut(feeds, s) :: Reads(codec, START, feeds, verdict))
       <==> (forall read | MayBeRead(read, s) :: FoldLines(codec, FRESH, read) == verdict)
  {
    forall read | MayBeRead(read, s)
      ensures (forall feeds | IsCut(feeds, s) :: Reads(codec, START, feeds, verdict))
              ==> FoldLines(codec, FRESH, read) == verdict
    {
      var feeds := ReadByCut(codec, read, s);
      if Reads(codec, START, feeds, verdict) {
        ReadsOnce(codec, START, feeds, verdict, FoldLines(codec, FRESH, read));
      }
    }
    forall feeds | IsCut(feeds, s)
      ensures (forall read | MayBeRead(read, s) :: FoldLines(codec, FRESH, read) == verdict)
              ==> Reads(codec, START, feeds, verdict)
    {
      var read := CutReads(codec, feeds, s);
    }
  }

  /** The answers alone: every cut answers one thing if and only if every choice of readings
      says it. */
  lemma AnswersAgreeExactly(codec: Codec, s: Bytes, said: Answer)
    ensures (forall feeds | IsCut(feeds, s) :: Settles(FeedAll(codec, START, feeds), said))
       <==> (forall read | MayBeRead(read, s) :: Said(FoldLines(codec, FRESH, read)) == said)
  {
    forall read | MayBeRead(read, s)
      ensures (forall feeds | IsCut(feeds, s) :: Settles(FeedAll(codec, START, feeds), said))
              ==> Said(FoldLines(codec, FRESH, read)) == said
    {
      var feeds := ReadByCut(codec, read, s);
      if Settles(FeedAll(codec, START, feeds), said) {
        SettlesOnce(FeedAll(codec, START, feeds), said, Said(FoldLines(codec, FRESH, read)));
      }
    }
    forall feeds | IsCut(feeds, s)
      ensures (forall read | MayBeRead(read, s) :: Said(FoldLines(codec, FRESH, read)) == said)
              ==> Settles(FeedAll(codec, START, feeds), said)
    {
      var read := CutReads(codec, feeds, s);
    }
  }

  // ----- streams of short lines -----

  /** Every complete line of the stream is within the limit. */
  predicate ShortLines(s: Bytes) {
    forall l :: l in Lines(s).lines ==> |l| <= LINE_LIMIT
  }

  lemma ShortLinesReadAsTheyAre(s: Bytes, read: seq<Bytes>)
    requires ShortLines(s) && AreReadings(read, Lines(s).lines)
    ensures read == Lines(s).lines
  {
    var lines := Lines(s).lines;
    forall i | 0 <= i < |lines|
      ensures read[i] == lines[i]
    {
      assert IsReading(read[i], lines[i]);
      var k: nat :| k <= |lines[i]| && TailMayStay(lines[i], k) && read[i] == lines[i][k..];
      assert lines[i] in lines;
      assert k == 0;
    }
  }

  /** Feed-split invariance: from any decoder still reading, however the rest of a stream of
      short lines is cut, the feeds come to the plain fold over its lines, and while it is open
      what is left over stays buffered. */
  lemma FeedsSettle(codec: Codec, d: Decoder, feeds: seq<Bytes>)
    requires d.payload.None? && NEWLINE !in d.buffer && |d.buffer| <= LINE_LIMIT
    requires ShortLines(d.buffer + Concat(feeds))
    ensures var stream := Lines(d.buffer + Concat(feeds));
            var verdict := FoldLines(codec, d.frame, stream.lines);
            && Reads(codec, d, feeds, verdict)
            && (verdict.Open? ==> FedTo(codec, d, feeds) == Decoder(DropNoise(stream.rest), verdict.frame, None))
  {
    var read := FeedsRead(codec, d, d.buffer, feeds);
    ShortLinesReadAsTheyAre(d.buffer + Concat(feeds), read);
  }

  /** Two ways of cutting one stream come to the same verdict and hold the same chunks. */
  lemma FeedSplitInvariance(codec: Codec, feeds: seq<Bytes>, others: seq<Bytes>)
    requires Concat(feeds) == Concat(others) && ShortLines(Concat(feeds))
    ensures var verdict := FoldLines(codec, FRESH, Lines(Concat(feeds)).lines);
            && Reads(codec, START, feeds, verdict)
            && Reads(codec, START, others, verdict)
            && (verdict.Open? ==> FedTo(codec, START, feeds) == FedTo(codec, START, others))
  {
    assert START.buffer + Concat(feeds) == Concat(feeds);
    assert START.buffer + Concat(others) == Concat(feeds);
    FeedsSettle(codec, START, feeds);
    FeedsSettle(codec, START, others);
  }

  // ----- a line longer than the limit -----

  /** A chunk line too wide to be read, exactly one line limit long. */
  function WideLine(codec: Codec): Bytes
    requires |codec.ChunkPrefix()| == 41
  {
    codec.ChunkPrefix() + seq(LINE_LIMIT - 41, _ => 65)
  }

  lemma LineOf(line: Bytes)
    requires NEWLINE !in line && line != [] && line[|line| - 1] != RETURN
    ensures IndexOf(line + [NEWLINE], NEWLINE) == |line|
    ensures (line + [NEWLINE])[..|line|] == line && (line + [NEWLINE])[|line| + 1..] == []
    ensures Rstrip(line) == line
  {
    assert (line + [NEWLINE])[..|line|] == line;
    IndexOfFirst(line + [NEWLINE], NEWLINE, |line|);
  }

  lemma WideLineIsMalformed(codec: Codec)
    requires |codec.ChunkPrefix()| == 41 && NEWLINE !in WideLine(codec)
    ensures Drain(codec, FRESH, WideLine(codec) + [NEWLINE]).1 == Raised(Malformed)
  {
    var line := WideLine(codec);
    assert line[|line| - 1] == 65;
    LineOf(line);
    var rest := line[41..];
    assert rest == seq(LINE_LIMIT - 41, _ => 65);
    assert IndexOf(rest, SEPARATOR) == |rest|;
    assert rest[..|rest|] == rest;
    assert line[..41] == codec.ChunkPrefix();
    assert Consume(codec, FRESH, line) == Refused(Malformed, FRESH);
  }

  lemma NoiseIsDropped(codec: Codec, line: Bytes)
    requires NEWLINE !in line && line != [] && line[0] == 120 && line[|line| - 1] != RETURN
    ensures Drain(codec, FRESH, line + [NEWLINE]) == (START, Nothing)
  {
    LineOf(line);
    assert codec.ChunkPrefix()[0] == 65 && codec.TrailerPrefix()[0] == 65;
    assert Consume(codec, FRESH, line) == More(FRESH);
    assert Drain(codec, FRESH, []) == (START, Nothing);
  }

  lemma CutRun(codec: Codec, run: Bytes)
    requires |codec.ChunkPrefix()| == 41 && run == [120] + WideLine(codec) && NEWLINE !in run
    ensures AfterFeed(codec, START, run) == (Decoder(WideLine(codec), FRESH, None), Nothing)
  {
    assert START.buffer + run == run;
    assert run[|run| - LINE_LIMIT..] == WideLine(codec);
  }

  lemma OneFeed(codec: Codec, d: Decoder, a: Bytes, answer: Answer)
    requires AfterFeed(codec, d, a).1 == answer
    ensures FeedAll(codec, d, [a]) == [answer]
  {
  }

  lemma TwoFeeds(codec: Codec, d: Decoder, a: Bytes, b: Bytes, mid: Decoder, answer: Answer)
    requires AfterFeed(codec, d, a) == (mid, Nothing) && AfterFeed(codec, mid, b).1 == answer
    ensures FeedAll(codec, d, [a, b]) == [Nothing, answer]
  {
    assert [a, b][1..] == [b];
    OneFeed(codec, mid, b, answer);
  }

  /** A longer line may read differently: a feed that ends inside it cuts its head off, and what
      is left may start with the chunk prefix. */
  lemma LongRunsDependOnTheCut(codec: Codec, run: Bytes)
    requires codec.Valid() && run == [120] + WideLine(codec)
    ensures FeedAll(codec, START, [run + [NEWLINE]]) == [Nothing]
    ensures FeedAll(codec, START, [run, [NEWLINE]]) == [Nothing, Raised(Malformed)]
  {
    var wide := WideLine(codec);
    assert NEWLINE !in codec.ChunkPrefix();
    assert run[|run| - 1] == wide[|wide| - 1] == 65;
    assert FeedAll(codec, START, [run + [NEWLINE]]) == [Nothing] by {
      NoiseIsDropped(codec, run);
      assert START.buffer + (run + [NEWLINE]) == run + [NEWLINE];
      OneFeed(codec, START, run + [NEWLINE], Nothing);
    }
    assert FeedAll(codec, START, [run, [NEWLINE]]) == [Nothing, Raised(Malformed)] by {
      CutRun(codec, run);
      WideLineIsMalformed(codec);
      TwoFeeds(codec, START, run, [NEWLINE], Decoder(wide, FRESH, None), Raised(Malformed));
    }
  }
}

/** A whole transcript consumed line by line within its limits
    (src/apex/verification/fingerprinttrace.py:296-334), and what its summary claims. */
module TraceCapture {
  import opened Bytes
  import opened Trace
  import opened TraceLaws

  const EVENT_LIMIT: nat := 2000
  const ERROR_LIMIT: nat := 20
  const LINE_LIMIT: nat := 262144
  const RAW_LIMIT: nat := 262144

  /** What the JSON parser and the canonical encoder do is left open. */
  type Parser = Bytes -> Option<Value>
  type Encoder = Stamped -> Bytes

  predicate IsSpace(b: byte) {
    9 <= b <= 13 || b == 32
  }

  predicate IsBlank(line: Bytes) {
    forall i | 0 <= i < |line| :: IsSpace(line[i])
  }

  function ParseLine(parse: Parser, line: Bytes): Option<Value> {
    if |line| > LINE_LIMIT then None else parse(line)
  }

  /** The pieces of a stream between its newlines; the last is what follows the last newline. */
  function Pieces(stream: Bytes): seq<Bytes> {
    Lines(stream).lines + [Lines(stream).rest]
  }

  datatype Intake = Intake(state: State, errors: seq<Fault>, kept: seq<Bytes>)

  /** One line that parsed, after its message was fed. */
  function Kept(p: Intake, m: Value, encode: Encoder): Intake {
    var t := Fed(p.state, m);
    match AnswerTo(p.state, m)
    case Refused => Intake(t, p.errors + [MalformedEvent], p.kept)
    case Nothing => Intake(t, p.errors, p.kept)
    case Kept(_) => Intake(t, p.errors, p.kept + (if t.events == [] then [] else [encode(t.events[|t.events| - 1])]))
  }

  /** One line within the raw limit, and whether reading goes on after it. */
  function Line(p: Intake, line: Bytes, parse: Parser, encode: Encoder): (Intake, bool) {
    var parsed := ParseLine(parse, line);
    var q := if parsed.None? then p.(errors := p.errors + [MalformedEvent]) else Kept(p, parsed.value, encode);
    if |q.errors| > |p.errors| then (q, |q.errors| < ERROR_LIMIT)
    else if |q.state.events| >= EVENT_LIMIT then (q.(errors := q.errors + [SizeLimit]), false)
    else (q, true)
  }

  function Consumed(p: Intake, lines: seq<Bytes>, at: nat, parse: Parser, encode: Encoder): Intake
    decreases |lines|
  {
    if lines == [] then p
    else
      var end := at + |lines[0]| + 1;
      if IsBlank(lines[0]) then Consumed(p, lines[1..], end, parse, encode)
      else if end > RAW_LIMIT then p.(errors := p.errors + [SizeLimit])
      else
        var (q, more) := Line(p, lines[0], parse, encode);
        if more then Consumed(q, lines[1..], end, parse, encode) else q
  }

  /** Consumes a transcript: the lines kept, encoded. */
  method Consume(trace: Recorder, stream: Bytes, parse: Parser, encode: Encoder) returns (kept: seq<Bytes>)
    modifies trace
    ensures Intake(trace.Contents(), trace.errors, kept) ==
            Consumed(Intake(old(trace.Contents()), old(trace.errors), []), Pieces(stream), 0, parse, encode)
  {
    kept := [];
    var consumed: nat := 0;
    var lines := Pieces(stream);
    ghost var all := Consumed(Intake(trace.Contents(), trace.errors, []), lines, 0, parse, encode);
    for i := 0 to |lines|
      invariant Consumed(Intake(trace.Contents(), trace.errors, kept), lines[i..], consumed, parse, encode) == all
    {
      var line := lines[i];
      assert lines[i..][0] == line && lines[i..][1..] == lines[i + 1..];
      consumed := consumed + |line| + 1;
      if !IsBlank(line) {
        if consumed > RAW_LIMIT {
          trace.errors := trace.errors + [SizeLimit];
          return;
        }
        var parsed := ParseLine(parse, line);
        var answer := Refused;
        if parsed.Some? {
          answer := trace.Feed(parsed.value);
        }
        if answer.Refused? {
          trace.errors := trace.errors + [MalformedEvent];
          if |trace.errors| >= ERROR_LIMIT { return; }
        } else {
          if answer.Kept? && trace.events != [] {
            kept := kept + [encode(trace.events[|trace.events| - 1])];
          }
          if |trace.events| >= EVENT_LIMIT {
            trace.errors := trace.errors + [SizeLimit];
            return;
          }
        }
      }
    }
  }

  // ----- what is kept -----

  function Encoded(events: seq<Stamped>, encode: Encoder): (lines: seq<Bytes>)
    ensures |lines| == |events|
  {
    if events == [] then [] else Encoded(events[..|events| - 1], encode) + [encode(events[|events| - 1])]
  }

  /** Within its limits, and keeping one encoded line for each event. */
  predicate Bounded(p: Intake, encode: Encoder) {
    |p.state.events| <= EVENT_LIMIT && |p.errors| <= ERROR_LIMIT && p.kept == Encoded(p.state.events, encode)
  }

  /** More can still be read. */
  predicate Open(p: Intake, encode: Encoder) {
    |p.state.events| < EVENT_LIMIT && |p.errors| < ERROR_LIMIT && p.kept == Encoded(p.state.events, encode)
  }

  lemma KeptIsEncoded(p: Intake, m: Value, encode: Encoder)
    requires Open(p, encode)
    ensures Bounded(Kept(p, m, encode), encode)
    ensures |Kept(p, m, encode).errors| == |p.errors| || Kept(p, m, encode).state.events == p.state.events
  {
    var t := Fed(p.state, m);
    if Handle(p.state, m).Yields? {
      HandleIsSeen(p.state, m);
      if HasTime(m) { assert t.events[..|t.events| - 1] == p.state.events; }
    }
  }

  lemma LineIsBounded(p: Intake, line: Bytes, parse: Parser, encode: Encoder)
    requires Open(p, encode)
    ensures var (q, more) := Line(p, line, parse, encode); Bounded(q, encode) && (more ==> Open(q, encode))
  {
    var parsed := ParseLine(parse, line);
    if parsed.Some? { KeptIsEncoded(p, parsed.value, encode); }
  }

  /** Whatever the transcript, consuming it keeps at most two thousand events and twenty faults, and
      the kept lines are exactly the events, in order. */
  lemma {:induction false} ConsumedIsBounded(p: Intake, lines: seq<Bytes>, at: nat, parse: Parser, encode: Encoder)
    requires Open(p, encode)
    ensures Bounded(Consumed(p, lines, at, parse, encode), encode)
    decreases |lines|
  {
    if lines != [] {
      var end := at + |lines[0]| + 1;
      LineIsBounded(p, lines[0], parse, encode);
      if IsBlank(lines[0]) {
        ConsumedIsBounded(p, lines[1..], end, parse, encode);
      } else if end <= RAW_LIMIT {
        var (q, more) := Line(p, lines[0], parse, encode);
        if more { ConsumedIsBounded(q, lines[1..], end, parse, encode); }
      }
    }
  }

  /** Every message the lines hold carries a time. */
  ghost predicate ParsesTimed(parse: Parser, lines: seq<Bytes>) {
    forall l | l in lines && parse(l).Some? :: HasTime(parse(l).value)
  }

  /** What such a transcript leaves in memory is what its kept events tell. */
  lemma {:induction false} ConsumedIsTold(p: Intake, lines: seq<Bytes>, at: nat, parse: Parser, encode: Encoder)
    requires Told(p.state) && ParsesTimed(parse, lines)
    ensures Told(Consumed(p, lines, at, parse, encode).state)
    decreases |lines|
  {
    if lines != [] {
      var end := at + |lines[0]| + 1;
      assert forall l | l in lines[1..] :: l in lines;
      if IsBlank(lines[0]) {
        ConsumedIsTold(p, lines[1..], end, parse, encode);
      } else if end <= RAW_LIMIT {
        var (q, more) := Line(p, lines[0], parse, encode);
        LineIsTold(p, lines[0], parse, encode);
        if more { ConsumedIsTold(q, lines[1..], end, parse, encode); }
      }
    }
  }

  lemma LineIsTold(p: Intake, line: Bytes, parse: Parser, encode: Encoder)
    requires Told(p.state) && (parse(line).Some? ==> HasTime(parse(line).value))
    ensures Told(Line(p, line, parse, encode).0.state)
  {
    var parsed := ParseLine(parse, line);
    if parsed.Some? {
      FedIsToldExactly(p.state, parsed.value);
    }
  }

  // ----- the whole capture -----

  /** The capture status OBSERVED. */
  predicate Observed(s: State, errors: seq<Fault>) {
    errors == [] && s.pending == map[] && s.events != []
  }

  /** What follows the last newline, when it is not blank, is a message cut short. */
  function CapturedOf(stream: Bytes, parse: Parser, encode: Encoder): Intake {
    var p := Consumed(Intake(EMPTY, [], []), Pieces(stream), 0, parse, encode);
    if IsBlank(Lines(stream).rest) then p else p.(errors := p.errors + [PartialEvent])
  }

  /** A capture of one transcript: the lines of its file, and whether its summary says observed. */
  method Capture(stream: Bytes, parse: Parser, encode: Encoder) returns (file: seq<Bytes>, observed: bool)
    ensures file == CapturedOf(stream, parse, encode).kept
    ensures observed == Observed(CapturedOf(stream, parse, encode).state, CapturedOf(stream, parse, encode).errors)
  {
    var trace := new Recorder();
    file := Consume(trace, stream, parse, encode);
    if !IsBlank(Lines(stream).rest) {
      trace.errors := trace.errors + [PartialEvent];
    }
    observed := trace.errors == [] && trace.pending == map[] && trace.events != [];
  }

  /** A capture holds at most two thousand events, and at most twenty-one faults: the last may be
      that the transcript ends inside a message. Its file holds exactly its events, in order. */
  lemma CaptureIsBounded(stream: Bytes, parse: Parser, encode: Encoder)
    ensures var p := CapturedOf(stream, parse, encode);
            && |p.state.events| <= EVENT_LIMIT && |p.errors| <= ERROR_LIMIT + 1
            && p.kept == Encoded(p.state.events, encode)
  {
    ConsumedIsBounded(Intake(EMPTY, [], []), Pieces(stream), 0, parse, encode);
  }

  /** A capture summarised as observed was read to its end: nothing was cut off, and of a transcript
      of timed messages the state is what its file tells. */
  lemma ObservedIsWhole(stream: Bytes, parse: Parser, encode: Encoder)
    requires var p := CapturedOf(stream, parse, encode); Observed(p.state, p.errors)
    ensures IsBlank(Lines(stream).rest)
    ensures ParsesTimed(parse, Pieces(stream)) ==> Told(CapturedOf(stream, parse, encode).state)
  {
    if ParsesTimed(parse, Pieces(stream)) {
      ConsumedIsTold(Intake(EMPTY, [], []), Pieces(stream), 0, parse, encode);
    }
  }

  /** An observed capture left no call unanswered: each was answered, repeated under its serial, or
      cleared with the daemon. */
  lemma ObservedLeavesNoneOpen(s: State, errors: seq<Fault>, i: nat)
    requires Told(s) && Observed(s, errors) && i < |s.events| && s.events[i].event.Call?
    ensures var e := s.events[i].event;
            exists k | i < k < |s.events| :: Touches(s.events[k].event, (e.client, e.serial))
  {
    var e, n := s.events[i].event, |s.events|;
    var key, asked := (e.client, e.serial), Asked(e.method_, e.device);
    assert s.events[..n] == s.events;
    assert key !in OpenOf(s.pending);
    if !exists k | i < k < n :: Touches(s.events[k].event, key) {
      assert OpenedBy(s.events, i, n, key, asked);
      StaysOpen(s.events, i, n, key, asked);
    }
  }

  // ----- when nothing went wrong -----

  /** The lines that hold something. */
  function Written(lines: seq<Bytes>): seq<Bytes> {
    if lines == [] then []
    else if IsBlank(lines[0]) then Written(lines[1..])
    else [lines[0]] + Written(lines[1..])
  }

  /** Every line that holds something ends within the raw limit, its newline counted. */
  predicate AllWithin(lines: seq<Bytes>, at: nat) {
    lines != [] ==>
      var end := at + |lines[0]| + 1;
      (!IsBlank(lines[0]) ==> end <= RAW_LIMIT) && AllWithin(lines[1..], end)
  }

  /** The messages are read in turn: every line is within its limit and parses, no message is refused,
      and the events stay below their limit. */
  predicate ReadsOn(s: State, lines: seq<Bytes>, parse: Parser)
    decreases |lines|
  {
    lines != [] ==>
      && |lines[0]| <= LINE_LIMIT && parse(lines[0]).Some?
      && var m := parse(lines[0]).value;
         AnswerTo(s, m) != Refused && |Fed(s, m).events| < EVENT_LIMIT && ReadsOn(Fed(s, m), lines[1..], parse)
  }

  /** The state they leave. */
  function StateAfter(s: State, lines: seq<Bytes>, parse: Parser): State
    requires ReadsOn(s, lines, parse)
    decreases |lines|
  {
    if lines == [] then s else StateAfter(Fed(s, parse(lines[0]).value), lines[1..], parse)
  }

  lemma LineExactly(p: Intake, line: Bytes, parse: Parser, encode: Encoder)
    requires p.errors == [] && |p.state.events| < EVENT_LIMIT
    ensures var (q, more) := Line(p, line, parse, encode);
            && (q.errors == [] <==>
                  |line| <= LINE_LIMIT && parse(line).Some? && AnswerTo(p.state, parse(line).value) != Refused
                  && |Fed(p.state, parse(line).value).events| < EVENT_LIMIT)
            && (q.errors == [] ==> more && q.state == Fed(p.state, parse(line).value))
            && (q.errors != [] && more ==> |q.errors| == 1)
  {
  }

  lemma {:induction false} FaultsStay(p: Intake, lines: seq<Bytes>, at: nat, parse: Parser, encode: Encoder)
    requires p.errors != []
    ensures Consumed(p, lines, at, parse, encode).errors != []
    decreases |lines|
  {
    if lines != [] {
      var end := at + |lines[0]| + 1;
      if IsBlank(lines[0]) {
        FaultsStay(p, lines[1..], end, parse, encode);
      } else if end <= RAW_LIMIT {
        var (q, more) := Line(p, lines[0], parse, encode);
        if more { FaultsStay(q, lines[1..], end, parse, encode); }
      }
    }
  }

  /** No fault is recorded exactly when every line that holds something is within the limits, parses
      and is not refused, and the events stay below theirs; then every message was fed, in order. */
  lemma {:induction false} CleanExactly(p: Intake, lines: seq<Bytes>, at: nat, parse: Parser, encode: Encoder)
    requires p.errors == [] && |p.state.events| < EVENT_LIMIT
    ensures var q := Consumed(p, lines, at, parse, encode);
            && (q.errors == [] <==> AllWithin(lines, at) && ReadsOn(p.state, Written(lines), parse))
            && (q.errors == [] ==> q.state == StateAfter(p.state, Written(lines), parse))
    decreases |lines|
  {
    if lines != [] {
      var line, rest, end := lines[0], lines[1..], at + |lines[0]| + 1;
      if IsBlank(line) {
        CleanExactly(p, rest, end, parse, encode);
      } else if end <= RAW_LIMIT {
        var (q, more) := Line(p, line, parse, encode);
        LineExactly(p, line, parse, encode);
        assert Written(lines)[1..] == Written(rest);
        if q.errors == [] {
          CleanExactly(q, rest, end, parse, encode);
        } else if more {
          FaultsStay(q, rest, end, parse, encode);
        }
      }
    }
  }

  /** A capture is summarised as observed exactly when its transcript ends with a newline or in blanks,
      was read to its end without a fault, left no call open and told of something. */
  lemma ObservedExactly(stream: Bytes, parse: Parser, encode: Encoder)
    ensures var p, lines := CapturedOf(stream, parse, encode), Written(Pieces(stream));
            Observed(p.state, p.errors) <==>
              && IsBlank(Lines(stream).rest)
              && AllWithin(Pieces(stream), 0) && ReadsOn(EMPTY, lines, parse)
              && StateAfter(EMPTY, lines, parse).pending == map[] && |StateAfter(EMPTY, lines, parse).events| > 0
  {
    CleanExactly(Intake(EMPTY, [], []), Pieces(stream), 0, parse, encode);
  }
}

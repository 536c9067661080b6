/** Reading objects from git in one batch (src/apex/workspace/gitreading.py:68-126): the parser of
    `git cat-file --batch` and `--batch-check`, against the output format of git-cat-file's manual
    page, section "BATCH OUTPUT". */
module GitReading {
  import opened Bytes

  const SPACE: byte := 32
  /** "missing". */
  const MISSING: Bytes := [109, 105, 115, 115, 105, 110, 103]

  /** The white space of ASCII text. */
  predicate IsSpace(b: byte) {
    9 <= b <= 13 || 28 <= b <= 32
  }

  predicate IsToken(s: Bytes) {
    s != [] && forall i | 0 <= i < |s| :: !IsSpace(s[i])
  }

  // ----- splitting -----

  /** How many bytes come before the first white space. */
  function WordEnd(s: Bytes): (n: nat)
    ensures n <= |s|
    ensures s != [] && !IsSpace(s[0]) ==> n > 0
  {
    if s == [] || IsSpace(s[0]) then 0 else 1 + WordEnd(s[1..])
  }

  /** The words of a line, as a split at white space gives them. */
  function Words(s: Bytes): seq<Bytes>
    decreases |s|
  {
    if s == [] then []
    else if IsSpace(s[0]) then Words(s[1..])
    else [s[..WordEnd(s)]] + Words(s[WordEnd(s)..])
  }

  /** A decimal number; none where the text is none. */
  function NumberOf(s: Bytes): Option<nat> {
    if s != [] && AllDigits(s) then Some(ParseDecimal(s)) else None
  }

  // ----- what git answers -----

  /** One answer to one requested name. */
  datatype Reply = Found(name: Bytes, kind: Bytes, body: Bytes) | Missing(name: Bytes) {
    /** Names and kinds are single words; a body is any bytes at all. */
    predicate Valid() {
      IsToken(name) && (Found? ==> IsToken(kind))
    }

    function Header(): Bytes {
      if Found? then name + ([SPACE] + (kind + ([SPACE] + Decimal(|body|)))) else name + ([SPACE] + MISSING)
    }

    function Batch(): Bytes {
      Header() + [NEWLINE] + (if Found? then body + [NEWLINE] else [])
    }
  }

  predicate AllValid(replies: seq<Reply>) {
    forall i | 0 <= i < |replies| :: replies[i].Valid()
  }

  function BatchOf(replies: seq<Reply>): Bytes {
    if replies == [] then [] else replies[0].Batch() + BatchOf(replies[1..])
  }

  /** The answer to a request for sizes alone: the headers, one a line. */
  function CheckOf(replies: seq<Reply>): Bytes {
    if replies == [] then [] else replies[0].Header() + [NEWLINE] + CheckOf(replies[1..])
  }

  function Taken(known: map<Bytes, Bytes>, r: Reply): map<Bytes, Bytes> {
    if r.Found? then known[r.name := r.body] else known
  }

  /** The objects of an answer, the last of a name where it repeats. */
  function Objects(replies: seq<Reply>, known: map<Bytes, Bytes>): map<Bytes, Bytes> {
    if replies == [] then known else Objects(replies[1..], Taken(known, replies[0]))
  }

  function SizesOf(replies: seq<Reply>, known: map<Bytes, nat>): map<Bytes, nat> {
    if replies == [] then known
    else SizesOf(replies[1..], if replies[0].Found? then known[replies[0].name := |replies[0].body|] else known)
  }

  // ----- the batch parser -----

  /** Where the line that begins at a place ends. */
  function EndFrom(answer: Bytes, at: nat): (end: nat)
    requires at <= |answer|
    ensures at <= end <= |answer|
    decreases |answer| - at
  {
    if at == |answer| || answer[at] == NEWLINE then at else EndFrom(answer, at + 1)
  }

  /** A slice, cut short where the bytes are. */
  function Slice(answer: Bytes, at: nat, size: nat): Bytes
    requires at <= |answer|
  {
    if at + size <= |answer| then answer[at..at + size] else answer[at..]
  }

  /** How text is split at white space, and how a decimal number is read. */
  type Split = Bytes -> seq<Bytes>
  type Number = Bytes -> Option<nat>

  /** What is found from a place on; none where the source raises: a header without its newline, or
      a third field that is no number. */
  function Scan(split: Split, number: Number, answer: Bytes, at: nat, found: map<Bytes, Bytes>)
    : Option<map<Bytes, Bytes>>
    decreases |answer| - at
  {
    if at >= |answer| then Some(found)
    else
      var end := EndFrom(answer, at);
      if end == |answer| then None
      else
        var fields := split(answer[at..end]);
        if |fields| != 3 then Scan(split, number, answer, end + 1, found)
        else if number(fields[2]).None? then None
        else
          var size := number(fields[2]).value;
          Scan(split, number, answer, end + 1 + size + 1, found[fields[0] := Slice(answer, end + 1, size)])
  }

  /** One step past a header of three words. */
  lemma ScanTakes(split: Split, number: Number, answer: Bytes, at: nat, found: map<Bytes, Bytes>, end: nat,
                  fields: seq<Bytes>, size: nat)
    requires at < |answer| && EndFrom(answer, at) == end < |answer|
    requires split(answer[at..end]) == fields && |fields| == 3 && number(fields[2]) == Some(size)
    ensures Scan(split, number, answer, at, found)
            == Scan(split, number, answer, end + 1 + size + 1, found[fields[0] := Slice(answer, end + 1, size)])
  {
  }

  lemma ScanTakesBody(split: Split, number: Number, answer: Bytes, at: nat, found: map<Bytes, Bytes>, end: nat,
                      header: Bytes, fields: seq<Bytes>, body: Bytes, next: nat)
    requires at < |answer| && EndFrom(answer, at) == end < |answer| && answer[at..end] == header
    requires split(header) == fields && |fields| == 3 && number(fields[2]) == Some(|body|)
    requires Slice(answer, end + 1, |body|) == body && next == end + 1 + |body| + 1
    ensures Scan(split, number, answer, at, found) == Scan(split, number, answer, next, found[fields[0] := body])
  {
    ScanTakes(split, number, answer, at, found, end, fields, |body|);
  }

  /** One step past any other. */
  lemma ScanSkips(split: Split, number: Number, answer: Bytes, at: nat, found: map<Bytes, Bytes>, end: nat)
    requires at < |answer| && EndFrom(answer, at) == end < |answer| && |split(answer[at..end])| != 3
    ensures Scan(split, number, answer, at, found) == Scan(split, number, answer, end + 1, found)
  {
  }

  /** One that is no header at all, or names no number. */
  lemma ScanRaises(split: Split, number: Number, answer: Bytes, at: nat, found: map<Bytes, Bytes>, end: nat)
    requires at < |answer| && EndFrom(answer, at) == end
    requires end == |answer| || (|split(answer[at..end])| == 3 && number(split(answer[at..end])[2]).None?)
    ensures Scan(split, number, answer, at, found).None?
  {
  }

  /** How the command ended: it failed, its answer was cut short, or it came whole. */
  datatype Ran = Failed | Truncated | Said(answer: Bytes)

  datatype Read<T> = Whole(found: map<Bytes, T>) | GitFailed | Unread | Raised

  function AllIn<T>(names: seq<Bytes>, found: map<Bytes, T>): bool {
    forall i | 0 <= i < |names| :: names[i] in found
  }

  /** What a read answers once the whole output was scanned. */
  function ReadOf<T>(names: seq<Bytes>, scanned: Option<map<Bytes, T>>, absent: Read<T>): Read<T> {
    if scanned.None? then Raised else if AllIn(names, scanned.value) then Whole(scanned.value) else absent
  }

  /** The loop over the batch. */
  method ScanAll(split: Split, number: Number, answer: Bytes) returns (r: Option<map<Bytes, Bytes>>)
    ensures r == Scan(split, number, answer, 0, map[])
  {
    var found: map<Bytes, Bytes> := map[];
    var at: nat := 0;
    ghost var all := Scan(split, number, answer, 0, map[]);
    while at < |answer|
      invariant Scan(split, number, answer, at, found) == all
      decreases |answer| - at
    {
      var end := EndFrom(answer, at);
      if end == |answer| {
        ScanRaises(split, number, answer, at, found, end);
        return None;
      }
      var fields := split(answer[at..end]);
      if |fields| == 3 {
        var size := number(fields[2]);
        if size.None? {
          ScanRaises(split, number, answer, at, found, end);
          return None;
        }
        ScanTakes(split, number, answer, at, found, end, fields, size.value);
        found := found[fields[0] := Slice(answer, end + 1, size.value)];
        at := end + 1 + size.value + 1;
      } else {
        ScanSkips(split, number, answer, at, found, end);
        at := end + 1;
      }
    }
    return Some(found);
  }

  /** Each object's bytes, refused whole when the batch could not come whole. */
  method Contents(split: Split, number: Number, names: seq<Bytes>, git: Ran) returns (r: Read<Bytes>)
    ensures names == [] ==> r == Whole(map[])
    ensures names != [] && git.Failed? ==> r == GitFailed
    ensures names != [] && git.Truncated? ==> r == Unread
    ensures names != [] && git.Said? ==> r == ReadOf(names, Scan(split, number, git.answer, 0, map[]), Unread)
  {
    if names == [] { return Whole(map[]); }
    if git.Failed? { return GitFailed; }
    if git.Truncated? { return Unread; }
    var found := ScanAll(split, number, git.answer);
    if found.None? { return Raised; }
    if !AllIn(names, found.value) { return Unread; }
    return Whole(found.value);
  }

  // ----- the size parser -----

  /** Where a text line ends. */
  predicate EndsLine(b: byte) {
    10 <= b <= 13 || 28 <= b <= 30
  }

  function LineEnd(s: Bytes): (n: nat)
    ensures n <= |s|
    ensures n < |s| ==> EndsLine(s[n])
  {
    if s == [] || EndsLine(s[0]) then 0 else 1 + LineEnd(s[1..])
  }

  function TextLines(s: Bytes): seq<Bytes>
    decreases |s|
  {
    if s == [] then []
    else if LineEnd(s) == |s| then [s]
    else [s[..LineEnd(s)]] + TextLines(s[LineEnd(s) + 1..])
  }

  /** What the lines say about sizes; none where a third field is no number. */
  function ScanSizes(split: Split, number: Number, lines: seq<Bytes>, found: map<Bytes, nat>): Option<map<Bytes, nat>>
    decreases |lines|
  {
    if lines == [] then Some(found)
    else
      var fields := split(lines[0]);
      if |fields| != 3 || fields[1] == MISSING then ScanSizes(split, number, lines[1..], found)
      else if number(fields[2]).None? then None
      else ScanSizes(split, number, lines[1..], found[fields[0] := number(fields[2]).value])
  }

  /** Each object's size, without its bytes. */
  method Sizes(split: Split, number: Number, names: seq<Bytes>, git: Ran) returns (r: Read<nat>)
    ensures names == [] ==> r == Whole(map[])
    ensures names != [] && git.Failed? ==> r == GitFailed
    ensures names != [] && git.Truncated? ==> r == Unread
    ensures names != [] && git.Said? ==>
              r == ReadOf(names, ScanSizes(split, number, TextLines(git.answer), map[]), GitFailed)
  {
    if names == [] { return Whole(map[]); }
    if git.Failed? { return GitFailed; }
    if git.Truncated? { return Unread; }
    var found: map<Bytes, nat> := map[];
    var lines := TextLines(git.answer);
    for i := 0 to |lines|
      invariant ScanSizes(split, number, lines[i..], found) == ScanSizes(split, number, lines, map[])
    {
      assert lines[i..][0] == lines[i] && lines[i..][1..] == lines[i + 1..];
      var fields := split(lines[i]);
      if |fields| == 3 && fields[1] != MISSING {
        var size := number(fields[2]);
        if size.None? { return Raised; }
        found := found[fields[0] := size.value];
      }
    }
    if !AllIn(names, found) { return GitFailed; }
    return Whole(found);
  }

  // ----- the parsers invert git -----

  lemma {:induction false} WordEndOf(t: Bytes, rest: Bytes)
    requires forall i | 0 <= i < |t| :: !IsSpace(t[i])
    requires rest == [] || IsSpace(rest[0])
    ensures WordEnd(t + rest) == |t|
  {
    if t == [] {
      assert t + rest == rest;
    } else {
      WordEndOf(t[1..], rest);
      assert (t + rest)[1..] == t[1..] + rest;
    }
  }

  lemma WordsFrom(t: Bytes, rest: Bytes)
    requires IsToken(t) && (rest == [] || IsSpace(rest[0]))
    ensures Words(t + rest) == [t] + Words(rest)
  {
    WordEndOf(t, rest);
    assert (t + rest)[..|t|] == t && (t + rest)[|t|..] == rest;
    assert (t + rest)[0] == t[0];
  }

  lemma SpaceThen(s: Bytes)
    ensures Words([SPACE] + s) == Words(s)
  {
    assert ([SPACE] + s)[1..] == s;
  }

  lemma WordsOfOne(t: Bytes)
    requires IsToken(t)
    ensures Words(t) == [t]
  {
    WordsFrom(t, []);
    assert t + [] == t;
  }

  lemma WordsOfTwo(a: Bytes, b: Bytes)
    requires IsToken(a) && IsToken(b)
    ensures Words(a + ([SPACE] + b)) == [a, b]
  {
    WordsFrom(a, [SPACE] + b);
    SpaceThen(b);
    WordsOfOne(b);
  }

  lemma WordsOfThree(a: Bytes, b: Bytes, c: Bytes)
    requires IsToken(a) && IsToken(b) && IsToken(c)
    ensures Words(a + ([SPACE] + (b + ([SPACE] + c)))) == [a, b, c]
  {
    var tail := b + ([SPACE] + c);
    WordsFrom(a, [SPACE] + tail);
    SpaceThen(tail);
    WordsOfTwo(b, c);
  }

  lemma NumberIsToken(n: nat)
    ensures IsToken(Decimal(n))
  {
    DecimalRoundTrip(n);
    assert forall i | 0 <= i < |Decimal(n)| :: Decimal(n)[i] in Decimal(n);
  }

  lemma HeaderWords(r: Reply)
    requires r.Valid()
    ensures Words(r.Header()) == if r.Found? then [r.name, r.kind, Decimal(|r.body|)] else [r.name, MISSING]
  {
    if r.Found? {
      NumberIsToken(|r.body|);
      WordsOfThree(r.name, r.kind, Decimal(|r.body|));
    } else {
      WordsOfTwo(r.name, MISSING);
    }
  }

  lemma HeaderEndsNoLine(r: Reply)
    requires r.Valid()
    ensures forall i | 0 <= i < |r.Header()| :: !EndsLine(r.Header()[i])
  {
    if r.Found? { NumberIsToken(|r.body|); }
  }

  /** Where a header ends that lies at a place. */
  lemma HeaderEnds(answer: Bytes, at: nat, header: Bytes, after: Bytes)
    requires forall i | 0 <= i < |header| :: header[i] != NEWLINE
    requires at <= |answer| && answer[at..] == header + [NEWLINE] + after
    ensures EndFrom(answer, at) == at + |header| < |answer|
    ensures answer[at..at + |header|] == header && answer[at + |header| + 1..] == after
  {
    var left := answer[at..];
    EndIs(answer, at, at + |header|);
    assert answer[at..at + |header|] == left[..|header|] == header;
    assert answer[at + |header| + 1..] == left[|header| + 1..] == after;
  }

  lemma {:induction false} EndIs(answer: Bytes, at: nat, end: nat)
    requires at <= end < |answer| && answer[end] == NEWLINE && forall i | at <= i < end :: answer[i] != NEWLINE
    ensures EndFrom(answer, at) == end
    decreases end - at
  {
    if at < end { EndIs(answer, at + 1, end); }
  }

  predicate SplitsHeader(split: Split, r: Reply) {
    split(r.Header()) == if r.Found? then [r.name, r.kind, Decimal(|r.body|)] else [r.name, MISSING]
  }

  predicate ReadsNumber(number: Number, n: nat) {
    number(Decimal(n)) == Some(n)
  }

  /** Headers split into their words, and sizes read back: what the two parameters must do. */
  ghost predicate ReadsHeaders(split: Split, number: Number) {
    (forall r: Reply | r.Valid() :: SplitsHeader(split, r)) && forall n: nat :: ReadsNumber(number, n)
  }

  lemma WordsReadHeaders()
    ensures ReadsHeaders(Words, NumberOf)
  {
    forall r: Reply | r.Valid()
      ensures SplitsHeader(Words, r)
    {
      HeaderWords(r);
    }
    forall n: nat
      ensures ReadsNumber(NumberOf, n)
    {
      DecimalRoundTrip(n);
    }
  }

  lemma SliceOf(answer: Bytes, at: nat, body: Bytes, rest: Bytes)
    requires at <= |answer| && answer[at..] == body + [NEWLINE] + rest
    ensures Slice(answer, at, |body|) == body && at + |body| + 1 <= |answer| && answer[at + |body| + 1..] == rest
  {
    var left := answer[at..];
    assert left[..|body|] == body && left[|body| + 1..] == rest;
    assert answer[at..at + |body|] == left[..|body|] && answer[at + |body| + 1..] == left[|body| + 1..];
  }

  lemma BytesLie(answer: Bytes, at: nat, header: Bytes, body: Bytes, rest: Bytes)
    requires forall i | 0 <= i < |header| :: !EndsLine(header[i])
    requires at <= |answer| && answer[at..] == header + [NEWLINE] + (body + [NEWLINE]) + rest
    ensures var end := at + |header|;
            && EndFrom(answer, at) == end < |answer| && answer[at..end] == header
            && Slice(answer, end + 1, |body|) == body
            && end + 1 + |body| + 1 <= |answer| && answer[end + 1 + |body| + 1..] == rest
  {
    AppendAssociates(header + [NEWLINE], body + [NEWLINE], rest);
    HeaderEnds(answer, at, header, body + [NEWLINE] + rest);
    SliceOf(answer, at + |header| + 1, body, rest);
  }

  /** Where the header, the body and the rest of an answer lie. */
  lemma FoundLies(answer: Bytes, at: nat, r: Reply, rest: Bytes) returns (end: nat, next: nat)
    requires r.Valid() && r.Found? && at <= |answer| && answer[at..] == r.Batch() + rest
    ensures at <= end == EndFrom(answer, at) < |answer| && answer[at..end] == r.Header()
    ensures Slice(answer, end + 1, |r.body|) == r.body
    ensures next == end + 1 + |r.body| + 1 <= |answer| && answer[next..] == rest
  {
    HeaderEndsNoLine(r);
    BytesLie(answer, at, r.Header(), r.body, rest);
    end := at + |r.Header()|;
    next := end + 1 + |r.body| + 1;
  }

  lemma MissingLies(answer: Bytes, at: nat, r: Reply, rest: Bytes) returns (end: nat)
    requires r.Valid() && r.Missing? && at <= |answer| && answer[at..] == r.Batch() + rest
    ensures at <= end == EndFrom(answer, at) < |answer| && answer[at..end] == r.Header() && answer[end + 1..] == rest
  {
    var header := r.Header();
    end := at + |header|;
    HeaderEndsNoLine(r);
    assert r.Batch() == header + [NEWLINE];
    HeaderEnds(answer, at, header, rest);
  }

  lemma {:induction false} ScanFound(split: Split, number: Number, answer: Bytes, at: nat, r: Reply, rest: Bytes,
                                     found: map<Bytes, Bytes>) returns (next: nat)
    requires r.Valid() && r.Found? && SplitsHeader(split, r) && ReadsNumber(number, |r.body|)
    requires at <= |answer| && answer[at..] == r.Batch() + rest
    ensures next <= |answer| && answer[next..] == rest
    ensures Scan(split, number, answer, at, found) == Scan(split, number, answer, next, Taken(found, r))
  {
    var end: nat;
    end, next := FoundLies(answer, at, r, rest);
    ScanTakesBody(split, number, answer, at, found, end,
                  r.Header(), [r.name, r.kind, Decimal(|r.body|)], r.body, next);
  }

  lemma {:induction false} ScanMissing(split: Split, number: Number, answer: Bytes, at: nat, r: Reply, rest: Bytes,
                                       found: map<Bytes, Bytes>) returns (next: nat)
    requires r.Valid() && r.Missing? && SplitsHeader(split, r)
    requires at <= |answer| && answer[at..] == r.Batch() + rest
    ensures next <= |answer| && answer[next..] == rest
    ensures Scan(split, number, answer, at, found) == Scan(split, number, answer, next, Taken(found, r))
  {
    var end := MissingLies(answer, at, r, rest);
    next := end + 1;
    ScanSkips(split, number, answer, at, found, end);
  }

  /** One answer is taken off whole, whatever its bytes look like. */
  lemma {:induction false} ScanReply(split: Split, number: Number, answer: Bytes, at: nat, r: Reply, rest: Bytes,
                                     found: map<Bytes, Bytes>) returns (next: nat)
    requires ReadsHeaders(split, number) && r.Valid() && at <= |answer| && answer[at..] == r.Batch() + rest
    ensures next <= |answer| && answer[next..] == rest
    ensures Scan(split, number, answer, at, found) == Scan(split, number, answer, next, Taken(found, r))
  {
    assert SplitsHeader(split, r);
    if r.Found? {
      assert ReadsNumber(number, |r.body|);
      next := ScanFound(split, number, answer, at, r, rest, found);
    } else {
      next := ScanMissing(split, number, answer, at, r, rest, found);
    }
  }

  lemma {:induction false} TailReadsBack(split: Split, number: Number, answer: Bytes, at: nat, replies: seq<Reply>,
                                         known: map<Bytes, Bytes>)
    requires ReadsHeaders(split, number) && AllValid(replies) && at <= |answer| && answer[at..] == BatchOf(replies)
    ensures Scan(split, number, answer, at, known) == Some(Objects(replies, known))
    decreases |replies|
  {
    if replies != [] {
      var next := ScanReply(split, number, answer, at, replies[0], BatchOf(replies[1..]), known);
      TailReadsBack(split, number, answer, next, replies[1..], Taken(known, replies[0]));
    }
  }

  /** For every list of objects with any bytes, newlines and header-like text among them, parsing
      git's batch returns exactly each object's bytes. */
  lemma BatchReadsBack(replies: seq<Reply>)
    requires AllValid(replies)
    ensures Scan(Words, NumberOf, BatchOf(replies), 0, map[]) == Some(Objects(replies, map[]))
  {
    WordsReadHeaders();
    TailReadsBack(Words, NumberOf, BatchOf(replies), 0, replies, map[]);
  }

  // ----- answers that end early or are none of git's -----

  lemma {:induction false} BatchThen(answer: Bytes, at: nat, replies: seq<Reply>, rest: Bytes, known: map<Bytes, Bytes>)
      returns (next: nat)
    requires ReadsHeaders(Words, NumberOf) && AllValid(replies)
    requires at <= |answer| && answer[at..] == BatchOf(replies) + rest
    ensures next <= |answer| && answer[next..] == rest
    ensures Scan(Words, NumberOf, answer, at, known) == Scan(Words, NumberOf, answer, next, Objects(replies, known))
    decreases |replies|
  {
    if replies == [] {
      assert BatchOf(replies) + rest == rest;
      next := at;
    } else {
      AppendAssociates(replies[0].Batch(), BatchOf(replies[1..]), rest);
      var past := ScanReply(Words, NumberOf, answer, at, replies[0], BatchOf(replies[1..]) + rest, known);
      next := BatchThen(answer, past, replies[1..], rest, Taken(known, replies[0]));
    }
  }

  lemma ScannedTo(replies: seq<Reply>, rest: Bytes) returns (next: nat)
    requires AllValid(replies)
    ensures var answer := BatchOf(replies) + rest;
            && next <= |answer| && answer[next..] == rest
            && Scan(Words, NumberOf, answer, 0, map[]) == Scan(Words, NumberOf, answer, next, Objects(replies, map[]))
  {
    WordsReadHeaders();
    var answer := BatchOf(replies) + rest;
    assert answer[0..] == answer;
    next := BatchThen(answer, 0, replies, rest, map[]);
  }

  lemma {:induction false} NoEnd(answer: Bytes, at: nat)
    requires at <= |answer| && NEWLINE !in answer[at..]
    ensures EndFrom(answer, at) == |answer|
    decreases |answer| - at
  {
    if at < |answer| {
      assert answer[at] in answer[at..];
      assert forall b | b in answer[at + 1..] :: b in answer[at..];
      NoEnd(answer, at + 1);
    }
  }

  /** An answer that ends inside a header makes reading raise. */
  lemma CutInHeader(replies: seq<Reply>, header: Bytes)
    requires AllValid(replies) && header != [] && NEWLINE !in header
    ensures Scan(Words, NumberOf, BatchOf(replies) + header, 0, map[]) == None
  {
    var next := ScannedTo(replies, header);
    NoEnd(BatchOf(replies) + header, next);
  }

  lemma {:induction false} ShortBody(split: Split, number: Number, answer: Bytes, at: nat, header: Bytes, part: Bytes,
                                     fields: seq<Bytes>, size: nat, known: map<Bytes, Bytes>)
    requires at <= |answer| && answer[at..] == header + [NEWLINE] + part
    requires forall i | 0 <= i < |header| :: header[i] != NEWLINE
    requires split(header) == fields && |fields| == 3 && number(fields[2]) == Some(size) && |part| <= size
    ensures Scan(split, number, answer, at, known) == Some(known[fields[0] := part])
  {
    HeaderEnds(answer, at, header, part);
    var end := at + |header|;
    assert |answer| == end + 1 + |part|;
    assert Slice(answer, end + 1, size) == part;
    ScanTakes(split, number, answer, at, known, end, fields, size);
  }

  /** An answer that ends inside a body gives that object short, and says nothing of it: that the
      answer was cut must be known otherwise. */
  lemma CutInBody(replies: seq<Reply>, r: Reply, part: Bytes)
    requires AllValid(replies) && r.Valid() && r.Found? && part <= r.body
    ensures Scan(Words, NumberOf, BatchOf(replies) + (r.Header() + [NEWLINE] + part), 0, map[])
            == Some(Objects(replies, map[])[r.name := part])
  {
    var rest := r.Header() + [NEWLINE] + part;
    var next := ScannedTo(replies, rest);
    WordsReadHeaders();
    HeaderEndsNoLine(r);
    assert SplitsHeader(Words, r) && ReadsNumber(NumberOf, |r.body|);
    ShortBody(Words, NumberOf, BatchOf(replies) + rest, next, r.Header(), part,
              [r.name, r.kind, Decimal(|r.body|)], |r.body|, Objects(replies, map[]));
  }

  lemma {:induction false} BadNumber(split: Split, number: Number, answer: Bytes, at: nat, line: Bytes, after: Bytes,
                                     known: map<Bytes, Bytes>)
    requires at <= |answer| && answer[at..] == line + [NEWLINE] + after
    requires forall i | 0 <= i < |line| :: line[i] != NEWLINE
    requires |split(line)| == 3 && number(split(line)[2]).None?
    ensures Scan(split, number, answer, at, known) == None
  {
    HeaderEnds(answer, at, line, after);
  }

  lemma {:induction false} PassLine(split: Split, number: Number, answer: Bytes, at: nat, line: Bytes, after: Bytes,
                                    known: map<Bytes, Bytes>) returns (next: nat)
    requires at <= |answer| && answer[at..] == line + [NEWLINE] + after
    requires forall i | 0 <= i < |line| :: line[i] != NEWLINE
    requires |split(line)| != 3
    ensures next <= |answer| && answer[next..] == after
    ensures Scan(split, number, answer, at, known) == Scan(split, number, answer, next, known)
  {
    HeaderEnds(answer, at, line, after);
    next := at + |line| + 1;
    ScanSkips(split, number, answer, at, known, at + |line|);
  }

  /** A line of three words whose third is no number makes reading raise, whatever follows. */
  lemma NoNumber(replies: seq<Reply>, line: Bytes, after: Bytes)
    requires AllValid(replies) && NEWLINE !in line && |Words(line)| == 3 && NumberOf(Words(line)[2]).None?
    ensures Scan(Words, NumberOf, BatchOf(replies) + (line + [NEWLINE] + after), 0, map[]) == None
  {
    var rest := line + [NEWLINE] + after;
    var next := ScannedTo(replies, rest);
    BadNumber(Words, NumberOf, BatchOf(replies) + rest, next, line, after, Objects(replies, map[]));
  }

  lemma {:induction false} LinePassed(split: Split, number: Number, answer: Bytes, at: nat, line: Bytes,
                                      more: seq<Reply>, known: map<Bytes, Bytes>)
    requires ReadsHeaders(split, number) && AllValid(more)
    requires at <= |answer| && answer[at..] == line + [NEWLINE] + BatchOf(more)
    requires (forall i | 0 <= i < |line| :: line[i] != NEWLINE) && |split(line)| != 3
    ensures Scan(split, number, answer, at, known) == Some(Objects(more, known))
  {
    var next := PassLine(split, number, answer, at, line, BatchOf(more), known);
    TailReadsBack(split, number, answer, next, more, known);
  }

  /** A line of fewer or more words is passed over. */
  lemma OtherLinesArePassed(replies: seq<Reply>, line: Bytes, more: seq<Reply>)
    requires AllValid(replies) && AllValid(more) && NEWLINE !in line && |Words(line)| != 3
    ensures Scan(Words, NumberOf, BatchOf(replies) + (line + [NEWLINE] + BatchOf(more)), 0, map[])
            == Some(Objects(more, Objects(replies, map[])))
  {
    var rest := line + [NEWLINE] + BatchOf(more);
    var answer := BatchOf(replies) + rest;
    var next := ScannedTo(replies, rest);
    WordsReadHeaders();
    LinePassed(Words, NumberOf, answer, next, line, more, Objects(replies, map[]));
  }

  predicate FoundAmong(replies: seq<Reply>, name: Bytes) {
    exists i | 0 <= i < |replies| :: replies[i].Found? && replies[i].name == name
  }

  lemma {:induction false} ObjectsAre(replies: seq<Reply>, known: map<Bytes, Bytes>, name: Bytes)
    ensures name in Objects(replies, known) <==> name in known || FoundAmong(replies, name)
    decreases |replies|
  {
    if replies != [] {
      ObjectsAre(replies[1..], Taken(known, replies[0]), name);
      FoundStep(replies, name);
    }
  }

  lemma FoundStep(replies: seq<Reply>, name: Bytes)
    requires replies != []
    ensures FoundAmong(replies, name) <==>
            (replies[0].Found? && replies[0].name == name) || FoundAmong(replies[1..], name)
  {
    if FoundAmong(replies[1..], name) {
      var i :| 0 <= i < |replies[1..]| && replies[1..][i].Found? && replies[1..][i].name == name;
      assert replies[i + 1].Found? && replies[i + 1].name == name;
    }
    if i :| 0 < i < |replies| && replies[i].Found? && replies[i].name == name {
      assert replies[1..][i - 1] == replies[i];
    }
  }

  /** A read of what git answered is whole exactly when every requested name was found, and is then
      every object; one name answered as missing and nowhere as found refuses it whole. */
  lemma WholeExactly(names: seq<Bytes>, replies: seq<Reply>, r: Read<Bytes>)
    requires AllValid(replies) && names != []
    requires r == ReadOf(names, Scan(Words, NumberOf, BatchOf(replies), 0, map[]), Unread)
    ensures r.Whole? <==> forall i | 0 <= i < |names| :: FoundAmong(replies, names[i])
    ensures r.Whole? ==> r.found == Objects(replies, map[])
    ensures !r.Whole? ==> r == Unread
  {
    BatchReadsBack(replies);
    forall i | 0 <= i < |names|
      ensures names[i] in Objects(replies, map[]) <==> FoundAmong(replies, names[i])
    {
      ObjectsAre(replies, map[], names[i]);
    }
  }

  /** The object of a name that is answered once, or always with the same bytes, is its bytes. */
  lemma {:induction false} ObjectOf(replies: seq<Reply>, known: map<Bytes, Bytes>, name: Bytes, body: Bytes)
    requires forall i | 0 <= i < |replies| && replies[i].Found? && replies[i].name == name :: replies[i].body == body
    requires FoundAmong(replies, name) || (name in known && known[name] == body)
    ensures name in Objects(replies, known) && Objects(replies, known)[name] == body
    decreases |replies|
  {
    if replies != [] {
      FoundStep(replies, name);
      ObjectOf(replies[1..], Taken(known, replies[0]), name, body);
    }
  }

  // ----- sizes -----

  lemma {:induction false} LineEndOf(header: Bytes, after: Bytes)
    requires forall i | 0 <= i < |header| :: !EndsLine(header[i])
    ensures LineEnd(header + [NEWLINE] + after) == |header|
  {
    var s := header + [NEWLINE] + after;
    if header == [] {
      assert s[0] == NEWLINE;
    } else {
      LineEndOf(header[1..], after);
      assert s[1..] == header[1..] + [NEWLINE] + after;
      assert s[0] == header[0];
    }
  }

  lemma LineOff(header: Bytes, after: Bytes)
    requires forall i | 0 <= i < |header| :: !EndsLine(header[i])
    ensures TextLines(header + [NEWLINE] + after) == [header] + TextLines(after)
  {
    var s := header + [NEWLINE] + after;
    LineEndOf(header, after);
    assert s[..|header|] == header && s[|header| + 1..] == after;
  }

  lemma SizeTaken(split: Split, number: Number, header: Bytes, more: seq<Bytes>, fields: seq<Bytes>, size: nat,
                  known: map<Bytes, nat>)
    requires split(header) == fields && |fields| == 3 && fields[1] != MISSING && number(fields[2]) == Some(size)
    ensures ScanSizes(split, number, [header] + more, known) == ScanSizes(split, number, more, known[fields[0] := size])
  {
    assert ([header] + more)[1..] == more;
  }

  lemma SizeSkipped(split: Split, number: Number, header: Bytes, more: seq<Bytes>, known: map<Bytes, nat>)
    requires |split(header)| != 3
    ensures ScanSizes(split, number, [header] + more, known) == ScanSizes(split, number, more, known)
  {
    assert ([header] + more)[1..] == more;
  }

  lemma {:induction false} LinesReadBack(split: Split, number: Number, replies: seq<Reply>, known: map<Bytes, nat>)
    requires ReadsHeaders(split, number) && AllValid(replies)
    requires forall i | 0 <= i < |replies| && replies[i].Found? :: replies[i].kind != MISSING
    ensures ScanSizes(split, number, TextLines(CheckOf(replies)), known) == Some(SizesOf(replies, known))
    decreases |replies|
  {
    if replies != [] {
      var r, after := replies[0], CheckOf(replies[1..]);
      HeaderEndsNoLine(r);
      LineOff(r.Header(), after);
      assert SplitsHeader(split, r);
      if r.Found? {
        assert ReadsNumber(number, |r.body|);
        SizeTaken(split, number, r.Header(), TextLines(after), [r.name, r.kind, Decimal(|r.body|)], |r.body|, known);
        LinesReadBack(split, number, replies[1..], known[r.name := |r.body|]);
      } else {
        SizeSkipped(split, number, r.Header(), TextLines(after), known);
        LinesReadBack(split, number, replies[1..], known);
      }
    }
  }

  /** Parsing the answer to a request for sizes returns exactly each object's size. */
  lemma SizesReadBack(replies: seq<Reply>)
    requires AllValid(replies) && forall i | 0 <= i < |replies| && replies[i].Found? :: replies[i].kind != MISSING
    ensures ScanSizes(Words, NumberOf, TextLines(CheckOf(replies)), map[]) == Some(SizesOf(replies, map[]))
  {
    WordsReadHeaders();
    LinesReadBack(Words, NumberOf, replies, map[]);
  }

  /** The two reads agree: the size of each object is the length of its bytes. */
  lemma {:induction false} SizesAreLengths(replies: seq<Reply>, sizes: map<Bytes, nat>, objects: map<Bytes, Bytes>)
    requires forall n :: n in sizes <==> n in objects
    requires forall n | n in sizes :: sizes[n] == |objects[n]|
    ensures forall n :: n in SizesOf(replies, sizes) <==> n in Objects(replies, objects)
    ensures forall n | n in SizesOf(replies, sizes) :: SizesOf(replies, sizes)[n] == |Objects(replies, objects)[n]|
    decreases |replies|
  {
    if replies != [] {
      var r := replies[0];
      if r.Found? {
        SizesAreLengths(replies[1..], sizes[r.name := |r.body|], objects[r.name := r.body]);
      } else {
        SizesAreLengths(replies[1..], sizes, objects);
      }
    }
  }
}

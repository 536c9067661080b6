/** The chain over every run of appends, reopenings and crashes between its two writes: what is
    read back of it, and exactly when it reads back as intact. */
module LedgerRuns {
  import opened Bytes
  import opened Ledger
  import opened LedgerLaws

  // ----- runs -----

  /** A crash falls between the chain write and the head write of an append; the tool then reopens
      the store. */
  datatype Op = Append(event: Event, stamp: string) | Reopen | Crash(event: Event, stamp: string)

  /** A writer at work: the disk, the head it carries, all it has sealed, and how many entries that
      was when it first crashed between the two writes, the one just written included. */
  datatype Session = Session(disk: Disk, head: Head, sealed: seq<Sealed>, crashed: Option<nat>)

  const FIRST_SESSION := Session(BLANK, EMPTY, [], None)

  function After(codec: Codec, s: Session, op: Op): Session {
    match op
    case Reopen => s.(head := HeadOf(s.disk))
    case Append(event, stamp) =>
      if !event.environment.Attestable() then s
      else
        var made := SealAfter(codec, s.head, event, stamp);
        s.(disk := BothWritten(codec, s.disk, made), head := Head(made.entry.sequence, made.link),
           sealed := s.sealed + [made])
    case Crash(event, stamp) =>
      if !event.environment.Attestable() then s.(head := HeadOf(s.disk)) else Crashed(codec, s, event, stamp)
  }

  function Crashed(codec: Codec, s: Session, event: Event, stamp: string): Session {
    var made := SealAfter(codec, s.head, event, stamp);
    var disk := ChainWritten(codec, s.disk, made);
    Session(disk, HeadOf(disk), s.sealed + [made], if s.crashed.Some? then s.crashed else Some(|s.sealed| + 1))
  }

  function Run(codec: Codec, s: Session, ops: seq<Op>): Session
    decreases |ops|
  {
    if ops == [] then s else Run(codec, After(codec, s, ops[0]), ops[1..])
  }

  predicate ValidOp(op: Op) {
    op.Reopen? || op.event.Valid()
  }

  // ----- what every run keeps -----

  function LinesOf(codec: Codec, sealed: seq<Sealed>): (lines: seq<Bytes>)
    ensures |lines| == |sealed|
  {
    if sealed == [] then [] else LinesOf(codec, sealed[..|sealed| - 1]) + [Line(codec, sealed[|sealed| - 1])]
  }

  function HeadAfter(sealed: seq<Sealed>): Head {
    Head(|sealed| - 1, LastLink(sealed))
  }

  predicate WellSealed(codec: Codec, sealed: seq<Sealed>) {
    sealed != [] ==>
      var init, last := sealed[..|sealed| - 1], sealed[|sealed| - 1];
      WellSealed(codec, init) && Follows(codec, init, last) && SealedRight(codec, last)
  }

  predicate SealedRight(codec: Codec, s: Sealed) {
    s.entry.event.Valid() && s.tag == codec.mac(s.link)
  }

  /** The disk holds exactly what was sealed, and the head names the last of it. */
  ghost predicate Consistent(codec: Codec, s: Session) {
    && s.crashed == None
    && WellSealed(codec, s.sealed)
    && s.disk.chain == Unlines(LinesOf(codec, s.sealed))
    && s.head == HeadAfter(s.sealed)
    && s.disk.head == (if s.sealed == [] then None else Some(s.head))
  }

  /** The crash left the entry it had just sealed at the end of a chain whose head names the one
      before, and the first entry after that repeats its number. */
  ghost predicate Stale(codec: Codec, s: Session, k: nat) {
    && 1 <= k <= |s.sealed|
    && WellSealed(codec, s.sealed[..k])
    && s.disk.chain == Unlines(LinesOf(codec, s.sealed))
    && (if |s.sealed| == k then
          s.head == HeadAfter(s.sealed[..k - 1]) && s.disk.head == (if k == 1 then None else Some(s.head))
        else s.sealed[k].entry.sequence == k - 1)
  }

  /** What every run keeps: in step until the first crash, then stale for good. */
  ghost predicate Tracked(codec: Codec, s: Session) {
    match s.crashed
    case None => Consistent(codec, s)
    case Some(k) => Stale(codec, s, k)
  }

  lemma {:induction false} UnlinesAppend(a: seq<Bytes>, b: seq<Bytes>)
    ensures Unlines(a + b) == Unlines(a) + Unlines(b)
  {
    if a == [] {
      assert a + b == b;
    } else {
      UnlinesAppend(a[1..], b);
      assert (a + b)[1..] == a[1..] + b;
      AppendAssociates(a[0] + [NEWLINE], Unlines(a[1..]), Unlines(b));
    }
  }

  lemma ChainFileGrows(codec: Codec, sealed: seq<Sealed>, s: Sealed)
    ensures LinesOf(codec, sealed + [s]) == LinesOf(codec, sealed) + [Line(codec, s)]
    ensures Unlines(LinesOf(codec, sealed + [s])) == Unlines(LinesOf(codec, sealed)) + (Line(codec, s) + [NEWLINE])
  {
    assert (sealed + [s])[..|sealed|] == sealed;
    UnlinesAppend(LinesOf(codec, sealed), [Line(codec, s)]);
    assert Unlines([Line(codec, s)]) == Line(codec, s) + [NEWLINE];
  }

  lemma SealedGrows(codec: Codec, sealed: seq<Sealed>, event: Event, stamp: string)
    requires WellSealed(codec, sealed) && event.Valid()
    ensures WellSealed(codec, sealed + [SealAfter(codec, HeadAfter(sealed), event, stamp)])
  {
    var s := SealAfter(codec, HeadAfter(sealed), event, stamp);
    assert (sealed + [s])[..|sealed|] == sealed;
  }

  lemma StepKeepsConsistent(codec: Codec, s: Session, op: Op)
    requires Consistent(codec, s) && ValidOp(op) && !op.Crash?
    ensures Consistent(codec, After(codec, s, op))
  {
    if op.Append? && op.event.environment.Attestable() {
      SealedGrows(codec, s.sealed, op.event, op.stamp);
      FileGrows(codec, s, SealAfter(codec, s.head, op.event, op.stamp));
    }
  }

  /** One line more in the file for one more sealed. */
  lemma FileGrows(codec: Codec, s: Session, made: Sealed)
    requires s.disk.chain == Unlines(LinesOf(codec, s.sealed))
    ensures ChainWritten(codec, s.disk, made).chain == Unlines(LinesOf(codec, s.sealed + [made]))
  {
    ChainFileGrows(codec, s.sealed, made);
    AppendAssociates(s.disk.chain, Line(codec, made), [NEWLINE]);
  }

  lemma CrashMakesStale(codec: Codec, s: Session, event: Event, stamp: string)
    requires Consistent(codec, s) && event.Valid()
    ensures Stale(codec, Crashed(codec, s, event, stamp), |s.sealed| + 1)
  {
    var made := SealAfter(codec, s.head, event, stamp);
    SealedGrows(codec, s.sealed, event, stamp);
    FileGrows(codec, s, made);
    assert (s.sealed + [made])[..|s.sealed|] == s.sealed;
    assert (s.sealed + [made])[..|s.sealed| + 1] == s.sealed + [made];
    assert s.sealed == [] ==> HeadAfter(s.sealed) == EMPTY;
  }

  /** Whatever comes after a crash adds entries behind the one that repeats its number. */
  lemma StepKeepsStale(codec: Codec, s: Session, op: Op, k: nat)
    requires Stale(codec, s, k) && s.crashed == Some(k)
    ensures Stale(codec, After(codec, s, op), k) && After(codec, s, op).crashed == Some(k)
    ensures s.sealed <= After(codec, s, op).sealed
  {
    if !op.Reopen? && op.event.environment.Attestable() {
      var made := SealAfter(codec, s.head, op.event, op.stamp);
      FileGrows(codec, s, made);
      assert (s.sealed + [made])[..k] == s.sealed[..k];
    } else {
      assert k == 1 ==> HeadAfter(s.sealed[..k - 1]) == EMPTY;
    }
  }

  lemma StepKeepsTracked(codec: Codec, s: Session, op: Op)
    requires Tracked(codec, s) && ValidOp(op)
    ensures Tracked(codec, After(codec, s, op))
  {
    if s.crashed.Some? {
      StepKeepsStale(codec, s, op, s.crashed.value);
    } else if op.Crash? && op.event.environment.Attestable() {
      CrashMakesStale(codec, s, op.event, op.stamp);
    } else if op.Crash? {
      assert s.sealed == [] ==> HeadAfter(s.sealed) == EMPTY;
    } else {
      StepKeepsConsistent(codec, s, op);
    }
  }

  lemma {:induction false} RunKeepsTracked(codec: Codec, s: Session, ops: seq<Op>)
    requires Tracked(codec, s) && forall op | op in ops :: ValidOp(op)
    ensures Tracked(codec, Run(codec, s, ops))
    decreases |ops|
  {
    if ops != [] {
      StepKeepsTracked(codec, s, ops[0]);
      RunKeepsTracked(codec, After(codec, s, ops[0]), ops[1..]);
    }
  }

  /** Without a crash file, head and sealed entries stay in step. */
  lemma {:induction false} RunKeepsConsistent(codec: Codec, s: Session, ops: seq<Op>)
    requires Consistent(codec, s) && forall op | op in ops :: ValidOp(op) && !op.Crash?
    ensures Consistent(codec, Run(codec, s, ops))
    decreases |ops|
  {
    if ops != [] {
      StepKeepsConsistent(codec, s, ops[0]);
      RunKeepsConsistent(codec, After(codec, s, ops[0]), ops[1..]);
    }
  }

  lemma FirstIsConsistent(codec: Codec)
    ensures Consistent(codec, FIRST_SESSION)
  {
    assert LastLink([]) == GENESIS;
  }

  // ----- a file cut at the limit -----

  /** Lines as they are written: not empty, and without a newline. */
  predicate AreLines(lines: seq<Bytes>) {
    forall i | 0 <= i < |lines| :: lines[i] != [] && NEWLINE !in lines[i]
  }

  lemma {:induction false} OwnLinesAreLines(codec: Codec, sealed: seq<Sealed>)
    requires codec.Valid()
    ensures AreLines(LinesOf(codec, sealed))
  {
    if sealed != [] {
      OwnLinesAreLines(codec, sealed[..|sealed| - 1]);
    }
  }

  lemma PiecesOfOne(line: Bytes, body: Bytes)
    requires line != [] && NEWLINE !in line
    ensures PiecesOf(line + [NEWLINE] + body) == [line] + PiecesOf(body)
  {
    LinesOfOne(line, body);
    var pieces := Lines(body).lines + [Lines(body).rest];
    AppendAssociates([line], Lines(body).lines, [Lines(body).rest]);
    assert ([line] + pieces)[1..] == pieces;
  }

  lemma PieceAlone(piece: Bytes)
    requires NEWLINE !in piece
    ensures PiecesOf(piece) == if piece == [] then [] else [piece]
  {
    LinesOfNone(piece);
    var pieces := [piece];
    assert Lines(piece).lines + [Lines(piece).rest] == pieces;
    assert pieces[1..] == [] && NonEmpty([]) == [];
    assert [piece] + [] == [piece];
  }

  function Tail(piece: Bytes): seq<Bytes> {
    if piece == [] then [] else [piece]
  }

  /** What a file of lines reads as under a limit: `h` lines whole, the last maybe without its
      newline, and a piece of the next one, if any of it is within the limit. */
  predicate IsCut(lines: seq<Bytes>, limit: nat, h: nat, piece: Bytes) {
    && h <= |lines|
    && PiecesOf(Taken(Unlines(lines), limit)) == lines[..h] + Tail(piece)
    && |Unlines(lines[..h])| <= limit + 1
    && (h < |lines| ==> |Unlines(lines[..h + 1])| > limit + 1)
    && (h < |lines| ==> (piece == [] <==> |Unlines(lines[..h])| >= limit))
    && (piece != [] ==> h < |lines| && piece <= lines[h] && piece != lines[h])
  }

  lemma {:induction false} CutLines(lines: seq<Bytes>, limit: nat) returns (h: nat, piece: Bytes)
    requires AreLines(lines)
    ensures IsCut(lines, limit, h, piece)
    decreases |lines|
  {
    if lines == [] {
      PieceAlone([]);
      h, piece := 0, [];
    } else if limit < |lines[0]| {
      CutInFirst(lines, limit);
      h, piece := 0, lines[0][..limit];
    } else if limit == |lines[0]| {
      CutAfterFirst(lines);
      h, piece := 1, [];
    } else {
      var g;
      g, piece := CutLines(lines[1..], limit - |lines[0]| - 1);
      CutLater(lines, limit, g, piece);
      h := g + 1;
    }
  }

  lemma CutInFirst(lines: seq<Bytes>, limit: nat)
    requires AreLines(lines) && lines != [] && limit < |lines[0]|
    ensures IsCut(lines, limit, 0, lines[0][..limit])
  {
    UnlinesOfOne(lines);
    FirstLineTaken(lines[0], Unlines(lines[1..]), limit);
    PieceAlone(lines[0][..limit]);
    assert [] + Tail(lines[0][..limit]) == Tail(lines[0][..limit]);
  }

  lemma CutAfterFirst(lines: seq<Bytes>)
    requires AreLines(lines) && lines != []
    ensures IsCut(lines, |lines[0]|, 1, [])
  {
    UnlinesOfOne(lines);
    FirstLineTaken(lines[0], Unlines(lines[1..]), |lines[0]|);
    PieceAlone(lines[0]);
    assert lines[0][..|lines[0]|] == lines[0];
    assert lines[..1] + Tail([]) == [lines[0]];
    if |lines| > 1 { UnlinesOfTwo(lines); }
  }

  lemma CutLater(lines: seq<Bytes>, limit: nat, g: nat, piece: Bytes)
    requires AreLines(lines) && lines != [] && limit > |lines[0]|
    requires IsCut(lines[1..], limit - |lines[0]| - 1, g, piece)
    ensures IsCut(lines, limit, g + 1, piece)
  {
    LaterPieces(lines, limit, g, piece);
    PrefixSizes(lines, g);
    if g < |lines| - 1 { PrefixSizes(lines, g + 1); }
  }

  lemma LaterPieces(lines: seq<Bytes>, limit: nat, g: nat, piece: Bytes)
    requires AreLines(lines) && g < |lines| && limit > |lines[0]|
    requires PiecesOf(Taken(Unlines(lines[1..]), limit - |lines[0]| - 1)) == lines[1..][..g] + Tail(piece)
    ensures PiecesOf(Taken(Unlines(lines), limit)) == lines[..g + 1] + Tail(piece)
  {
    var line, rest := lines[0], lines[1..];
    FirstLineTaken(line, Unlines(rest), limit);
    PiecesOfOne(line, Taken(Unlines(rest), limit - |line| - 1));
    PrefixOfMore(lines, g, Tail(piece));
  }

  lemma PrefixOfMore<T>(s: seq<T>, g: nat, tail: seq<T>)
    requires g < |s|
    ensures [s[0]] + (s[1..][..g] + tail) == s[..g + 1] + tail
  {
    assert s[..g + 1] == [s[0]] + s[1..][..g];
    AppendAssociates([s[0]], s[1..][..g], tail);
  }

  lemma FirstLineTaken(line: Bytes, rest: Bytes, limit: nat)
    ensures limit <= |line| ==> Taken(line + [NEWLINE] + rest, limit) == line[..limit]
    ensures limit > |line| ==>
              Taken(line + [NEWLINE] + rest, limit) == line + [NEWLINE] + Taken(rest, limit - |line| - 1)
  {
  }

  lemma UnlinesOfOne(lines: seq<Bytes>)
    requires lines != []
    ensures Unlines(lines[..0]) == [] && Unlines(lines[..1]) == lines[0] + [NEWLINE]
  {
    assert lines[..1][1..] == [];
  }

  lemma UnlinesOfTwo(lines: seq<Bytes>)
    requires |lines| > 1
    ensures |Unlines(lines[..2])| >= |lines[0]| + 1 + |lines[1]| + 1
  {
    assert lines[..2][1..] == lines[1..2];
    assert lines[1..2][0] == lines[1];
  }

  lemma PrefixSizes(lines: seq<Bytes>, j: nat)
    requires j < |lines|
    ensures |Unlines(lines[..j + 1])| == |lines[0]| + 1 + |Unlines(lines[1..][..j])|
  {
    assert lines[..j + 1][1..] == lines[1..][..j];
  }

  // ----- what is read back -----

  function AllStored(sealed: seq<Sealed>): (r: seq<Sealed>)
    ensures |r| == |sealed|
    ensures LastLink(r) == LastLink(sealed)
  {
    if sealed == [] then [] else AllStored(sealed[..|sealed| - 1]) + [Stored(sealed[|sealed| - 1])]
  }

  predicate Fits(codec: Codec, sealed: seq<Sealed>) {
    forall i | 0 <= i < |sealed| :: |Line(codec, sealed[i])| <= LINE_LIMIT
  }

  /** The size of the chain file that holds them. */
  function Size(codec: Codec, sealed: seq<Sealed>): nat {
    |Unlines(LinesOf(codec, sealed))|
  }

  /** How many of the entries can be read back: up to the first line that is over the line limit, or
      ends, its newline aside, beyond the chain limit. */
  function HeldCount(codec: Codec, sealed: seq<Sealed>): (count: nat)
    ensures count <= |sealed|
  {
    if sealed == [] then 0
    else
      var init, last := sealed[..|sealed| - 1], sealed[|sealed| - 1];
      var count := HeldCount(codec, init);
      if count == |init| && |Line(codec, last)| <= LINE_LIMIT && Size(codec, sealed) <= CHAIN_LIMIT + 1 then count + 1
      else count
  }

  lemma {:induction false} LinesOfPrefix(codec: Codec, sealed: seq<Sealed>, j: nat)
    requires j <= |sealed|
    ensures LinesOf(codec, sealed)[..j] == LinesOf(codec, sealed[..j])
    ensures j < |sealed| ==> LinesOf(codec, sealed)[j] == Line(codec, sealed[j])
  {
    if j < |sealed| {
      var init := sealed[..|sealed| - 1];
      LinesOfPrefix(codec, init, j);
      assert init[..j] == sealed[..j];
    } else {
      assert sealed[..j] == sealed;
    }
  }

  lemma SizeOfNext(codec: Codec, sealed: seq<Sealed>, j: nat)
    requires j < |sealed|
    ensures Size(codec, sealed[..j + 1]) == Size(codec, sealed[..j]) + |Line(codec, sealed[j])| + 1
  {
    assert sealed[..j + 1] == sealed[..j] + [sealed[j]];
    ChainFileGrows(codec, sealed[..j], sealed[j]);
  }

  lemma {:induction false} SizesGrow(codec: Codec, sealed: seq<Sealed>, i: nat, j: nat)
    requires i <= j <= |sealed|
    ensures Size(codec, sealed[..i]) <= Size(codec, sealed[..j])
    decreases j
  {
    if i < j {
      SizesGrow(codec, sealed, i, j - 1);
      SizeOfNext(codec, sealed, j - 1);
    }
  }

  predicate Readable(codec: Codec, sealed: seq<Sealed>, j: nat)
    requires j <= |sealed|
  {
    Fits(codec, sealed[..j]) && Size(codec, sealed[..j]) <= CHAIN_LIMIT + 1
  }

  /** What the count counts. */
  lemma {:induction false} HeldCountIs(codec: Codec, sealed: seq<Sealed>, j: nat)
    requires j <= |sealed|
    ensures j <= HeldCount(codec, sealed) <==> Readable(codec, sealed, j)
  {
    if sealed == [] {
      assert sealed[..j] == [];
    } else {
      var n := |sealed| - 1;
      var init := sealed[..n];
      if j <= n {
        HeldCountIs(codec, init, j);
        assert init[..j] == sealed[..j];
      } else {
        HeldCountIs(codec, init, n);
        assert init[..n] == init && sealed[..j] == sealed;
        SizesGrow(codec, sealed, n, j);
        InitAndLast(sealed);
        FitsGrows(codec, init, sealed[n]);
      }
    }
  }

  lemma FitsGrows(codec: Codec, init: seq<Sealed>, s: Sealed)
    ensures Fits(codec, init + [s]) <==> Fits(codec, init) && |Line(codec, s)| <= LINE_LIMIT
  {
    assert (init + [s])[|init|] == s && forall i | 0 <= i < |init| :: (init + [s])[i] == init[i];
  }

  /** One's own next line is held as stored when it fits, and is malformed otherwise. */
  lemma OwnLineWalks(codec: Codec, sealed: seq<Sealed>, s: Sealed)
    requires codec.Valid() && Follows(codec, sealed, s) && SealedRight(codec, s)
    ensures Walk(codec, [Line(codec, s)], AllStored(sealed)) ==
            if |Line(codec, s)| <= LINE_LIMIT then (AllStored(sealed) + [Stored(s)], None)
            else (AllStored(sealed), Some(Broken(Breakage(|sealed|, MalformedLine))))
  {
    LineReadsBack(codec, s);
    var line, held := Line(codec, s), AllStored(sealed);
    assert |line| <= LINE_LIMIT ==> Fault(codec, line, LastLink(held), |held|).None?;
    OneLineWalk(codec, line, held);
  }

  lemma OneLineWalk(codec: Codec, line: Bytes, held: seq<Sealed>)
    ensures Walk(codec, [line], held) ==
            var stop := Fault(codec, line, LastLink(held), |held|);
            if stop.Some? then (held, stop) else (held + [Parse(codec, line).line], None)
  {
    assert [line][1..] == [];
  }

  /** Reading these lines holds the first `r` entries, up to the first line that does not fit. */
  predicate StopsAt(codec: Codec, sealed: seq<Sealed>, r: nat) {
    && r <= |sealed| && Fits(codec, sealed[..r])
    && (r < |sealed| ==> |Line(codec, sealed[r])| > LINE_LIMIT)
    && Walk(codec, LinesOf(codec, sealed), [])
       == (AllStored(sealed[..r]), if r < |sealed| then Some(Broken(Breakage(r, MalformedLine))) else None)
  }

  lemma {:induction false} OwnLinesWalk(codec: Codec, sealed: seq<Sealed>) returns (r: nat)
    requires codec.Valid() && WellSealed(codec, sealed)
    ensures StopsAt(codec, sealed, r)
  {
    if sealed == [] {
      r := 0;
    } else {
      r := OwnLinesWalk(codec, sealed[..|sealed| - 1]);
      r := StopsNext(codec, sealed[..|sealed| - 1], sealed[|sealed| - 1], r);
      InitAndLast(sealed);
    }
  }

  lemma StopsNext(codec: Codec, init: seq<Sealed>, s: Sealed, r: nat) returns (q: nat)
    requires codec.Valid() && Follows(codec, init, s) && SealedRight(codec, s) && StopsAt(codec, init, r)
    ensures StopsAt(codec, init + [s], q)
  {
    if r < |init| {
      StopsEarlier(codec, init, s, r);
      q := r;
    } else {
      StopsLast(codec, init, s);
      q := if |Line(codec, s)| <= LINE_LIMIT then r + 1 else r;
    }
  }

  lemma StopsEarlier(codec: Codec, init: seq<Sealed>, s: Sealed, r: nat)
    requires r < |init| && StopsAt(codec, init, r)
    ensures StopsAt(codec, init + [s], r)
  {
    LinesGrow(codec, init, s);
    WalkAppend(codec, LinesOf(codec, init), [Line(codec, s)], []);
    assert (init + [s])[..r] == init[..r];
  }

  lemma StopsLast(codec: Codec, init: seq<Sealed>, s: Sealed)
    requires codec.Valid() && Follows(codec, init, s) && SealedRight(codec, s) && StopsAt(codec, init, |init|)
    ensures StopsAt(codec, init + [s], if |Line(codec, s)| <= LINE_LIMIT then |init| + 1 else |init|)
  {
    var all := init + [s];
    LinesGrow(codec, init, s);
    WalkAppend(codec, LinesOf(codec, init), [Line(codec, s)], []);
    assert init[..|init|] == init && all[..|init|] == init && all[..|init| + 1] == all;
    OwnLineWalks(codec, init, s);
    FitsGrows(codec, init, s);
  }

  lemma LinesGrow(codec: Codec, init: seq<Sealed>, s: Sealed)
    ensures LinesOf(codec, init + [s]) == LinesOf(codec, init) + [Line(codec, s)]
  {
    assert (init + [s])[..|init|] == init;
  }

  // ----- what a run reads back as -----

  /** The entries sealed up to the first crash, the one it left behind included. */
  function Sound(s: Session): seq<Sealed> {
    if s.crashed.Some? && s.crashed.value <= |s.sealed| then s.sealed[..s.crashed.value] else s.sealed
  }

  function Held(codec: Codec, s: Session): nat {
    HeldCount(codec, Sound(s))
  }

  /** Nothing sealed is missing from what is held, or the chain limit cuts the file right behind
      it; and the head record, if there is one, names the last entry held. */
  predicate ReadsWhole(codec: Codec, s: Session) {
    var held := s.sealed[..Held(codec, s)];
    && (held == s.sealed || Size(codec, held) >= CHAIN_LIMIT)
    && (s.disk.head.Some? ==> s.disk.head.value == HeadAfter(held))
  }

  function ReadingOf(codec: Codec, s: Session): Reading {
    VerifiedOf(codec, ChainLines(s.disk, CHAIN_LIMIT), s.disk.head)
  }

  lemma {:induction false} WellSealedBefore(codec: Codec, sealed: seq<Sealed>, n: nat)
    requires WellSealed(codec, sealed) && n <= |sealed|
    ensures WellSealed(codec, sealed[..n])
  {
    if n < |sealed| {
      WellSealedBefore(codec, sealed[..|sealed| - 1], n);
      assert sealed[..|sealed| - 1][..n] == sealed[..n];
    } else {
      assert sealed[..n] == sealed;
    }
  }

  /** Behind the sound lines comes one that breaks the chain: it repeats a number, or was cut. */
  lemma NextIsBroken(codec: Codec, s: Session, n: nat, next: Bytes)
    requires codec.Valid() && PrefixFree(codec) && n < |s.sealed|
    requires next != Line(codec, s.sealed[n]) ==> next <= Line(codec, s.sealed[n])
    requires next == Line(codec, s.sealed[n]) ==> s.sealed[n].entry.sequence != n
    ensures var stop := Fault(codec, next, LastLink(AllStored(s.sealed[..n])), n);
            stop.Some? && stop.value.Broken?
  {
    var made := s.sealed[n];
    var document := LineDocument(DocumentOf(made.entry), made.link, made.tag);
    assert Line(codec, made) == codec.render(document);
    if next != Line(codec, made) {
      assert codec.load(next) == NotALine;
    }
  }

  /** The file is cut behind `h` whole lines and a piece of the next. */
  predicate CutAt(codec: Codec, sealed: seq<Sealed>, h: nat, piece: Bytes) {
    && h <= |sealed|
    && Size(codec, sealed[..h]) <= CHAIN_LIMIT + 1
    && (h < |sealed| ==> Size(codec, sealed[..h + 1]) > CHAIN_LIMIT + 1)
    && (h < |sealed| ==> (piece == [] <==> Size(codec, sealed[..h]) >= CHAIN_LIMIT))
    && (piece != [] ==> h < |sealed| && piece <= Line(codec, sealed[h]) && piece != Line(codec, sealed[h]))
  }

  lemma CutSealed(codec: Codec, disk: Disk, sealed: seq<Sealed>) returns (h: nat, piece: Bytes)
    requires codec.Valid() && disk.chain == Unlines(LinesOf(codec, sealed))
    ensures CutAt(codec, sealed, h, piece)
    ensures ChainLines(disk, CHAIN_LIMIT) == LinesOf(codec, sealed)[..h] + Tail(piece)
  {
    OwnLinesAreLines(codec, sealed);
    h, piece := CutLines(LinesOf(codec, sealed), CHAIN_LIMIT);
    LinesOfPrefix(codec, sealed, h);
    if h < |sealed| { LinesOfPrefix(codec, sealed, h + 1); }
  }

  /** Reading stops behind the first `r` entries: at the end of what is sound or read, or at a line
      that does not fit. */
  predicate StopAt(codec: Codec, sealed: seq<Sealed>, sound: nat, h: nat, r: nat) {
    && r <= h <= |sealed| && r <= sound <= |sealed|
    && Fits(codec, sealed[..r])
    && (r < h && r < sound ==> |Line(codec, sealed[r])| > LINE_LIMIT)
  }

  lemma PiecesSplit(codec: Codec, sealed: seq<Sealed>, n: nat, h: nat, piece: Bytes)
    requires n <= h <= |sealed|
    ensures LinesOf(codec, sealed)[..h] + Tail(piece)
            == LinesOf(codec, sealed[..n]) + (LinesOf(codec, sealed)[n..h] + Tail(piece))
  {
    var lines := LinesOf(codec, sealed);
    LinesOfPrefix(codec, sealed, n);
    assert lines[..h] == lines[..n] + lines[n..h];
    AppendAssociates(lines[..n], lines[n..h], Tail(piece));
  }

  lemma BrokenWalk(codec: Codec, lines: seq<Bytes>, held: seq<Sealed>)
    requires lines != []
    requires var stop := Fault(codec, lines[0], LastLink(held), |held|); stop.Some? && stop.value.Broken?
    ensures var (more, stop) := Walk(codec, lines, held); more == held && stop.Some? && stop.value.Broken?
  {
  }

  /** What is read behind the first `n` lines, when they are all that is sound, or all that is
      read whole. */
  lemma {:induction false} MoreIsBroken(codec: Codec, s: Session, h: nat, piece: Bytes, n: nat)
    requires codec.Valid() && PrefixFree(codec) && Tracked(codec, s)
    requires CutAt(codec, s.sealed, h, piece) && n == Min(h, |Sound(s)|)
    requires LinesOf(codec, s.sealed)[n..h] + Tail(piece) != []
    ensures var more := LinesOf(codec, s.sealed)[n..h] + Tail(piece);
            var (held, stop) := Walk(codec, more, AllStored(s.sealed[..n]));
            held == AllStored(s.sealed[..n]) && stop.Some? && stop.value.Broken?
  {
    var more := LinesOf(codec, s.sealed)[n..h] + Tail(piece);
    if n < h {
      LinesOfPrefix(codec, s.sealed, n);
      assert more[0] == Line(codec, s.sealed[n]);
    } else {
      assert more[0] == piece;
    }
    NextIsBroken(codec, s, n, more[0]);
    BrokenWalk(codec, more, AllStored(s.sealed[..n]));
  }

  lemma PrefixOfPrefix<T>(s: seq<T>, n: nat, r: nat)
    requires r <= n <= |s|
    ensures s[..n][..r] == s[..r]
  {
  }

  lemma SoundIsWell(codec: Codec, s: Session, n: nat)
    requires Tracked(codec, s) && n <= |Sound(s)|
    ensures |Sound(s)| <= |s.sealed| && WellSealed(codec, s.sealed[..n])
  {
    WellSealedBefore(codec, Sound(s), n);
    PrefixOfPrefix(s.sealed, |Sound(s)|, n);
  }

  lemma {:induction false} FindStop(codec: Codec, s: Session, h: nat, piece: Bytes) returns (r: nat)
    requires codec.Valid() && PrefixFree(codec) && Tracked(codec, s) && CutAt(codec, s.sealed, h, piece)
    ensures StopAt(codec, s.sealed, |Sound(s)|, h, r)
    ensures var (held, stop) := Walk(codec, LinesOf(codec, s.sealed)[..h] + Tail(piece), []);
            && held == AllStored(s.sealed[..r])
            && (stop == None <==> r == h && piece == [])
            && (stop.Some? ==> stop.value.Broken?)
  {
    var n := Min(h, |Sound(s)|);
    var more := LinesOf(codec, s.sealed)[n..h] + Tail(piece);
    SoundIsWell(codec, s, n);
    r := OwnLinesWalk(codec, s.sealed[..n]);
    PrefixOfPrefix(s.sealed, n, r);
    PiecesSplit(codec, s.sealed, n, h, piece);
    WalkAppend(codec, LinesOf(codec, s.sealed[..n]), more, []);
    assert more == [] <==> n == h && piece == [];
    if r == n && more != [] {
      MoreIsBroken(codec, s, h, piece, n);
    }
  }

  /** Where reading stops is where the count ends. */
  lemma {:induction false} StopIsCount(codec: Codec, sealed: seq<Sealed>, sound: nat, h: nat, piece: Bytes, r: nat)
    requires CutAt(codec, sealed, h, piece) && StopAt(codec, sealed, sound, h, r)
    ensures r == HeldCount(codec, sealed[..sound])
  {
    SizesGrow(codec, sealed, r, h);
    PrefixOfPrefix(sealed, sound, r);
    HeldCountIs(codec, sealed[..sound], r);
    if r < sound {
      PrefixOfPrefix(sealed, sound, r + 1);
      HeldCountIs(codec, sealed[..sound], r + 1);
      if r < h {
        assert sealed[..r + 1][r] == sealed[r];
      }
    }
  }

  /** Nothing stops the reading exactly when all is held or the cut is right behind it. */
  lemma {:induction false} NoStopExactly(codec: Codec, sealed: seq<Sealed>, h: nat, piece: Bytes, r: nat)
    requires codec.Valid() && CutAt(codec, sealed, h, piece) && r <= h
    ensures r == h && piece == [] <==> r == |sealed| || Size(codec, sealed[..r]) >= CHAIN_LIMIT
  {
    if r < h {
      SizeOfNext(codec, sealed, r);
      SizesGrow(codec, sealed, r + 1, h);
      assert Line(codec, sealed[r]) != [];
    }
  }

  /** What is held, for every session a run leads to, and exactly when it reads as intact. */
  lemma {:induction false} TrackedReads(codec: Codec, s: Session)
    requires codec.Valid() && PrefixFree(codec) && Tracked(codec, s)
    ensures ReadingOf(codec, s).Read?
    ensures ReadingOf(codec, s).held == AllStored(s.sealed[..Held(codec, s)])
    ensures ReadingOf(codec, s).report.Intact() <==> ReadsWhole(codec, s)
    ensures Held(codec, s) == |s.sealed| ==>
              ReadingOf(codec, s).report.firstBreak == HeadFault(ReadingOf(codec, s).held, s.disk.head)
  {
    var h, piece := CutSealed(codec, s.disk, s.sealed);
    var r := FindStop(codec, s, h, piece);
    SoundIsPrefix(s);
    StopIsCount(codec, s.sealed, |Sound(s)|, h, piece, r);
    NoStopExactly(codec, s.sealed, h, piece, r);
    WholeExactly(codec, s, r, Walk(codec, ChainLines(s.disk, CHAIN_LIMIT), []).1);
  }

  lemma SoundIsPrefix(s: Session)
    ensures |Sound(s)| <= |s.sealed| && Sound(s) == s.sealed[..|Sound(s)|]
  {
  }

  lemma WholeExactly(codec: Codec, s: Session, r: nat, stop: Option<Stop>)
    requires r == Held(codec, s) <= |s.sealed|
    requires stop == None <==> r == |s.sealed| || Size(codec, s.sealed[..r]) >= CHAIN_LIMIT
    ensures ReadsWhole(codec, s) <==> stop == None && HeadFault(AllStored(s.sealed[..r]), s.disk.head) == None
  {
    assert s.sealed[..r] == s.sealed <==> r == |s.sealed|;
  }

  // ----- the main results -----

  /** After any run from an empty store, with any number of crashes, reading raises nothing; what
      is held is what can be read back of the entries sealed up to the first crash; and the chain
      reads as intact exactly when that is whole. */
  lemma {:induction false} RunsHold(codec: Codec, ops: seq<Op>)
    requires codec.Valid() && PrefixFree(codec) && forall op | op in ops :: ValidOp(op)
    ensures var end := Run(codec, FIRST_SESSION, ops);
            var reading := ReadingOf(codec, end);
            && reading.Read?
            && reading.held == AllStored(end.sealed[..Held(codec, end)])
            && (reading.report.Intact() <==> ReadsWhole(codec, end))
  {
    FirstIsConsistent(codec);
    RunKeepsTracked(codec, FIRST_SESSION, ops);
    TrackedReads(codec, Run(codec, FIRST_SESSION, ops));
  }

  /** After any run without a crash the chain reads back as intact exactly when every line written
      fits the line limit and the file, but for its last newline, the chain limit; then every entry
      is held as stored. Appending checks neither. */
  lemma {:induction false} RunsReadBack(codec: Codec, ops: seq<Op>)
    requires codec.Valid() && PrefixFree(codec) && forall op | op in ops :: ValidOp(op) && !op.Crash?
    ensures var end := Run(codec, FIRST_SESSION, ops);
            var reading := ReadingOf(codec, end);
            && reading.Read?
            && (reading.report.Intact() <==> Fits(codec, end.sealed) && |end.disk.chain| <= CHAIN_LIMIT + 1)
            && (reading.report.Intact() ==> reading.held == AllStored(end.sealed))
  {
    var end := Run(codec, FIRST_SESSION, ops);
    FirstIsConsistent(codec);
    RunKeepsConsistent(codec, FIRST_SESSION, ops);
    TrackedReads(codec, end);
    assert end.sealed[..|end.sealed|] == end.sealed;
    HeldCountIs(codec, end.sealed, |end.sealed|);
  }

  /** After a crash a chain within the limit reads as intact only when the crash fell on the very
      first append, whose line fits, and nothing has been appended since: no head is there yet. */
  lemma {:induction false} CrashesAreReported(codec: Codec, ops: seq<Op>)
    requires codec.Valid() && PrefixFree(codec) && forall op | op in ops :: ValidOp(op)
    requires Run(codec, FIRST_SESSION, ops).crashed.Some?
    requires |Run(codec, FIRST_SESSION, ops).disk.chain| <= CHAIN_LIMIT + 1
    ensures var end := Run(codec, FIRST_SESSION, ops);
            var reading := ReadingOf(codec, end);
            reading.Read? && (reading.report.Intact() <==> |end.sealed| == 1 && Fits(codec, end.sealed))
  {
    var end := Run(codec, FIRST_SESSION, ops);
    RunsHold(codec, ops);
    FirstIsConsistent(codec);
    RunKeepsTracked(codec, FIRST_SESSION, ops);
    StaleIsWholeWhenFirst(codec, end, end.crashed.value);
  }

  lemma StaleIsWholeWhenFirst(codec: Codec, s: Session, k: nat)
    requires codec.Valid() && Stale(codec, s, k) && s.crashed == Some(k) && |s.disk.chain| <= CHAIN_LIMIT + 1
    ensures ReadsWhole(codec, s) <==> |s.sealed| == 1 && Fits(codec, s.sealed)
  {
    CutIsBehindAll(codec, s.sealed, Held(codec, s));
    assert s.sealed[..|s.sealed|] == s.sealed && s.sealed[..k][..k] == s.sealed[..k];
    HeldCountIs(codec, s.sealed[..k], k);
  }

  /** Within the limit nothing but the last line ends that close to it. */
  lemma CutIsBehindAll(codec: Codec, sealed: seq<Sealed>, h: nat)
    requires codec.Valid() && h <= |sealed| && Size(codec, sealed) <= CHAIN_LIMIT + 1
    ensures sealed[..h] == sealed || Size(codec, sealed[..h]) >= CHAIN_LIMIT ==> h == |sealed|
  {
    if h < |sealed| {
      SizeOfNext(codec, sealed, h);
      SizesGrow(codec, sealed, h + 1, |sealed|);
      assert sealed[..|sealed|] == sealed;
      assert Line(codec, sealed[h]) != [];
    }
  }

  lemma {:induction false} RunKeepsStale(codec: Codec, s: Session, ops: seq<Op>, k: nat)
    requires Stale(codec, s, k) && s.crashed == Some(k)
    ensures Stale(codec, Run(codec, s, ops), k) && Run(codec, s, ops).crashed == Some(k)
    ensures s.sealed <= Run(codec, s, ops).sealed
    decreases |ops|
  {
    if ops != [] {
      StepKeepsStale(codec, s, ops[0], k);
      RunKeepsStale(codec, After(codec, s, ops[0]), ops[1..], k);
    }
  }

  /** The writer that reopens after a crash carries the stale head and numbers its next entry as
      the one already there, so nothing appended afterwards, through further crashes or not, is
      ever held: what is held stays what it was. */
  lemma {:induction false} AfterCrashNothingMoreIsHeld(codec: Codec, s: Session, ops: seq<Op>)
    requires codec.Valid() && PrefixFree(codec) && Tracked(codec, s) && s.crashed.Some?
    requires forall op | op in ops :: ValidOp(op)
    ensures ReadingOf(codec, s).Read? && ReadingOf(codec, Run(codec, s, ops)).Read?
    ensures ReadingOf(codec, Run(codec, s, ops)).held == ReadingOf(codec, s).held
  {
    RunKeepsTracked(codec, s, ops);
    RunKeepsStale(codec, s, ops, s.crashed.value);
    SoundStays(codec, s, Run(codec, s, ops));
    TrackedReads(codec, s);
    TrackedReads(codec, Run(codec, s, ops));
  }

  lemma SoundStays(codec: Codec, s: Session, later: Session)
    requires s.crashed.Some? && s.crashed == later.crashed && s.crashed.value <= |s.sealed|
    requires s.sealed <= later.sealed
    ensures s.sealed[..Held(codec, s)] == later.sealed[..Held(codec, later)]
  {
    var k := s.crashed.value;
    assert later.sealed[..k] == s.sealed[..k];
    PrefixOfPrefix(later.sealed, k, Held(codec, later));
    PrefixOfPrefix(s.sealed, k, Held(codec, s));
  }

  lemma {:induction false} CrashHolds(codec: Codec, s: Session, c: Session)
    requires Consistent(codec, s) && c.crashed == Some(|s.sealed| + 1)
    requires |c.sealed| == |s.sealed| + 1 && s.sealed <= c.sealed
    ensures Held(codec, s) <= Held(codec, c) && s.sealed[..Held(codec, s)] == c.sealed[..Held(codec, s)]
    ensures Held(codec, c) == |c.sealed| <==> Fits(codec, c.sealed) && Size(codec, c.sealed) <= CHAIN_LIMIT + 1
  {
    var n := |s.sealed|;
    assert c.sealed[..n] == s.sealed && c.sealed[..n + 1] == c.sealed;
    HeldCountIs(codec, c.sealed, n + 1);
    PrefixOfPrefix(c.sealed, n, Held(codec, s));
  }

  /** The crash itself loses no held entry. */
  lemma {:induction false} CrashLosesNothing(codec: Codec, s: Session, event: Event, stamp: string)
    requires codec.Valid() && PrefixFree(codec) && Consistent(codec, s) && event.Valid()
    ensures var before, after := ReadingOf(codec, s), ReadingOf(codec, Crashed(codec, s, event, stamp));
            before.Read? && after.Read? && before.held <= after.held
  {
    var c := Crashed(codec, s, event, stamp);
    CrashMakesStale(codec, s, event, stamp);
    TrackedReads(codec, s);
    TrackedReads(codec, c);
    CrashHolds(codec, s, c);
    StoredBefore(c.sealed, Held(codec, s), Held(codec, c));
  }

  /** The new entry is held too when the chain can be read to its end, and then the stale head is
      reported, except on the very first append. */
  lemma {:induction false} CrashIsReported(codec: Codec, s: Session, event: Event, stamp: string)
    requires codec.Valid() && PrefixFree(codec) && Consistent(codec, s) && event.Valid()
    requires var c := Crashed(codec, s, event, stamp);
             Fits(codec, c.sealed) && |c.disk.chain| <= CHAIN_LIMIT + 1
    ensures var c := Crashed(codec, s, event, stamp);
            var reading := ReadingOf(codec, c);
            && reading.Read? && reading.held == AllStored(c.sealed)
            && reading.report.firstBreak ==
               if s.sealed == [] then None else Some(Breakage(|s.sealed| - 1, HeadAheadOfChain))
  {
    var c := Crashed(codec, s, event, stamp);
    CrashMakesStale(codec, s, event, stamp);
    CrashHolds(codec, s, c);
    assert c.sealed[..|c.sealed|] == c.sealed;
    TrackedReads(codec, c);
  }

  lemma {:induction false} StoredBefore(sealed: seq<Sealed>, i: nat, j: nat)
    requires i <= j <= |sealed|
    ensures AllStored(sealed[..i]) <= AllStored(sealed[..j])
    decreases j
  {
    if i < j {
      StoredBefore(sealed, i, j - 1);
      assert sealed[..j][..j - 1] == sealed[..j - 1];
    }
  }
}

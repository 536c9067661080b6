/** What reading a chain promises: held prefixes, which lines make it raise, binding to the head,
    and lines that read back as they were sealed. */
module LedgerLaws {
  import opened Bytes
  import opened Claims
  import opened Ledger

  // ----- prefixes -----

  lemma {:induction false} WalkExtends(codec: Codec, lines: seq<Bytes>, held: seq<Sealed>)
    ensures held <= Walk(codec, lines, held).0
    decreases |lines|
  {
    if lines != [] && Fault(codec, lines[0], LastLink(held), |held|).None? {
      WalkExtends(codec, lines[1..], held + [Parse(codec, lines[0]).line]);
    }
  }

  lemma {:induction false} WalkAppend(codec: Codec, a: seq<Bytes>, b: seq<Bytes>, held: seq<Sealed>)
    ensures Walk(codec, a + b, held) ==
            if Walk(codec, a, held).1.Some? then Walk(codec, a, held) else Walk(codec, b, Walk(codec, a, held).0)
    decreases |a|
  {
    if a == [] {
      assert a + b == b;
    } else {
      assert (a + b)[1..] == a[1..] + b;
      if Fault(codec, a[0], LastLink(held), |held|).None? {
        WalkAppend(codec, a[1..], b, held + [Parse(codec, a[0]).line]);
      }
    }
  }

  /** What a chain holds, every longer chain that starts with it and can be read holds too,
      whatever the heads. */
  lemma HeldIsAPrefix(codec: Codec, lines: seq<Bytes>, more: seq<Bytes>, head: Option<Head>, later: Option<Head>)
    ensures var longer := VerifiedOf(codec, lines + more, later);
            longer.Read? ==>
              VerifiedOf(codec, lines, head).Read? && VerifiedOf(codec, lines, head).held <= longer.held
  {
    WalkAppend(codec, lines, more, []);
    WalkExtends(codec, more, Walk(codec, lines, []).0);
  }

  // ----- lines that cannot be read -----

  /** The line makes reading raise instead of reporting a break: short enough to be looked at, it
      fails to load, or holds a right event under an infinite number, or has everything right up
      to its number and a tag outside ASCII. */
  predicate Raises(codec: Codec, line: Bytes, expected: nat) {
    |line| <= LINE_LIMIT
    && match codec.load(line)
       case NotALine => false
       case Failing => true
       case Unbounded(d) => ParseEvent(d.entry).Some?
       case Loaded(d) =>
         ParseEvent(d.entry).Some? && IsDigest(d.link) && d.entry.sequence == expected && !IsAscii(d.mac)
  }

  /** The first thing wrong with the lines is that line `i` raises. */
  predicate RaisesFirst(codec: Codec, lines: seq<Bytes>, i: nat) {
    i < |lines| && Walk(codec, lines[..i], []).1 == None && Raises(codec, lines[i], i)
  }

  lemma RaisesIsEscaped(codec: Codec, line: Bytes, previous: Bytes, expected: nat)
    ensures Fault(codec, line, previous, expected) == Some(Escaped) <==> Raises(codec, line, expected)
  {
  }

  lemma {:induction false} RaisedWhenFirst(codec: Codec, lines: seq<Bytes>, i: nat)
    requires RaisesFirst(codec, lines, i)
    ensures Walk(codec, lines, []).1 == Some(Escaped)
  {
    WalkFaults(codec, lines, i);
    RaisesIsEscaped(codec, lines[i], LastLink(Walk(codec, lines[..i], []).0), i);
  }

  lemma {:induction false} FirstRaises(codec: Codec, lines: seq<Bytes>) returns (i: nat)
    requires Walk(codec, lines, []).1 == Some(Escaped)
    ensures RaisesFirst(codec, lines, i)
  {
    i := FirstStop(codec, lines, []);
    WalkCounts(codec, lines[..i], []);
    RaisesIsEscaped(codec, lines[i], LastLink(Walk(codec, lines[..i], []).0), i);
  }

  /** Reading raises exactly when everything before some line is sound and that line raises. */
  lemma {:induction false} RaisedExactly(codec: Codec, lines: seq<Bytes>, head: Option<Head>)
    ensures VerifiedOf(codec, lines, head) == Raised <==> exists i: nat :: RaisesFirst(codec, lines, i)
  {
    if i: nat :| RaisesFirst(codec, lines, i) {
      RaisedWhenFirst(codec, lines, i);
    }
    if Walk(codec, lines, []).1 == Some(Escaped) {
      var i := FirstRaises(codec, lines);
    }
  }

  lemma {:induction false} WalkCounts(codec: Codec, lines: seq<Bytes>, held: seq<Sealed>)
    requires Walk(codec, lines, held).1 == None
    ensures |Walk(codec, lines, held).0| == |held| + |lines|
    decreases |lines|
  {
    if lines != [] { WalkCounts(codec, lines[1..], held + [Parse(codec, lines[0]).line]); }
  }

  /** Reading on from sound lines stops where the next one is at fault. */
  lemma WalkFaults(codec: Codec, lines: seq<Bytes>, i: nat)
    requires i < |lines| && Walk(codec, lines[..i], []).1 == None
    ensures var held := Walk(codec, lines[..i], []).0;
            var stop := Fault(codec, lines[i], LastLink(held), i);
            |held| == i && (stop.Some? ==> Walk(codec, lines, []) == (held, stop))
  {
    WalkCounts(codec, lines[..i], []);
    assert lines == lines[..i] + lines[i..];
    WalkAppend(codec, lines[..i], lines[i..], []);
  }

  lemma {:induction false} FirstStop(codec: Codec, lines: seq<Bytes>, held: seq<Sealed>) returns (i: nat)
    requires Walk(codec, lines, held).1.Some?
    ensures i < |lines| && Walk(codec, lines[..i], held).1 == None
    ensures var before := Walk(codec, lines[..i], held).0;
            Walk(codec, lines, held).1 == Fault(codec, lines[i], LastLink(before), |before|)
    decreases |lines|
  {
    if Fault(codec, lines[0], LastLink(held), |held|).Some? {
      i := 0;
    } else {
      var j := FirstStop(codec, lines[1..], held + [Parse(codec, lines[0]).line]);
      i := j + 1;
      assert lines[..i][1..] == lines[1..][..j];
    }
  }

  // ----- binding -----

  /** Every entry is numbered in turn and links to the one before it. */
  predicate IsChain(codec: Codec, held: seq<Sealed>) {
    held != [] ==>
      var init, last := held[..|held| - 1], held[|held| - 1];
      IsChain(codec, init) && Follows(codec, init, last)
  }

  predicate Follows(codec: Codec, held: seq<Sealed>, s: Sealed) {
    s.entry.sequence == |held| && s.link == LinkAfter(codec, LastLink(held), s.entry)
  }

  lemma {:induction false} WalkIsChain(codec: Codec, lines: seq<Bytes>, held: seq<Sealed>)
    requires IsChain(codec, held)
    ensures IsChain(codec, Walk(codec, lines, held).0)
    ensures Walk(codec, lines, held).1.None? ==> |Walk(codec, lines, held).0| == |held| + |lines|
    decreases |lines|
  {
    if lines != [] && Fault(codec, lines[0], LastLink(held), |held|).None? {
      var s := Parse(codec, lines[0]).line;
      ChainGrows(codec, held, s);
      WalkIsChain(codec, lines[1..], held + [s]);
    }
  }

  lemma ChainGrows(codec: Codec, held: seq<Sealed>, s: Sealed)
    requires IsChain(codec, held) && Follows(codec, held, s)
    ensures IsChain(codec, held + [s])
  {
    assert (held + [s])[..|held|] == held;
  }

  function Documents(held: seq<Sealed>): (documents: seq<Document>)
    ensures |documents| == |held|
  {
    if held == [] then [] else Documents(held[..|held| - 1]) + [DocumentOf(held[|held| - 1].entry)]
  }

  lemma LinksAreDigests(codec: Codec, held: seq<Sealed>)
    requires codec.Valid() && IsChain(codec, held)
    ensures |LastLink(held)| == 64
  {
    assert held != [] ==> IsDigest(LastLink(held));
  }

  lemma EqualPrefixes(a: Bytes, b: Bytes, c: Bytes, d: Bytes)
    requires |a| == |b| && a + c == b + d
    ensures a == b && c == d
  {
    assert a == (a + c)[..|a|] && b == (b + d)[..|a|];
    assert c == (a + c)[|a|..] && d == (b + d)[|a|..];
  }

  /** What is hashed for the link of one entry: the link before it, and its rendered document. */
  function Hashed(codec: Codec, held: seq<Sealed>, i: nat): Bytes
    requires i < |held|
  {
    LastLink(held[..i]) + codec.canonical(DocumentOf(held[i].entry))
  }

  /** At one place the two chains hash different bytes to one digest. */
  predicate CollidesAt(codec: Codec, a: seq<Sealed>, b: seq<Sealed>, i: nat)
    requires i < |a| && i < |b|
  {
    Hashed(codec, a, i) != Hashed(codec, b, i) && codec.sha(Hashed(codec, a, i)) == codec.sha(Hashed(codec, b, i))
  }

  predicate Collide(codec: Codec, a: seq<Sealed>, b: seq<Sealed>) {
    exists i | 0 <= i < |a| && i < |b| :: CollidesAt(codec, a, b, i)
  }

  lemma HashedBefore(codec: Codec, held: seq<Sealed>, n: nat, i: nat)
    requires i < n <= |held|
    ensures Hashed(codec, held[..n], i) == Hashed(codec, held, i)
  {
    assert held[..n][..i] == held[..i];
  }

  lemma CollidesBefore(codec: Codec, a: seq<Sealed>, b: seq<Sealed>, n: nat)
    requires n <= |a| && n <= |b| && Collide(codec, a[..n], b[..n])
    ensures Collide(codec, a, b)
  {
    var i :| 0 <= i < n && CollidesAt(codec, a[..n], b[..n], i);
    HashedBefore(codec, a, n, i);
    HashedBefore(codec, b, n, i);
    assert CollidesAt(codec, a, b, i);
  }

  lemma LastIsHashed(codec: Codec, held: seq<Sealed>)
    requires held != [] && IsChain(codec, held)
    ensures LastLink(held) == codec.sha(Hashed(codec, held, |held| - 1))
  {
  }

  lemma SameHashed(codec: Codec, a: seq<Sealed>, b: seq<Sealed>, n: nat)
    requires n < |a| && n < |b| && codec.Valid() && IsChain(codec, a[..n]) && IsChain(codec, b[..n])
    requires Hashed(codec, a, n) == Hashed(codec, b, n)
    ensures LastLink(a[..n]) == LastLink(b[..n]) && DocumentOf(a[n].entry) == DocumentOf(b[n].entry)
  {
    LinksAreDigests(codec, a[..n]);
    LinksAreDigests(codec, b[..n]);
    EqualPrefixes(LastLink(a[..n]), LastLink(b[..n]),
                  codec.canonical(DocumentOf(a[n].entry)), codec.canonical(DocumentOf(b[n].entry)));
  }

  /** Two chains of one length that end in the same link hold the same documents, or collide on
      what they hash at one place. */
  lemma {:induction false} ChainsBind(codec: Codec, a: seq<Sealed>, b: seq<Sealed>)
    requires codec.Valid() && IsChain(codec, a) && IsChain(codec, b)
    requires |a| == |b| && LastLink(a) == LastLink(b)
    ensures Documents(a) == Documents(b) || Collide(codec, a, b)
    decreases |a|
  {
    if a != [] {
      var n := |a| - 1;
      LastIsHashed(codec, a);
      LastIsHashed(codec, b);
      if Hashed(codec, a, n) == Hashed(codec, b, n) {
        SameHashed(codec, a, b, n);
        ChainsBind(codec, a[..n], b[..n]);
        if Collide(codec, a[..n], b[..n]) { CollidesBefore(codec, a, b, n); }
      } else {
        assert CollidesAt(codec, a, b, n);
      }
    }
  }

  function HeldIn(codec: Codec, lines: seq<Bytes>): seq<Sealed> {
    Walk(codec, lines, []).0
  }

  predicate IntactAgainst(codec: Codec, lines: seq<Bytes>, head: Head) {
    var reading := VerifiedOf(codec, lines, Some(head));
    reading.Read? && reading.report.Intact()
  }

  /** Two sequences of lines that both read as intact against one head hold an entry for every
      line, and the same documents in the same order, or they collide on what they hash. */
  lemma HeadBindsTheChain(codec: Codec, a: seq<Bytes>, b: seq<Bytes>, head: Head)
    requires codec.Valid() && IntactAgainst(codec, a, head) && IntactAgainst(codec, b, head)
    ensures |HeldIn(codec, a)| == |a| && |HeldIn(codec, b)| == |b|
    ensures Documents(HeldIn(codec, a)) == Documents(HeldIn(codec, b))
            || Collide(codec, HeldIn(codec, a), HeldIn(codec, b))
  {
    WalkIsChain(codec, a, []);
    WalkIsChain(codec, b, []);
    ChainsBind(codec, HeldIn(codec, a), HeldIn(codec, b));
  }

  /** The hash tells apart the finitely many byte strings the two chains hash. */
  ghost predicate TellsApart(codec: Codec, a: seq<Sealed>, b: seq<Sealed>) {
    forall i, j | 0 <= i < |a| && 0 <= j < |b| && codec.sha(Hashed(codec, a, i)) == codec.sha(Hashed(codec, b, j)) ::
      Hashed(codec, a, i) == Hashed(codec, b, j)
  }

  /** Tampering does not pass: against the head of an intact chain no lines that hold other
      documents, by an edit, a removal, an insertion, a reordering or a truncation, are intact,
      as long as the hash tells apart what the two chains hash. */
  lemma TamperingIsReported(codec: Codec, lines: seq<Bytes>, altered: seq<Bytes>, head: Head)
    requires codec.Valid() && IntactAgainst(codec, lines, head)
    requires TellsApart(codec, HeldIn(codec, lines), HeldIn(codec, altered))
    requires Documents(HeldIn(codec, lines)) != Documents(HeldIn(codec, altered))
    ensures !IntactAgainst(codec, altered, head)
  {
    if IntactAgainst(codec, altered, head) {
      HeadBindsTheChain(codec, lines, altered, head);
    }
  }

  /** In particular a chain of any other length is not intact, whatever its lines say. */
  lemma OtherLengthsAreReported(codec: Codec, lines: seq<Bytes>, altered: seq<Bytes>, head: Head)
    requires codec.Valid() && IntactAgainst(codec, lines, head) && |altered| != |lines|
    ensures !IntactAgainst(codec, altered, head)
  {
    WalkIsChain(codec, lines, []);
    WalkIsChain(codec, altered, []);
  }

  // ----- what is held, and why reading breaks off -----

  /** Every entry held carries the tag the key gives its link. */
  predicate RightlyTagged(codec: Codec, held: seq<Sealed>) {
    forall i | 0 <= i < |held| :: held[i].tag == codec.mac(held[i].link)
  }

  lemma {:induction false} WalkIsTagged(codec: Codec, lines: seq<Bytes>, held: seq<Sealed>)
    requires RightlyTagged(codec, held)
    ensures RightlyTagged(codec, Walk(codec, lines, held).0)
    decreases |lines|
  {
    if lines != [] && Fault(codec, lines[0], LastLink(held), |held|).None? {
      WalkIsTagged(codec, lines[1..], held + [Parse(codec, lines[0]).line]);
    }
  }

  /** Whatever the lines, what is held is numbered in turn, linked, and tagged with the key. */
  lemma HeldIsGenuine(codec: Codec, lines: seq<Bytes>, head: Option<Head>)
    requires VerifiedOf(codec, lines, head).Read?
    ensures var held := VerifiedOf(codec, lines, head).held;
            IsChain(codec, held) && RightlyTagged(codec, held)
  {
    WalkIsChain(codec, lines, []);
    WalkIsTagged(codec, lines, []);
  }

  /** Everything before line `i` is sound. */
  predicate SoundBefore(codec: Codec, lines: seq<Bytes>, i: nat) {
    i < |lines| && Walk(codec, lines[..i], []).1 == None
  }

  function LinkBefore(codec: Codec, lines: seq<Bytes>, i: nat): Bytes
    requires i <= |lines|
  {
    LastLink(Walk(codec, lines[..i], []).0)
  }

  /** Why line `i`, after sound ones, is at fault; the checks are of the number, the tag and the link. */
  ghost predicate FaultyFor(codec: Codec, lines: seq<Bytes>, i: nat, cause: Cause)
    requires i < |lines|
  {
    var line := lines[i];
    match cause
    case MalformedLine => Parse(codec, line) == NotParsed
    case SequenceOutOfOrder => exists s :: Parse(codec, line) == Parsed(s) && s.entry.sequence != i
    case MacMismatch =>
      exists s :: Parse(codec, line) == Parsed(s) && s.entry.sequence == i
        && IsAscii(s.tag) && s.tag != codec.mac(s.link)
    case LinkMismatch =>
      exists s :: Parse(codec, line) == Parsed(s) && s.entry.sequence == i && s.tag == codec.mac(s.link)
        && s.link != codec.sha(LinkBefore(codec, lines, i) + codec.canonical(DocumentOf(s.entry)))
    case HeadAheadOfChain => false
  }

  /** The number a break is reported under: the one the line gives, when that is what is wrong. */
  function ReportedAs(codec: Codec, line: Bytes, i: nat, cause: Cause): int {
    match Parse(codec, line)
    case Parsed(s) => if cause.SequenceOutOfOrder? then s.entry.sequence else i
    case _ => i
  }

  /** After sound lines, the break at the next is of this cause if and only if that is what is wrong
      with it; then everything before it is held, and nothing else. */
  lemma {:induction false} BreaksExactly(codec: Codec, lines: seq<Bytes>, head: Option<Head>, i: nat, cause: Cause)
    requires codec.Valid() && SoundBefore(codec, lines, i) && cause != HeadAheadOfChain
    ensures var reading := VerifiedOf(codec, lines, head);
            (reading.Read? && |reading.held| == i && reading.report.entries == i
             && reading.report.firstBreak == Some(Breakage(ReportedAs(codec, lines[i], i, cause), cause)))
            <==> FaultyFor(codec, lines, i, cause)
  {
    WalkFaults(codec, lines, i);
    var fault := Fault(codec, lines[i], LinkBefore(codec, lines, i), i);
    FaultExactly(codec, lines, i, cause);
    if fault.None? {
      WalkOnHoldsMore(codec, lines, i);
    }
  }

  lemma {:induction false} FaultExactly(codec: Codec, lines: seq<Bytes>, i: nat, cause: Cause)
    requires codec.Valid() && i < |lines| && cause != HeadAheadOfChain
    ensures Fault(codec, lines[i], LinkBefore(codec, lines, i), i)
            == Some(Broken(Breakage(ReportedAs(codec, lines[i], i, cause), cause)))
            <==> FaultyFor(codec, lines, i, cause)
  {
    assert forall s :: IsAscii(codec.mac(s));
  }

  /** A sound line is held, so that then more than `i` entries are. */
  lemma {:induction false} WalkOnHoldsMore(codec: Codec, lines: seq<Bytes>, i: nat)
    requires SoundBefore(codec, lines, i) && Fault(codec, lines[i], LinkBefore(codec, lines, i), i).None?
    ensures |Walk(codec, lines, []).0| > i
  {
    var held := Walk(codec, lines[..i], []).0;
    WalkCounts(codec, lines[..i], []);
    assert lines == lines[..i] + lines[i..];
    WalkAppend(codec, lines[..i], lines[i..], []);
    WalkExtends(codec, lines[i..][1..], held + [Parse(codec, lines[i]).line]);
  }

  /** With every line sound, the only break left is a head that does not name the last entry. */
  lemma HeadBreaksExactly(codec: Codec, lines: seq<Bytes>, head: Option<Head>)
    requires Walk(codec, lines, []).1 == None
    ensures var reading := VerifiedOf(codec, lines, head);
            && reading.Read? && |reading.held| == |lines| == reading.report.entries
            && reading.report.firstBreak ==
               (if head.None? || head.value == Head(|lines| - 1, LastLink(reading.held)) then None
                else Some(Breakage(head.value.sequence, HeadAheadOfChain)))
  {
    WalkCounts(codec, lines, []);
  }

  // ----- a line read back -----

  /** An entry as it reads back: the reason a check was not tested for is not stored. */
  function Stored(s: Sealed): Sealed {
    Sealed(Entry(s.entry.sequence, s.entry.stamp,
                 s.entry.event.(verdict := AsStored(s.entry.event.verdict))), s.link, s.tag)
  }

  lemma {:induction false} LimitsAreStored(limits: seq<ScopeLimit>)
    ensures ParseLimits(StoredLimits(limits)) == Some(limits)
  {
    if limits != [] {
      LimitsAreStored(limits[1..]);
      ScopeLimitIsStored(limits[0]);
      assert StoredLimits(limits)[1..] == StoredLimits(limits[1..]);
      HeadAndTail(limits);
    }
  }

  lemma KindIsStored(kind: EntryKind)
    ensures ParseKind(kind.Stored()) == Some(kind)
  {
    assert "recorded"[0] != "imported"[0];
  }

  lemma EventIsStored(e: Entry)
    requires e.event.Valid()
    ensures ParseEvent(DocumentOf(e)) == Some(e.event.(verdict := AsStored(e.event.verdict)))
  {
    LimitsAreStored(e.event.limits);
    VerdictIsStored(e.event.verdict);
    EnvironmentIsStored(e.event.environment);
    KindIsStored(e.event.kind);
    var d := DocumentOf(e);
    assert d.kind == e.event.kind.Stored() && d.environment == e.event.environment.Stored();
    assert d.verdict == e.event.verdict.StoredName() && d.limits == StoredLimits(e.event.limits);
  }

  lemma {:induction false} LimitsWereStored(names: seq<string>)
    requires ParseLimits(names).Some?
    ensures StoredLimits(ParseLimits(names).value) == names
  {
    if names != [] {
      LimitsWereStored(names[1..]);
      HeadAndTail(names);
    }
  }

  lemma EventWasStored(d: Document)
    requires ParseEvent(d).Some?
    ensures var e := ParseEvent(d).value;
            e.Valid() && AsStored(e.verdict) == e.verdict && DocumentOf(Entry(d.sequence, d.stamp, e)) == d
  {
    VerdictWasStored(d.verdict);
    LimitsWereStored(d.limits);
  }

  /** Exactly which lines parse: those within the limit that load as the document of what they are
      parsed as, a valid event under a link that is a digest. */
  lemma {:induction false} ParsesExactly(codec: Codec, line: Bytes, s: Sealed)
    ensures Parse(codec, line) == Parsed(s) <==>
            && |line| <= LINE_LIMIT
            && codec.load(line) == Loaded(LineDocument(DocumentOf(s.entry), s.link, s.tag))
            && s.entry.event.Valid() && AsStored(s.entry.event.verdict) == s.entry.event.verdict
            && IsDigest(s.link)
  {
    if codec.load(line).Loaded? && ParseEvent(codec.load(line).document.entry).Some? {
      EventWasStored(codec.load(line).document.entry);
    }
    if s.entry.event.Valid() {
      EventIsStored(s.entry);
    }
  }

  /** A line within the limit reads back as stored, with the same document; a longer one does
      not read back at all. */
  lemma LineReadsBack(codec: Codec, s: Sealed)
    requires codec.Valid() && s.entry.event.Valid() && IsDigest(s.link)
    ensures |Line(codec, s)| <= LINE_LIMIT ==> Parse(codec, Line(codec, s)) == Parsed(Stored(s))
    ensures |Line(codec, s)| > LINE_LIMIT ==> Parse(codec, Line(codec, s)) == NotParsed
    ensures DocumentOf(Stored(s).entry) == DocumentOf(s.entry)
  {
    EventIsStored(s.entry);
    VerdictIsStored(s.entry.event.verdict);
  }
}

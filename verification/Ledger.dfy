/** The append-only chain of attestation entries (src/apex/attestation/ledger.py). The hash, the
    message authentication code and the JSON layer are parameters of the codec. */
module Ledger {
  import opened Bytes
  import opened Claims

  const LINE_LIMIT: nat := 1024 * 1024
  const CHAIN_LIMIT: nat := 1024 * 1024 * 64
  const BEFORE_FIRST: int := -1
  const ZERO: byte := 48
  /** Sixty-four zeros, the link before the first. */
  const GENESIS: Bytes := Zeros(64)

  function Zeros(n: nat): (z: Bytes)
    ensures |z| == n && AllHex(z)
  {
    if n == 0 then [] else Zeros(n - 1) + [ZERO]
  }

  datatype EntryKind = Recorded | Imported {
    function Stored(): string {
      if Recorded? then "recorded" else "imported"
    }
  }

  function ParseKind(name: string): Option<EntryKind> {
    if name == "recorded" then Some(Recorded)
    else if name == "imported" then Some(Imported)
    else None
  }

  /** A dotted lower-case name, as check identifiers are. */
  predicate IsDotted(s: string) {
    s != "" && forall i | 0 <= i < |s| ::
      IsPlain(s[i]) || (s[i] in ".-" && 0 < i < |s| - 1 && IsPlain(s[i - 1]) && IsPlain(s[i + 1]))
  }

  predicate IsPlain(c: char) {
    'a' <= c <= 'z' || '0' <= c <= '9'
  }

  predicate AllDigests(proofs: seq<Bytes>) {
    forall p | p in proofs :: IsDigest(p)
  }

  /** Digests are kept as the hex text they are written in. */
  datatype Event = Event(
    kind: EntryKind,
    check: string,
    verdict: Verdict,
    environment: Environment,
    candidate: Bytes,
    proofs: seq<Bytes>,
    limits: seq<ScopeLimit>)
  {
    predicate Valid() {
      IsDotted(check) && IsDigest(candidate) && AllDigests(proofs)
    }
  }

  datatype Entry = Entry(sequence: int, stamp: string, event: Event)

  /** An entry as it is rendered: every field by the name it is stored under. */
  datatype Document = Document(
    sequence: int,
    stamp: string,
    kind: string,
    check: string,
    verdict: string,
    environment: string,
    candidate: Bytes,
    proofs: seq<Bytes>,
    limits: seq<string>)

  /** The tag is kept as the text it is written in: an edited line may hold any. */
  datatype LineDocument = LineDocument(entry: Document, link: Bytes, mac: string)

  predicate IsAscii(s: string) {
    forall c | c in s :: c < 128 as char
  }

  /** What loading a line and looking its fields up comes to: nothing that reads as a line; an
      exception nobody catches, as for bytes that are not UTF-8, nesting too deep or an integer
      with too many digits; a line; or one whose number is infinite, so that no integer is it. */
  datatype Loading = NotALine | Failing | Loaded(document: LineDocument) | Unbounded(document: LineDocument)

  function StoredLimits(limits: seq<ScopeLimit>): seq<string> {
    seq(|limits|, i requires 0 <= i < |limits| => limits[i].Stored())
  }

  function DocumentOf(e: Entry): Document {
    Document(e.sequence, e.stamp, e.event.kind.Stored(), e.event.check, e.event.verdict.StoredName(),
             e.event.environment.Stored(), e.event.candidate, e.event.proofs, StoredLimits(e.event.limits))
  }

  datatype Sealed = Sealed(entry: Entry, link: Bytes, tag: string)

  datatype Head = Head(sequence: int, link: Bytes)

  const EMPTY := Head(BEFORE_FIRST, GENESIS)

  /** The hash, the keyed tag, the canonical rendering of a document, and the rendering and
      reading of a whole line. */
  datatype Codec = Codec(
    sha: Bytes -> Bytes,
    mac: Bytes -> string,
    canonical: Document -> Bytes,
    render: LineDocument -> Bytes,
    load: Bytes -> Loading)
  {
    ghost predicate Valid() {
      && (forall x :: IsDigest(sha(x)))
      && (forall d, e | canonical(d) == canonical(e) :: d == e)
      && (forall x :: IsAscii(mac(x)))
      && (forall l :: load(render(l)) == Loaded(l))
      && (forall l :: render(l) != [] && NEWLINE !in render(l))
    }
  }

  /** No rendered line reads as a line when it is cut short, as no object in JSON does. */
  ghost predicate PrefixFree(codec: Codec) {
    forall l, cut | cut <= codec.render(l) && cut != codec.render(l) :: codec.load(cut) == NotALine
  }

  function LinkAfter(codec: Codec, previous: Bytes, entry: Entry): Bytes {
    codec.sha(previous + codec.canonical(DocumentOf(entry)))
  }

  function Line(codec: Codec, s: Sealed): Bytes {
    codec.render(LineDocument(DocumentOf(s.entry), s.link, s.tag))
  }

  // ----- reading one line -----

  function ParseLimits(names: seq<string>): Option<seq<ScopeLimit>> {
    if names == [] then Some([])
    else
      var first, rest := ParseScopeLimit(names[0]), ParseLimits(names[1..]);
      if first.None? || rest.None? then None else Some([first.value] + rest.value)
  }

  function ParseEvent(d: Document): Option<Event> {
    var kind, verdict := ParseKind(d.kind), ParseVerdict(d.verdict);
    var environment, limits := ParseEnvironment(d.environment), ParseLimits(d.limits);
    if kind.None? || !IsDotted(d.check) || verdict.None? || environment.None?
       || !IsDigest(d.candidate) || !AllDigests(d.proofs) || limits.None? then None
    else
      Some(Event(kind.value, d.check, verdict.value, environment.value, d.candidate, d.proofs, limits.value))
  }

  datatype Parsing = NotParsed | Raising | Parsed(line: Sealed)

  /** An infinite number is met when the event is made, and before the link is looked at. */
  function Parse(codec: Codec, line: Bytes): Parsing {
    if |line| > LINE_LIMIT then NotParsed
    else
      match codec.load(line)
      case NotALine => NotParsed
      case Failing => Raising
      case Unbounded(document) => if ParseEvent(document.entry).None? then NotParsed else Raising
      case Loaded(document) =>
        var event := ParseEvent(document.entry);
        if event.None? || !IsDigest(document.link) then NotParsed
        else Parsed(Sealed(Entry(document.entry.sequence, document.entry.stamp, event.value),
                           document.link, document.mac))
  }

  // ----- reading a chain -----

  datatype Cause = MalformedLine | SequenceOutOfOrder | LinkMismatch | MacMismatch | HeadAheadOfChain

  datatype Breakage = Breakage(sequence: int, cause: Cause)

  datatype Report = Report(entries: nat, firstBreak: Option<Breakage>) {
    predicate Intact() {
      firstBreak.None?
    }
  }

  /** Why reading stops at a line: a break the report names, or an exception that escapes. */
  datatype Stop = Broken(at: Breakage) | Escaped

  /** What is wrong with the next line, after a chain that ends in `previous`. A tag that is not
      ASCII cannot be compared. */
  function Fault(codec: Codec, line: Bytes, previous: Bytes, expected: nat): Option<Stop> {
    match Parse(codec, line)
    case NotParsed => Some(Broken(Breakage(expected, MalformedLine)))
    case Raising => Some(Escaped)
    case Parsed(s) =>
      if s.entry.sequence != expected then Some(Broken(Breakage(s.entry.sequence, SequenceOutOfOrder)))
      else if !IsAscii(s.tag) then Some(Escaped)
      else if codec.mac(s.link) != s.tag then Some(Broken(Breakage(expected, MacMismatch)))
      else if s.link != LinkAfter(codec, previous, s.entry) then Some(Broken(Breakage(expected, LinkMismatch)))
      else None
  }

  function LastLink(held: seq<Sealed>): Bytes {
    if held == [] then GENESIS else held[|held| - 1].link
  }

  /** Reading on from the entries already held: every entry up to the first stop, and the stop. */
  function Walk(codec: Codec, lines: seq<Bytes>, held: seq<Sealed>): (seq<Sealed>, Option<Stop>)
    decreases |lines|
  {
    if lines == [] then (held, None)
    else
      var fault := Fault(codec, lines[0], LastLink(held), |held|);
      if fault.Some? then (held, fault)
      else Walk(codec, lines[1..], held + [Parse(codec, lines[0]).line])
  }

  function HeadFault(held: seq<Sealed>, head: Option<Head>): Option<Breakage> {
    if head.Some? && (head.value.sequence != |held| - 1 || head.value.link != LastLink(held)) then
      Some(Breakage(head.value.sequence, HeadAheadOfChain))
    else None
  }

  /** The entries held and the report, or nothing but the exception that escaped. */
  datatype Reading = Read(held: seq<Sealed>, report: Report) | Raised

  function VerifiedOf(codec: Codec, lines: seq<Bytes>, head: Option<Head>): Reading {
    var (held, stop) := Walk(codec, lines, []);
    match stop
    case None => Read(held, Report(|lines|, HeadFault(held, head)))
    case Some(Broken(at)) => Read(held, Report(|held|, Some(at)))
    case Some(Escaped) => Raised
  }

  method Verified(codec: Codec, lines: seq<Bytes>, head: Option<Head>) returns (reading: Reading)
    ensures reading == VerifiedOf(codec, lines, head)
  {
    var held := [];
    var previous, expected := GENESIS, 0;
    assert lines[0..] == lines;
    for position := 0 to |lines|
      invariant expected == |held| == position && previous == LastLink(held)
      invariant Walk(codec, lines[position..], held) == Walk(codec, lines, [])
    {
      assert lines[position..][1..] == lines[position + 1..];
      var stop := Fault(codec, lines[position], previous, expected);
      match stop {
        case Some(Broken(at)) => return Read(held, Report(position, Some(at)));
        case Some(Escaped) => return Raised;
        case None =>
      }
      var s := Parse(codec, lines[position]).line;
      held := held + [s];
      previous := s.link;
      expected := expected + 1;
    }
    return Read(held, Report(|lines|, HeadFault(held, head)));
  }

  // ----- the store and its writer -----

  /** The chain file's bytes and the head record. */
  datatype Disk = Disk(chain: Bytes, head: Option<Head>)

  const BLANK := Disk([], None)

  function HeadOf(disk: Disk): Head {
    if disk.head.Some? then disk.head.value else EMPTY
  }

  function NonEmpty(pieces: seq<Bytes>): seq<Bytes> {
    if pieces == [] then []
    else (if pieces[0] == [] then [] else [pieces[0]]) + NonEmpty(pieces[1..])
  }

  function Taken(file: Bytes, limit: nat): Bytes {
    if |file| > limit then file[..limit] else file
  }

  function PiecesOf(body: Bytes): seq<Bytes> {
    NonEmpty(Lines(body).lines + [Lines(body).rest])
  }

  /** The chain as it is read back: at most the limit, split at newlines, empty pieces dropped. */
  function ChainLines(disk: Disk, limit: nat): seq<Bytes> {
    PiecesOf(Taken(disk.chain, limit))
  }

  function SealAfter(codec: Codec, head: Head, event: Event, stamp: string): Sealed {
    var entry := Entry(head.sequence + 1, stamp, event);
    var link := LinkAfter(codec, head.link, entry);
    Sealed(entry, link, codec.mac(link))
  }

  /** The disk after the first of the two writes of an append, and after both. */
  function ChainWritten(codec: Codec, disk: Disk, s: Sealed): Disk {
    Disk(disk.chain + Line(codec, s) + [NEWLINE], disk.head)
  }

  function BothWritten(codec: Codec, disk: Disk, s: Sealed): Disk {
    Disk(disk.chain + Line(codec, s) + [NEWLINE], Some(Head(s.entry.sequence, s.link)))
  }

  class Store {
    var chain: Bytes
    var headRecord: Option<Head>

    function OnDisk(): Disk
      reads this
    {
      Disk(chain, headRecord)
    }

    constructor ()
      ensures OnDisk() == BLANK
    {
      chain, headRecord := [], None;
    }
  }

  class Writer {
    const codec: Codec
    const store: Store
    var head: Head

    constructor (codec: Codec, store: Store)
      ensures this.codec == codec && this.store == store && head == HeadOf(store.OnDisk())
    {
      this.codec := codec;
      this.store := store;
      head := HeadOf(store.OnDisk());
    }

    /** Refused for a simulated run before anything is written; otherwise the line is appended
        to the chain and then the head record is replaced. */
    method Append(event: Event, stamp: string) returns (s: Option<Sealed>)
      modifies this, store
      ensures s.Some? <==> event.environment.Attestable()
      ensures s.None? ==> head == old(head) && store.OnDisk() == old(store.OnDisk())
      ensures s.Some? ==>
                && s.value == SealAfter(codec, old(head), event, stamp)
                && head == Head(s.value.entry.sequence, s.value.link)
                && store.OnDisk() == BothWritten(codec, old(store.OnDisk()), s.value)
    {
      if !event.environment.Attestable() {
        return None;
      }
      var entry := Entry(head.sequence + 1, stamp, event);
      var link := LinkAfter(codec, head.link, entry);
      var made := Sealed(entry, link, codec.mac(link));
      store.chain := store.chain + Line(codec, made) + [NEWLINE];
      head := Head(entry.sequence, link);
      store.headRecord := Some(head);
      return Some(made);
    }
  }
}

/** An ISO 9660 image of a few small files (src/apex/generating/seedimage.py), laid out sector by
    sector. Field positions are those of ECMA-119: 8.4 for the primary volume descriptor, 9.1 for
    the directory record, 9.4 for the path table record. */
module SeedImage {
  import opened Bytes
  import opened Ordering

  const SECTOR: nat := 2048
  const SYSTEM_AREA: nat := 16
  const PATH_TABLE_L: nat := 18
  const PATH_TABLE_M: nat := 19
  const ROOT: nat := 20
  const FIRST_FILE: nat := 21
  const PATH_TABLE_SIZE: nat := 10
  const PRIMARY: byte := 1
  const SET_TERMINATOR: byte := 255
  const VERSION: byte := 1
  const DIRECTORY_FLAG: byte := 2
  const FILE_FLAG: byte := 0
  const SPACE: byte := 32
  const WORD: nat := 0x1_0000_0000
  /** "CD001", "LINUX" and ".;1". */
  const STANDARD: Bytes := [67, 68, 48, 48, 49]
  const SYSTEM: Bytes := [76, 73, 78, 85, 88]
  const SUFFIX: Bytes := [46, 59, 49]
  const RECORDED: Bytes := [126, 1, 1, 0, 0, 0, 0]

  type Files = map<Name, Bytes>

  datatype Result = Made(image: Bytes) | Malformed | PackingFails

  function Fill(n: nat, b: byte): (s: Bytes)
    ensures |s| == n && forall i | 0 <= i < n :: s[i] == b
  {
    seq(n, _ => b)
  }

  // ----- names -----

  predicate IsNameStart(c: char) {
    'a' <= c <= 'z' || '0' <= c <= '9'
  }

  predicate IsFileName(s: string) {
    1 <= |s| <= 30 && IsNameStart(s[0]) && forall i | 0 <= i < |s| :: IsNameStart(s[i]) || s[i] == '-'
  }

  predicate IsVolumeChar(c: char) {
    'A' <= c <= 'Z' || 'a' <= c <= 'z' || '0' <= c <= '9' || c == '_' || c == '-'
  }

  predicate IsVolume(s: string) {
    1 <= |s| <= 32 && forall i | 0 <= i < |s| :: IsVolumeChar(s[i])
  }

  function Ascii(c: char): byte {
    if c < 256 as char then c as int else 63
  }

  function Upper(c: char): char {
    if 'a' <= c <= 'z' then (c as int - 32) as char else c
  }

  function Title(s: string): (t: Bytes)
    ensures |t| == |s|
  {
    seq(|s|, i requires 0 <= i < |s| => Ascii(s[i]))
  }

  function Identifier(name: string): Bytes {
    seq(|name|, i requires 0 <= i < |name| => Ascii(Upper(name[i]))) + SUFFIX
  }

  // ----- numbers in both byte orders -----

  function Le32(v: nat): (s: Bytes)
    requires v < WORD
    ensures |s| == 4
  {
    [v % 256, v / 256 % 256, v / 256 / 256 % 256, v / 256 / 256 / 256]
  }

  function Be32(v: nat): (s: Bytes)
    requires v < WORD
    ensures |s| == 4
  {
    [v / 256 / 256 / 256, v / 256 / 256 % 256, v / 256 % 256, v % 256]
  }

  function Both32(v: nat): (s: Bytes)
    requires v < WORD
    ensures |s| == 8
  {
    Le32(v) + Be32(v)
  }

  function Both16(v: nat): (s: Bytes)
    requires v < 0x1_0000
    ensures |s| == 4
  {
    [v % 256, v / 256] + [v / 256, v % 256]
  }

  // ----- sectors -----

  function Padded(payload: Bytes): (s: Bytes)
    ensures |s| % SECTOR == 0 && |s| >= SECTOR
    ensures payload <= s
  {
    if payload == [] then Fill(SECTOR, 0)
    else payload + Fill((SECTOR - |payload| % SECTOR) % SECTOR, 0)
  }

  function Sectors(payload: Bytes): (n: nat)
    ensures n >= 1 && n * SECTOR == |Padded(payload)|
  {
    |Padded(payload)| / SECTOR
  }

  function Header(size: byte, extent: nat, length: nat, flags: byte, width: byte): (h: Bytes)
    requires extent < WORD && length < WORD
    ensures |h| == 33
  {
    [size, 0] + Both32(extent) + Both32(length) + RECORDED + [flags, 0, 0] + Both16(1) + [width]
  }

  /** A directory record, padded to an even length. */
  function Record(identifier: Bytes, extent: nat, length: nat, flags: byte): (r: Bytes)
    requires |identifier| <= 200 && extent < WORD && length < WORD
    ensures |r| == 33 + |identifier| + (1 - |identifier| % 2)
  {
    var size := 33 + |identifier|;
    if size % 2 == 0 then Header(size, extent, length, flags, |identifier|) + identifier
    else Header(size + 1, extent, length, flags, |identifier|) + identifier + [0]
  }

  function RootRecord(): (r: Bytes)
    ensures |r| == 34
  {
    Record([0], ROOT, SECTOR, DIRECTORY_FLAG)
  }

  function PathTable(littleEndian: bool): (t: Bytes)
    ensures |t| == 10
  {
    [1, 0] + (if littleEndian then Le32(ROOT) + [1, 0] else Be32(ROOT) + [0, 1]) + [0, 0]
  }

  function Ljust(s: Bytes, width: nat): (t: Bytes)
    requires |s| <= width
    ensures |t| == width
  {
    s + Fill(width - |s|, SPACE)
  }

  /** The descriptor in order: identification, sizes and tables, the root record, and the text
      and date fields nobody fills. */
  function Identification(volume: string): (s: Bytes)
    requires |volume| <= 32
    ensures |s| == 80
  {
    [PRIMARY] + STANDARD + [VERSION] + Fill(1, 0) + Ljust(SYSTEM, 32) + Ljust(Title(volume), 32) + Fill(8, 0)
  }

  function VolumeSet(): (s: Bytes)
    ensures |s| == 40
  {
    Fill(32, 0) + Both16(1) + Both16(1)
  }

  function Tables(): (s: Bytes)
    ensures |s| == 28
  {
    Both16(SECTOR) + Both32(PATH_TABLE_SIZE) + Le32(PATH_TABLE_L) + Fill(4, 0) + Be32(PATH_TABLE_M) + Fill(4, 0)
  }

  function Geometry(total: nat): (s: Bytes)
    requires total < WORD
    ensures |s| == 76
  {
    Both32(total) + VolumeSet() + Tables()
  }

  function UnspecifiedDate(): (s: Bytes)
    ensures |s| == 17
  {
    Fill(16, 48) + [0]
  }

  function Unfilled(): (s: Bytes)
    ensures |s| == 1858
  {
    Fill(623, SPACE) + UnspecifiedDate() + UnspecifiedDate() + UnspecifiedDate() + UnspecifiedDate()
      + [1] + Fill(1166, 0)
  }

  function Descriptor(volume: string, total: nat): (s: Bytes)
    requires |volume| <= 32 && total < WORD
    ensures |s| == SECTOR
  {
    Identification(volume) + Geometry(total) + RootRecord() + Unfilled()
  }

  // ----- the image -----

  /** A directory record's contents. */
  datatype Entry = Entry(extent: nat, length: nat, flags: byte, identifier: Bytes) {
    predicate Valid() {
      extent < WORD && length < WORD && 1 <= |identifier| <= 200
    }
  }

  function RecordOf(e: Entry): Bytes
    requires e.Valid()
  {
    Record(e.identifier, e.extent, e.length, e.flags)
  }

  predicate AllValid(entries: seq<Entry>) {
    forall i | 0 <= i < |entries| :: entries[i].Valid()
  }

  function Records(entries: seq<Entry>): Bytes
    requires AllValid(entries)
  {
    if entries == [] then [] else RecordOf(entries[0]) + Records(entries[1..])
  }

  /** The first extent after the bodies, each of which takes whole sectors of its own. */
  function ExtentAfter(bodies: seq<Bytes>): (extent: nat)
    ensures extent >= FIRST_FILE
  {
    if bodies == [] then FIRST_FILE
    else ExtentAfter(bodies[..|bodies| - 1]) + Sectors(bodies[|bodies| - 1])
  }

  function BodiesOf(names: seq<Name>, files: Files): (bodies: seq<Bytes>)
    requires forall n | n in names :: n in files
    ensures |bodies| == |names|
  {
    seq(|names|, i requires 0 <= i < |names| => files[names[i]])
  }

  /** The files' names in order, and their bodies in the order of the names. */
  function NamesOf(files: Files): (names: seq<Name>)
    ensures forall n :: n in names <==> n in files
  {
    SortedHolds(files.Keys);
    Sorted(files.Keys)
  }

  function BodiesIn(files: Files): (bodies: seq<Bytes>)
    ensures |bodies| == |NamesOf(files)|
  {
    BodiesOf(NamesOf(files), files)
  }

  const ROOT_ENTRIES: seq<Entry> :=
    [Entry(ROOT, SECTOR, DIRECTORY_FLAG, [0]), Entry(ROOT, SECTOR, DIRECTORY_FLAG, [1])]

  function FileEntry(name: Name, bodies: seq<Bytes>, i: nat): Entry
    requires i < |bodies|
  {
    Entry(ExtentAfter(bodies[..i]), |bodies[i]|, FILE_FLAG, Identifier(name.text))
  }

  function FileEntries(names: seq<Name>, bodies: seq<Bytes>): (entries: seq<Entry>)
    requires |names| == |bodies|
    ensures |entries| == |names|
  {
    seq(|names|, i requires 0 <= i < |names| => FileEntry(names[i], bodies, i))
  }

  function PaddedAll(bodies: seq<Bytes>): (padded: seq<Bytes>)
    ensures |padded| == |bodies|
  {
    if bodies == [] then []
    else PaddedAll(bodies[..|bodies| - 1]) + [Padded(bodies[|bodies| - 1])]
  }

  predicate ValidNames(names: seq<Name>) {
    forall i | 0 <= i < |names| :: IsFileName(names[i].text)
  }

  /** The extent and the length of one record fit its 32 bits. */
  predicate PacksAt(bodies: seq<Bytes>, i: nat)
    requires i < |bodies|
  {
    ExtentAfter(bodies[..i]) < WORD && |bodies[i]| < WORD
  }

  predicate RecordsPack(bodies: seq<Bytes>) {
    forall i | 0 <= i < |bodies| :: PacksAt(bodies, i)
  }

  lemma DirectoryEntriesAreValid(names: seq<Name>, bodies: seq<Bytes>)
    requires |names| == |bodies| && ValidNames(names) && RecordsPack(bodies)
    ensures AllValid(ROOT_ENTRIES + FileEntries(names, bodies))
  {
    forall i | 0 <= i < |names|
      ensures FileEntries(names, bodies)[i].Valid()
    {
      assert PacksAt(bodies, i);
      assert |Identifier(names[i].text)| == |names[i].text| + 3;
    }
  }

  function DirectoryOf(names: seq<Name>, bodies: seq<Bytes>): Bytes
    requires |names| == |bodies| && ValidNames(names) && RecordsPack(bodies)
  {
    DirectoryEntriesAreValid(names, bodies);
    Records(ROOT_ENTRIES + FileEntries(names, bodies))
  }

  /** The parts before the files. */
  function Front(volume: string, total: nat, directory: Bytes): (front: seq<Bytes>)
    requires |volume| <= 32 && total < WORD
    ensures |front| == 6
  {
    [Fill(SECTOR * SYSTEM_AREA, 0),
     Descriptor(volume, total),
     Padded([SET_TERMINATOR] + STANDARD + [VERSION]),
     Padded(PathTable(true)),
     Padded(PathTable(false)),
     Padded(directory)]
  }

  function Parts(volume: string, directory: Bytes, bodies: seq<Bytes>): seq<Bytes>
    requires |volume| <= 32 && ExtentAfter(bodies) < WORD
  {
    Front(volume, ExtentAfter(bodies), directory) + PaddedAll(bodies)
  }

  /** What `image` answers: the refusals in the order they are met, and otherwise the parts. */
  function ImageOf(volume: string, files: Files): Result {
    var names, bodies := NamesOf(files), BodiesIn(files);
    if !IsVolume(volume) || !ValidNames(names) then Malformed
    else if !RecordsPack(bodies) then PackingFails
    else
      var directory := DirectoryOf(names, bodies);
      if |directory| > SECTOR then Malformed
      else if ExtentAfter(bodies) >= WORD then PackingFails
      else Made(Concat(Parts(volume, directory, bodies)))
  }

  // ----- reading an image -----

  datatype Volume = Volume(title: Bytes, files: seq<(string, Bytes)>)

  function FromLe32(s: Bytes): nat
    requires |s| == 4
  {
    s[0] as int + 256 * (s[1] as int + 256 * (s[2] as int + 256 * s[3] as int))
  }

  function FromBe32(s: Bytes): nat
    requires |s| == 4
  {
    s[3] as int + 256 * (s[2] as int + 256 * (s[1] as int + 256 * s[0] as int))
  }

  /** A number recorded in both byte orders, which must agree. */
  function FromBoth32(s: Bytes): Option<nat>
    requires |s| == 8
  {
    if FromLe32(s[..4]) == FromBe32(s[4..]) then Some(FromLe32(s[..4])) else None
  }

  /** One record at the front of the directory bytes, and how long it is. */
  function ReadRecord(d: Bytes): Option<(Entry, nat)> {
    if |d| < 34 || d[0] < 34 || |d| < d[0] || d[32] == 0 || d[0] as int < 33 + d[32] as int then None
    else
      var extent, length := FromBoth32(d[2..10]), FromBoth32(d[10..18]);
      if extent.None? || length.None? then None
      else Some((Entry(extent.value, length.value, d[25], d[33..33 + d[32] as int]), d[0]))
  }

  /** The records up to the first zero length or the end of the directory. */
  function ReadRecords(d: Bytes): Option<seq<Entry>>
    decreases |d|
  {
    if d == [] || d[0] == 0 then Some([])
    else
      match ReadRecord(d)
      case None => None
      case Some((entry, size)) =>
        if size == 0 then None
        else
          match ReadRecords(d[size..])
          case None => None
          case Some(rest) => Some([entry] + rest)
  }

  function Lower(b: byte): char {
    if 65 <= b <= 90 then (b + 32) as char else b as char
  }

  /** The name the kernel shows for an identifier. */
  function NameOf(identifier: Bytes): Option<string> {
    var n := |identifier| - 3;
    if n < 0 || identifier[n..] != SUFFIX then None
    else Some(seq(n, i requires 0 <= i < n => Lower(identifier[i])))
  }

  function Extract(image: Bytes, e: Entry): Option<Bytes> {
    if e.extent * SECTOR + e.length > |image| then None
    else Some(image[e.extent * SECTOR..e.extent * SECTOR + e.length])
  }

  function ReadFile(image: Bytes, e: Entry): Option<(string, Bytes)> {
    var name, body := NameOf(e.identifier), Extract(image, e);
    if name.None? || body.None? || e.flags != FILE_FLAG then None else Some((name.value, body.value))
  }

  function ReadFiles(image: Bytes, entries: seq<Entry>): Option<seq<(string, Bytes)>> {
    if entries == [] then Some([])
    else
      var first, rest := ReadFile(image, entries[0]), ReadFiles(image, entries[1..]);
      if first.None? || rest.None? then None else Some([first.value] + rest.value)
  }

  function RstripSpaces(s: Bytes): Bytes {
    if s != [] && s[|s| - 1] == SPACE then RstripSpaces(s[..|s| - 1]) else s
  }

  /** A reader that follows the descriptor: it checks the signatures, the sizes and both path
      tables, and then walks the root directory. */
  function ReadVolume(image: Bytes): Option<Volume> {
    if |image| < SECTOR * FIRST_FILE then None
    else
      var d := image[SECTOR * 16..SECTOR * 17];
      match ReadDescriptor(image, d, image[SECTOR * 17..SECTOR * 18])
      case None => None
      case Some(root) =>
        match ReadDirectory(image, root)
        case None => None
        case Some(files) => Some(Volume(RstripSpaces(d[40..72]), files))
  }

  /** The root directory's record, from a descriptor and a terminator that hold together. */
  function ReadDescriptor(image: Bytes, d: Bytes, terminator: Bytes): Option<Entry>
    requires |d| == |terminator| == SECTOR
  {
    var root := ReadRecord(d[156..190]);
    if d[0] != PRIMARY || d[1..6] != STANDARD || d[6] != VERSION
       || terminator[0] != SET_TERMINATOR || terminator[1..6] != STANDARD
       || FromBoth32(d[80..88]) != Some(|image| / SECTOR) || |image| % SECTOR != 0
       || d[128..132] != Both16(SECTOR)
       || root.None? || !ReadPathTables(image, d, root.value.0.extent) then None
    else Some(root.value.0)
  }

  /** The files of a directory whose first two records are itself and its parent. */
  function ReadDirectory(image: Bytes, root: Entry): Option<seq<(string, Bytes)>> {
    match Extract(image, root)
    case None => None
    case Some(directory) =>
      match ReadRecords(directory)
      case None => None
      case Some(entries) =>
        if |entries| < 2 || entries[0] != root then None else ReadFiles(image, entries[2..])
  }

  /** Both path tables lie where the descriptor says and name the root directory's extent. */
  predicate ReadPathTables(image: Bytes, d: Bytes, root: nat)
    requires |d| == SECTOR
  {
    var l, m := FromLe32(d[140..144]) * SECTOR, FromBe32(d[148..152]) * SECTOR;
    && FromBoth32(d[132..140]) == Some(PATH_TABLE_SIZE)
    && l + PATH_TABLE_SIZE <= |image| && m + PATH_TABLE_SIZE <= |image|
    && FromLe32(image[l + 2..l + 6]) == root
    && FromBe32(image[m + 2..m + 6]) == root
  }
}

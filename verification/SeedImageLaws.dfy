/** The reader inverts the writer: every image made reads back as its volume and files. */
module SeedImageLaws {
  import opened Bytes
  import opened Ordering
  import opened SeedImage

  // ----- numbers -----

  lemma Digits(v: nat)
    requires v < WORD
    ensures v == v % 256 + 256 * (v / 256 % 256 + 256 * (v / 256 / 256 % 256 + 256 * (v / 256 / 256 / 256)))
  {
    var a := v / 256;
    var b := a / 256;
    assert v == v % 256 + 256 * a;
    assert a == a % 256 + 256 * b;
    assert b == b % 256 + 256 * (b / 256);
  }

  lemma Le32ReadsBack(v: nat)
    requires v < WORD
    ensures FromLe32(Le32(v)) == v && FromBe32(Be32(v)) == v
  {
    Digits(v);
  }

  lemma Both32ReadsBack(v: nat)
    requires v < WORD
    ensures FromBoth32(Both32(v)) == Some(v)
  {
    Le32ReadsBack(v);
    assert Both32(v)[..4] == Le32(v) && Both32(v)[4..] == Be32(v);
  }

  // ----- directory records -----

  lemma HeaderFields(size: byte, extent: nat, length: nat, flags: byte, width: byte)
    requires extent < WORD && length < WORD
    ensures var h := Header(size, extent, length, flags, width);
            && h[0] == size && h[25] == flags && h[32] == width
            && h[2..10] == Both32(extent) && h[10..18] == Both32(length)
  {
    var h := Header(size, extent, length, flags, width);
    var a, b := Both32(extent), Both32(length);
    assert h == [size, 0] + a + b + (RECORDED + [flags, 0, 0] + Both16(1) + [width]);
    assert h[2..10] == a;
    assert h[10..18] == b;
  }

  lemma RecordReadsBack(e: Entry, rest: Bytes)
    requires e.Valid()
    ensures var r := RecordOf(e);
            && (r + rest)[0] != 0
            && ReadRecord(r + rest) == Some((e, |r|)) && (r + rest)[|r|..] == rest
  {
    var r := RecordOf(e);
    var d := r + rest;
    var size := if (33 + |e.identifier|) % 2 == 0 then 33 + |e.identifier| else 34 + |e.identifier|;
    var h := Header(size, e.extent, e.length, e.flags, |e.identifier|);
    HeaderFields(size, e.extent, e.length, e.flags, |e.identifier|);
    assert d[..33] == h;
    assert d[2..10] == h[2..10] && d[10..18] == h[10..18];
    assert d[33..33 + |e.identifier|] == e.identifier;
    assert d[0] == h[0] && d[25] == h[25] && d[32] == h[32];
    Both32ReadsBack(e.extent);
    Both32ReadsBack(e.length);
  }

  /** The record by its offsets: an even length, no extended attributes, extent and size in both byte
      orders, the recording date of 1 January 2026, the flags, no interleaving, volume one, and the
      identifier with its length, padded with a zero where it would end oddly. */
  lemma RecordLayout(e: Entry)
    requires e.Valid()
    ensures var r, n := RecordOf(e), |e.identifier|;
            && |r| % 2 == 0 && 33 + n <= |r| <= 34 + n
            && r[0] as int == |r| && r[1] == 0
            && r[2..10] == Both32(e.extent) && r[10..18] == Both32(e.length)
            && r[18..25] == [126, 1, 1, 0, 0, 0, 0]
            && r[25] == e.flags && r[26] == 0 && r[27] == 0
            && r[28..32] == [1, 0, 0, 1]
            && r[32] as int == n && r[33..33 + n] == e.identifier
            && (|r| == 34 + n ==> r[33 + n] == 0)
  {
    var n := |e.identifier|;
    var size := if (33 + n) % 2 == 0 then 33 + n else 34 + n;
    var h := Header(size, e.extent, e.length, e.flags, n);
    var r := RecordOf(e);
    HeaderFields(size, e.extent, e.length, e.flags, n);
    HeaderRest(size, e.extent, e.length, e.flags, n);
    assert h == r[..33];
    assert r[2..10] == h[2..10] && r[10..18] == h[10..18];
    assert r[18..25] == h[18..25] && r[28..32] == h[28..32];
  }

  lemma HeaderRest(size: byte, extent: nat, length: nat, flags: byte, width: byte)
    requires extent < WORD && length < WORD
    ensures var h := Header(size, extent, length, flags, width);
            && h[1] == 0 && h[18..25] == [126, 1, 1, 0, 0, 0, 0]
            && h[26] == 0 && h[27] == 0 && h[28..32] == [1, 0, 0, 1]
  {
    var h := Header(size, extent, length, flags, width);
    var front := [size, 0] + Both32(extent) + Both32(length);
    assert h == front + RECORDED + [flags, 0, 0] + Both16(1) + [width];
    assert |front| == 18;
  }

  /** A file's identifier: its name in capitals, and the version suffix ".;1". */
  lemma IdentifierIs(name: string)
    requires IsFileName(name)
    ensures var id, n := Identifier(name), |name|;
            && |id| == n + 3 && id[n..] == [46, 59, 49]
            && forall i | 0 <= i < n ::
                 id[i] as int == if 'a' <= name[i] <= 'z' then name[i] as int - 32 else name[i] as int
  {
    assert forall i | 0 <= i < |name| :: name[i] < 128 as char;
  }

  lemma ReadStep(d: Bytes, e: Entry, size: nat, more: seq<Entry>)
    requires d != [] && d[0] != 0 && ReadRecord(d) == Some((e, size)) && 0 < size <= |d|
    requires ReadRecords(d[size..]) == Some(more)
    ensures ReadRecords(d) == Some([e] + more)
  {
  }

  /** A directory and zeros after it read back as its entries. */
  lemma {:induction false} RecordsReadBack(entries: seq<Entry>, zeros: Bytes)
    requires AllValid(entries) && (zeros == [] || zeros[0] == 0)
    ensures ReadRecords(Records(entries) + zeros) == Some(entries)
    decreases |entries|
  {
    if entries == [] {
      assert Records(entries) + zeros == zeros;
    } else {
      var r, rest := RecordOf(entries[0]), Records(entries[1..]) + zeros;
      RecordReadsBack(entries[0], rest);
      RecordsReadBack(entries[1..], zeros);
      ReadStep(r + rest, entries[0], |r|, entries[1..]);
      AppendAssociates(r, Records(entries[1..]), zeros);
      HeadAndTail(entries);
    }
  }

  // ----- parts -----

  /** Where a part of a concatenation lies. */
  lemma {:induction false} PartAt(parts: seq<Bytes>, i: nat)
    requires i < |parts|
    ensures var at := |Concat(parts[..i])|;
            at + |parts[i]| <= |Concat(parts)| && Concat(parts)[at..at + |parts[i]|] == parts[i]
  {
    if i == 0 {
      assert parts[..0] == [];
    } else {
      PartAt(parts[1..], i - 1);
      assert parts[..i][1..] == parts[1..][..i - 1];
      var at := |Concat(parts[1..][..i - 1])|;
      SliceAfter(parts[0], Concat(parts[1..]), at, at + |parts[i]|);
    }
  }

  lemma SliceAfter(a: Bytes, b: Bytes, lo: nat, hi: nat)
    requires lo <= hi <= |b|
    ensures (a + b)[|a| + lo..|a| + hi] == b[lo..hi]
  {
  }

  /** The bodies, each on its own sectors, end where the next extent begins. */
  lemma {:induction false} BodiesLength(bodies: seq<Bytes>)
    ensures |Concat(PaddedAll(bodies))| == SECTOR * (ExtentAfter(bodies) - FIRST_FILE)
  {
    if bodies != [] {
      var init, last := bodies[..|bodies| - 1], bodies[|bodies| - 1];
      BodiesLength(init);
      ConcatAppend(PaddedAll(init), [Padded(last)]);
      assert Concat([Padded(last)]) == Padded(last);
    }
  }

  lemma FrontSizes(volume: string, total: nat, directory: Bytes, i: nat)
    requires |volume| <= 32 && total < WORD && 0 < |directory| <= SECTOR && i < 6
    ensures |Front(volume, total, directory)[i]| == if i == 0 then SECTOR * SYSTEM_AREA else SECTOR
  {
  }

  lemma {:induction false} FrontOffset(volume: string, total: nat, directory: Bytes, i: nat)
    requires |volume| <= 32 && total < WORD && 0 < |directory| <= SECTOR && i <= 6
    ensures |Concat(Front(volume, total, directory)[..i])| == if i == 0 then 0 else SECTOR * (15 + i)
  {
    var front := Front(volume, total, directory);
    if i == 0 {
      assert front[..0] == [];
    } else {
      FrontOffset(volume, total, directory, i - 1);
      FrontSizes(volume, total, directory, i - 1);
      assert front[..i] == front[..i - 1] + [front[i - 1]];
      ConcatAppend(front[..i - 1], [front[i - 1]]);
      assert Concat([front[i - 1]]) == front[i - 1];
    }
  }

  /** The six parts before the files fill exactly the sectors before the first file. */
  lemma FrontLength(volume: string, total: nat, directory: Bytes)
    requires |volume| <= 32 && total < WORD && 0 < |directory| <= SECTOR
    ensures |Concat(Front(volume, total, directory))| == SECTOR * FIRST_FILE
  {
    FrontOffset(volume, total, directory, 6);
    assert Front(volume, total, directory)[..6] == Front(volume, total, directory);
  }

  lemma FrontPart(volume: string, directory: Bytes, bodies: seq<Bytes>, i: nat)
    requires |volume| <= 32 && ExtentAfter(bodies) < WORD && 0 < |directory| <= SECTOR && 1 <= i < 6
    ensures var image := Concat(Parts(volume, directory, bodies));
            && SECTOR * (16 + i) <= |image|
            && image[SECTOR * (15 + i)..SECTOR * (16 + i)] == Front(volume, ExtentAfter(bodies), directory)[i]
  {
    var front := Front(volume, ExtentAfter(bodies), directory);
    var parts := Parts(volume, directory, bodies);
    assert parts[..i] == front[..i] && parts[i] == front[i];
    FrontOffset(volume, ExtentAfter(bodies), directory, i);
    FrontSizes(volume, ExtentAfter(bodies), directory, i);
    PartAt(parts, i);
  }

  lemma ImageLength(volume: string, directory: Bytes, bodies: seq<Bytes>)
    requires |volume| <= 32 && ExtentAfter(bodies) < WORD && 0 < |directory| <= SECTOR
    ensures |Concat(Parts(volume, directory, bodies))| == SECTOR * ExtentAfter(bodies)
  {
    ConcatAppend(Front(volume, ExtentAfter(bodies), directory), PaddedAll(bodies));
    FrontLength(volume, ExtentAfter(bodies), directory);
    BodiesLength(bodies);
  }

  lemma {:induction false} PaddedPrefix(bodies: seq<Bytes>, i: nat)
    requires i < |bodies|
    ensures PaddedAll(bodies)[..i] == PaddedAll(bodies[..i]) && PaddedAll(bodies)[i] == Padded(bodies[i])
  {
    var init := bodies[..|bodies| - 1];
    if i < |init| {
      PaddedPrefix(init, i);
      assert init[..i] == bodies[..i];
    }
  }

  lemma BodyPart(volume: string, directory: Bytes, bodies: seq<Bytes>, i: nat)
    requires |volume| <= 32 && ExtentAfter(bodies) < WORD && 0 < |directory| <= SECTOR && i < |bodies|
    ensures HoldsAt(Concat(Parts(volume, directory, bodies)), bodies, i)
  {
    FrontLength(volume, ExtentAfter(bodies), directory);
    BodyAfter(Front(volume, ExtentAfter(bodies), directory), bodies, i);
  }

  lemma {:induction false} BodyAfter(front: seq<Bytes>, bodies: seq<Bytes>, i: nat)
    requires |Concat(front)| == SECTOR * FIRST_FILE && i < |bodies|
    ensures LiesAt(Concat(front + PaddedAll(bodies)), SECTOR * ExtentAfter(bodies[..i]), bodies[i])
  {
    var image := Concat(front + PaddedAll(bodies));
    PaddedAfter(front, bodies, i);
    FirstOf(image, SECTOR * ExtentAfter(bodies[..i]), bodies[i], Padded(bodies[i]));
  }

  lemma {:induction false} PaddedAfter(front: seq<Bytes>, bodies: seq<Bytes>, i: nat)
    requires |Concat(front)| == SECTOR * FIRST_FILE && i < |bodies|
    ensures LiesAt(Concat(front + PaddedAll(bodies)), SECTOR * ExtentAfter(bodies[..i]), Padded(bodies[i]))
  {
    PaddedPrefix(bodies, i);
    BodiesLength(bodies[..i]);
    BackPartAt(front, PaddedAll(bodies), i);
  }

  lemma PastFront(front: seq<Bytes>, back: seq<Bytes>, i: nat)
    requires i < |back|
    ensures (front + back)[..|front| + i] == front + back[..i] && (front + back)[|front| + i] == back[i]
  {
  }

  lemma BackPartAt(front: seq<Bytes>, back: seq<Bytes>, i: nat)
    requires i < |back|
    ensures LiesAt(Concat(front + back), |Concat(front)| + |Concat(back[..i])|, back[i])
  {
    PastFront(front, back, i);
    ConcatAppend(front, back[..i]);
    PartAt(front + back, |front| + i);
  }

  lemma FirstOf(image: Bytes, at: nat, body: Bytes, padded: Bytes)
    requires LiesAt(image, at, padded) && body <= padded
    ensures LiesAt(image, at, body)
  {
    assert image[at..at + |body|] == image[at..at + |padded|][..|body|];
  }

  // ----- the descriptor -----

  lemma IdentificationFields(volume: string)
    requires |volume| <= 32
    ensures var s := Identification(volume);
            && s[0] == PRIMARY && s[1..6] == STANDARD && s[6] == VERSION
            && s[40..72] == Ljust(Title(volume), 32)
  {
    var s := Identification(volume);
    var front, title := [PRIMARY] + STANDARD + [VERSION] + Fill(1, 0) + Ljust(SYSTEM, 32), Ljust(Title(volume), 32);
    assert s == front + title + Fill(8, 0);
    assert s[40..72] == title;
    assert s[1..6] == STANDARD;
  }

  lemma GeometryFields(total: nat)
    requires total < WORD
    ensures var s := Geometry(total);
            && s[0..8] == Both32(total)
            && s[48..52] == Both16(SECTOR)
            && s[52..60] == Both32(PATH_TABLE_SIZE)
            && s[60..64] == Le32(PATH_TABLE_L) && s[68..72] == Be32(PATH_TABLE_M)
  {
    TablesFields();
    ThreeParts(Both32(total), VolumeSet(), Tables());
  }

  lemma ThreeParts(a: Bytes, b: Bytes, c: Bytes)
    requires |a| == 8 && |b| == 40 && |c| == 28
    ensures var s := a + b + c;
            && s[0..8] == a && s[48..52] == c[0..4] && s[52..60] == c[4..12]
            && s[60..64] == c[12..16] && s[68..72] == c[20..24]
  {
  }

  lemma TablesFields()
    ensures var c := Tables();
            && c[0..4] == Both16(SECTOR) && c[4..12] == Both32(PATH_TABLE_SIZE)
            && c[12..16] == Le32(PATH_TABLE_L) && c[20..24] == Be32(PATH_TABLE_M)
  {
  }

  lemma SliceWithin(a: Bytes, b: Bytes, c: Bytes, lo: nat, hi: nat)
    requires lo <= hi <= |b|
    ensures (a + b + c)[|a| + lo..|a| + hi] == b[lo..hi]
  {
  }

  /** What a reader looks at in a descriptor. */
  ghost predicate IsDescriptor(d: Bytes, volume: string, total: nat)
    requires |volume| <= 32 && total < WORD
  {
    && |d| == SECTOR
    && d[0] == PRIMARY && d[1..6] == STANDARD && d[6] == VERSION
    && d[40..72] == Ljust(Title(volume), 32)
    && d[80..88] == Both32(total)
    && d[128..132] == Both16(SECTOR)
    && d[132..140] == Both32(PATH_TABLE_SIZE)
    && d[140..144] == Le32(PATH_TABLE_L) && d[148..152] == Be32(PATH_TABLE_M)
    && d[156..190] == RootRecord()
  }

  lemma DescriptorFields(volume: string, total: nat)
    requires |volume| <= 32 && total < WORD
    ensures IsDescriptor(Descriptor(volume, total), volume, total)
  {
    var a, b, r, t := Identification(volume), Geometry(total), RootRecord(), Unfilled();
    IdentificationFields(volume);
    GeometryFields(total);
    FourParts(a, b, r, t);
  }

  lemma FourParts(a: Bytes, b: Bytes, r: Bytes, t: Bytes)
    requires |a| == 80 && |b| == 76 && |r| == 34
    ensures var d := a + b + r + t;
            && d[0] == a[0] && d[6] == a[6] && d[1..6] == a[1..6] && d[40..72] == a[40..72]
            && d[80..88] == b[0..8] && d[128..132] == b[48..52] && d[132..140] == b[52..60]
            && d[140..144] == b[60..64] && d[148..152] == b[68..72] && d[156..190] == r
  {
    AppendAssociates(a + b, r, t);
    AppendAssociates(a, b, r + t);
    SliceWithin([], a, b + (r + t), 1, 6);
    SliceWithin([], a, b + (r + t), 40, 72);
    assert [] + a == a;
    SliceWithin(a, b, r + t, 0, 8);
    SliceWithin(a, b, r + t, 48, 52);
    SliceWithin(a, b, r + t, 52, 60);
    SliceWithin(a, b, r + t, 60, 64);
    SliceWithin(a, b, r + t, 68, 72);
    SliceWithin(a + b, r, t, 0, 34);
    assert r[0..34] == r;
  }

  // ----- names -----

  lemma NameReadsBack(name: string)
    requires IsFileName(name)
    ensures NameOf(Identifier(name)) == Some(name)
  {
    var id := Identifier(name);
    var n := |name|;
    assert id[n..] == SUFFIX;
    forall i | 0 <= i < n
      ensures Lower(id[i]) == name[i]
    {
      assert id[i] == Ascii(Upper(name[i]));
    }
    assert seq(n, i requires 0 <= i < n => Lower(id[i])) == name;
  }

  lemma {:induction false} SpacesStrip(s: Bytes, n: nat)
    requires s != [] && s[|s| - 1] != SPACE
    ensures RstripSpaces(s + Fill(n, SPACE)) == s
    decreases n
  {
    if n == 0 {
      assert s + Fill(n, SPACE) == s;
    } else {
      SpacesStrip(s, n - 1);
      assert (s + Fill(n, SPACE))[..|s| + n - 1] == s + Fill(n - 1, SPACE);
    }
  }

  lemma TitleReadsBack(volume: string)
    requires IsVolume(volume)
    ensures RstripSpaces(Ljust(Title(volume), 32)) == Title(volume)
  {
    assert Title(volume)[|volume| - 1] == Ascii(volume[|volume| - 1]);
    SpacesStrip(Title(volume), 32 - |volume|);
  }

  // ----- files -----

  function Pairs(names: seq<Name>, bodies: seq<Bytes>): (pairs: seq<(string, Bytes)>)
    requires |names| == |bodies|
  {
    if names == [] then [] else [(names[0].text, bodies[0])] + Pairs(names[1..], bodies[1..])
  }

  predicate LiesAt(image: Bytes, at: nat, part: Bytes) {
    at + |part| <= |image| && image[at..at + |part|] == part
  }

  ghost predicate HoldsAt(image: Bytes, bodies: seq<Bytes>, i: nat)
    requires i < |bodies|
  {
    LiesAt(image, SECTOR * ExtentAfter(bodies[..i]), bodies[i])
  }

  ghost predicate Holds(image: Bytes, bodies: seq<Bytes>) {
    forall i | 0 <= i < |bodies| :: HoldsAt(image, bodies, i)
  }

  lemma EntryReads(image: Bytes, e: Entry, name: string, body: Bytes)
    requires NameOf(e.identifier) == Some(name) && e.flags == FILE_FLAG && e.length == |body|
    requires LiesAt(image, SECTOR * e.extent, body)
    ensures ReadFile(image, e) == Some((name, body))
  {
  }

  lemma FileReadsBack(image: Bytes, name: Name, bodies: seq<Bytes>, k: nat)
    requires k < |bodies| && IsFileName(name.text)
    requires HoldsAt(image, bodies, k)
    ensures ReadFile(image, FileEntry(name, bodies, k)) == Some((name.text, bodies[k]))
  {
    NameReadsBack(name.text);
    EntryReads(image, FileEntry(name, bodies, k), name.text, bodies[k]);
  }

  lemma ReadFilesStep(image: Bytes, entries: seq<Entry>, pair: (string, Bytes), more: seq<(string, Bytes)>)
    requires entries != [] && ReadFile(image, entries[0]) == Some(pair)
    requires ReadFiles(image, entries[1..]) == Some(more)
    ensures ReadFiles(image, entries) == Some([pair] + more)
  {
  }

  lemma {:induction false} FilesReadBack(image: Bytes, names: seq<Name>, bodies: seq<Bytes>, k: nat)
    requires |names| == |bodies| && ValidNames(names) && Holds(image, bodies) && k <= |names|
    ensures ReadFiles(image, FileEntries(names, bodies)[k..]) == Some(Pairs(names[k..], bodies[k..]))
    decreases |names| - k
  {
    var entries := FileEntries(names, bodies);
    if k < |names| {
      FilesReadBack(image, names, bodies, k + 1);
      FileReadsBack(image, names[k], bodies, k);
      assert entries[k..][0] == entries[k] && entries[k..][1..] == entries[k + 1..];
      ReadFilesStep(image, entries[k..], (names[k].text, bodies[k]), Pairs(names[k + 1..], bodies[k + 1..]));
      PairsFrom(names, bodies, k);
    }
  }

  lemma PairsFrom(names: seq<Name>, bodies: seq<Bytes>, k: nat)
    requires |names| == |bodies| && k < |names|
    ensures Pairs(names[k..], bodies[k..]) == [(names[k].text, bodies[k])] + Pairs(names[k + 1..], bodies[k + 1..])
  {
    assert names[k..][1..] == names[k + 1..] && bodies[k..][1..] == bodies[k + 1..];
  }

  // ----- the whole image -----

  lemma DirectoryStarts(names: seq<Name>, bodies: seq<Bytes>)
    requires |names| == |bodies| && ValidNames(names) && RecordsPack(bodies)
    ensures |DirectoryOf(names, bodies)| > 0
  {
    var entries := ROOT_ENTRIES + FileEntries(names, bodies);
    DirectoryEntriesAreValid(names, bodies);
    assert |RecordOf(entries[0])| > 0;
  }

  lemma OneSector(directory: Bytes) returns (zeros: Bytes)
    requires 0 < |directory| <= SECTOR
    ensures Padded(directory) == directory + zeros && |Padded(directory)| == SECTOR
    ensures zeros == [] || zeros[0] == 0
  {
    zeros := Fill((SECTOR - |directory| % SECTOR) % SECTOR, 0);
  }

  lemma DirectoryReadsBack(names: seq<Name>, bodies: seq<Bytes>)
    requires |names| == |bodies| && ValidNames(names) && RecordsPack(bodies)
    requires |DirectoryOf(names, bodies)| <= SECTOR
    ensures |Padded(DirectoryOf(names, bodies))| == SECTOR
    ensures ReadRecords(Padded(DirectoryOf(names, bodies))) == Some(ROOT_ENTRIES + FileEntries(names, bodies))
  {
    DirectoryStarts(names, bodies);
    DirectoryEntriesAreValid(names, bodies);
    var zeros := OneSector(DirectoryOf(names, bodies));
    RecordsReadBack(ROOT_ENTRIES + FileEntries(names, bodies), zeros);
  }

  lemma TablesReadBack(image: Bytes, d: Bytes)
    requires |image| >= SECTOR * 20 && |d| == SECTOR
    requires d[132..140] == Both32(PATH_TABLE_SIZE)
    requires d[140..144] == Le32(PATH_TABLE_L) && d[148..152] == Be32(PATH_TABLE_M)
    requires image[SECTOR * 18..SECTOR * 19] == Padded(PathTable(true))
    requires image[SECTOR * 19..SECTOR * 20] == Padded(PathTable(false))
    ensures ReadPathTables(image, d, ROOT)
  {
    Both32ReadsBack(PATH_TABLE_SIZE);
    Le32ReadsBack(PATH_TABLE_L);
    Le32ReadsBack(PATH_TABLE_M);
    Le32ReadsBack(ROOT);
    assert image[SECTOR * 18 + 2..SECTOR * 18 + 6] == image[SECTOR * 18..SECTOR * 19][2..6] == Le32(ROOT);
    assert image[SECTOR * 19 + 2..SECTOR * 19 + 6] == image[SECTOR * 19..SECTOR * 20][2..6] == Be32(ROOT);
  }

  lemma RootReadsBack()
    ensures ReadRecord(RootRecord()) == Some((ROOT_ENTRIES[0], 34))
  {
    RecordReadsBack(ROOT_ENTRIES[0], []);
    assert RootRecord() + [] == RootRecord();
  }

  lemma DescriptorReadsBack(image: Bytes, d: Bytes, terminator: Bytes, volume: string, total: nat)
    requires |volume| <= 32 && FIRST_FILE <= total < WORD && |image| == SECTOR * total
    requires IsDescriptor(d, volume, total)
    requires |terminator| == SECTOR && terminator[0] == SET_TERMINATOR && terminator[1..6] == STANDARD
    requires ReadPathTables(image, d, ROOT)
    ensures ReadDescriptor(image, d, terminator) == Some(ROOT_ENTRIES[0])
  {
    Both32ReadsBack(total);
    RootReadsBack();
    SignedReads(image, d, terminator, ROOT_ENTRIES[0], total);
  }

  lemma SignedReads(image: Bytes, d: Bytes, terminator: Bytes, root: Entry, total: nat)
    requires |d| == |terminator| == SECTOR && |image| == SECTOR * total
    requires d[0] == PRIMARY && d[1..6] == STANDARD && d[6] == VERSION && d[128..132] == Both16(SECTOR)
    requires FromBoth32(d[80..88]) == Some(total) && ReadRecord(d[156..190]) == Some((root, 34))
    requires terminator[0] == SET_TERMINATOR && terminator[1..6] == STANDARD
    requires ReadPathTables(image, d, root.extent)
    ensures ReadDescriptor(image, d, terminator) == Some(root)
  {
  }

  lemma TerminatorFields()
    ensures var t := Padded([SET_TERMINATOR] + STANDARD + [VERSION]);
            |t| == SECTOR && t[0] == SET_TERMINATOR && t[1..6] == STANDARD
  {
    var t := Padded([SET_TERMINATOR] + STANDARD + [VERSION]);
    assert t[1..6] == STANDARD;
  }

  lemma RootReads(image: Bytes, names: seq<Name>, bodies: seq<Bytes>)
    requires |names| == |bodies| && ValidNames(names) && RecordsPack(bodies)
    requires |DirectoryOf(names, bodies)| <= SECTOR && |image| >= SECTOR * 21
    requires image[SECTOR * 20..SECTOR * 21] == Padded(DirectoryOf(names, bodies))
    requires Holds(image, bodies)
    ensures ReadDirectory(image, ROOT_ENTRIES[0]) == Some(Pairs(names, bodies))
  {
    DirectoryReadsBack(names, bodies);
    FilesReadBack(image, names, bodies, 0);
    var entries := ROOT_ENTRIES + FileEntries(names, bodies);
    assert entries[2..] == FileEntries(names, bodies)[0..];
    assert names[0..] == names && bodies[0..] == bodies;
    assert Extract(image, ROOT_ENTRIES[0]) == Some(Padded(DirectoryOf(names, bodies)));
  }

  lemma BodiesHold(volume: string, directory: Bytes, bodies: seq<Bytes>)
    requires |volume| <= 32 && ExtentAfter(bodies) < WORD && 0 < |directory| <= SECTOR
    ensures Holds(Concat(Parts(volume, directory, bodies)), bodies)
  {
    forall i | 0 <= i < |bodies|
      ensures HoldsAt(Concat(Parts(volume, directory, bodies)), bodies, i)
    {
      BodyPart(volume, directory, bodies, i);
    }
  }

  /** The sectors before the files, each where the descriptor says. */
  lemma FrontParts(volume: string, directory: Bytes, bodies: seq<Bytes>)
    requires |volume| <= 32 && ExtentAfter(bodies) < WORD && 0 < |directory| <= SECTOR
    ensures var image := Concat(Parts(volume, directory, bodies));
            && |image| >= SECTOR * FIRST_FILE
            && image[SECTOR * 16..SECTOR * 17] == Descriptor(volume, ExtentAfter(bodies))
            && image[SECTOR * 17..SECTOR * 18] == Padded([SET_TERMINATOR] + STANDARD + [VERSION])
            && image[SECTOR * 18..SECTOR * 19] == Padded(PathTable(true))
            && image[SECTOR * 19..SECTOR * 20] == Padded(PathTable(false))
            && image[SECTOR * 20..SECTOR * 21] == Padded(directory)
  {
    FrontPart(volume, directory, bodies, 1);
    FrontPart(volume, directory, bodies, 2);
    FrontPart(volume, directory, bodies, 3);
    FrontPart(volume, directory, bodies, 4);
    FrontPart(volume, directory, bodies, 5);
  }

  /** The reader recovers the volume name and exactly the files, in the order of their names. */
  lemma PartsReadBack(volume: string, names: seq<Name>, bodies: seq<Bytes>)
    requires IsVolume(volume) && |names| == |bodies| && ValidNames(names) && RecordsPack(bodies)
    requires |DirectoryOf(names, bodies)| <= SECTOR && ExtentAfter(bodies) < WORD
    ensures ReadVolume(Concat(Parts(volume, DirectoryOf(names, bodies), bodies)))
            == Some(Volume(Title(volume), Pairs(names, bodies)))
  {
    var directory := DirectoryOf(names, bodies);
    DirectoryStarts(names, bodies);
    ImageLength(volume, directory, bodies);
    BodiesHold(volume, directory, bodies);
    FrontParts(volume, directory, bodies);
    SectorsReadBack(Concat(Parts(volume, directory, bodies)), volume, names, bodies);
  }

  lemma SectorsReadBack(image: Bytes, volume: string, names: seq<Name>, bodies: seq<Bytes>)
    requires IsVolume(volume) && |names| == |bodies| && ValidNames(names) && RecordsPack(bodies)
    requires |DirectoryOf(names, bodies)| <= SECTOR && ExtentAfter(bodies) < WORD
    requires |image| == SECTOR * ExtentAfter(bodies) && Holds(image, bodies)
    requires image[SECTOR * 16..SECTOR * 17] == Descriptor(volume, ExtentAfter(bodies))
    requires image[SECTOR * 17..SECTOR * 18] == Padded([SET_TERMINATOR] + STANDARD + [VERSION])
    requires image[SECTOR * 18..SECTOR * 19] == Padded(PathTable(true))
    requires image[SECTOR * 19..SECTOR * 20] == Padded(PathTable(false))
    requires image[SECTOR * 20..SECTOR * 21] == Padded(DirectoryOf(names, bodies))
    ensures ReadVolume(image) == Some(Volume(Title(volume), Pairs(names, bodies)))
  {
    var d := image[SECTOR * 16..SECTOR * 17];
    DescriptorFields(volume, ExtentAfter(bodies));
    TablesReadBack(image, d);
    TerminatorFields();
    DescriptorReadsBack(image, d, image[SECTOR * 17..SECTOR * 18], volume, ExtentAfter(bodies));
    RootReads(image, names, bodies);
    TitleReadsBack(volume);
  }

  /** Every image that is made reads back as the volume and the files it was made of, and its
      length is what the descriptor counts. */
  lemma ImageReadsBack(volume: string, files: Files)
    requires ImageOf(volume, files).Made?
    ensures var image := ImageOf(volume, files).image;
            && ReadVolume(image) == Some(Volume(Title(volume), Pairs(NamesOf(files), BodiesIn(files))))
            && |image| == SECTOR * ExtentAfter(BodiesIn(files))
  {
    var names, bodies := NamesOf(files), BodiesIn(files);
    PartsReadBack(volume, names, bodies);
    DirectoryStarts(names, bodies);
    ImageLength(volume, DirectoryOf(names, bodies), bodies);
  }

  lemma ExtentStep(bodies: seq<Bytes>, j: nat)
    requires j < |bodies|
    ensures ExtentAfter(bodies[..j + 1]) == ExtentAfter(bodies[..j]) + Sectors(bodies[j])
  {
    assert bodies[..j + 1][..j] == bodies[..j];
  }

  lemma StepGrows(bodies: seq<Bytes>, j: nat)
    requires j < |bodies|
    ensures ExtentAfter(bodies[..j]) <= ExtentAfter(bodies[..j + 1])
  {
    ExtentStep(bodies, j);
  }

  lemma {:induction false} Grows(bodies: seq<Bytes>, i: nat, j: nat)
    requires i <= j <= |bodies|
    ensures ExtentAfter(bodies[..i]) <= ExtentAfter(bodies[..j])
    decreases j
  {
    if i < j {
      var k := j - 1;
      Grows(bodies, i, k);
      StepGrows(bodies, k);
    }
  }

  /** No two files share a sector, and every file stays within its own. */
  lemma ExtentsAreDisjoint(bodies: seq<Bytes>, i: nat, j: nat)
    requires i < j <= |bodies|
    ensures ExtentAfter(bodies[..i]) + Sectors(bodies[i]) <= ExtentAfter(bodies[..j])
    ensures |bodies[i]| <= SECTOR * Sectors(bodies[i])
  {
    ExtentStep(bodies, i);
    Grows(bodies, i + 1, j);
  }

  /** Which files are in the image: each of the map's, under its own name, and no other. */
  lemma ImageHoldsTheFiles(files: Files, name: string, body: Bytes)
    ensures (name, body) in Pairs(NamesOf(files), BodiesIn(files)) <==>
            Name(name) in files && files[Name(name)] == body
  {
    var names, bodies := NamesOf(files), BodiesIn(files);
    PairsAreTheFiles(names, bodies, name, body);
    if Name(name) in files {
      assert Name(name) in names;
      var i :| 0 <= i < |names| && names[i] == Name(name);
      assert bodies[i] == files[Name(name)];
    }
    if i :| 0 <= i < |names| && names[i].text == name && bodies[i] == body {
      assert names[i] == Name(name) && names[i] in names;
    }
  }

  lemma {:induction false} PairsAreTheFiles(names: seq<Name>, bodies: seq<Bytes>, name: string, body: Bytes)
    requires |names| == |bodies|
    ensures (name, body) in Pairs(names, bodies) <==>
            exists i | 0 <= i < |names| :: names[i].text == name && bodies[i] == body
  {
    if names != [] {
      PairsAreTheFiles(names[1..], bodies[1..], name, body);
      var rest := Pairs(names[1..], bodies[1..]);
      assert Pairs(names, bodies) == [(names[0].text, bodies[0])] + rest;
      assert forall i | 1 <= i < |names| :: names[i] == names[1..][i - 1] && bodies[i] == bodies[1..][i - 1];
      assert forall i | 0 <= i < |names| - 1 :: names[i + 1] == names[1..][i] && bodies[i + 1] == bodies[1..][i];
    }
  }

  // ----- when an image is made -----

  /** The sectors a file of that size takes: at least one, and as many as it begins. */
  function SectorsFor(size: nat): nat {
    Max(1, (size + SECTOR - 1) / SECTOR)
  }

  function SectorsForAll(bodies: seq<Bytes>): nat {
    if bodies == [] then 0
    else SectorsForAll(bodies[..|bodies| - 1]) + SectorsFor(|bodies[|bodies| - 1]|)
  }

  /** The bytes of a file's directory record, by the length of its name. */
  function RecordSize(name: string): nat {
    36 + |name| + |name| % 2
  }

  function RecordSizes(names: seq<Name>): nat {
    if names == [] then 0 else RecordSizes(names[..|names| - 1]) + RecordSize(names[|names| - 1].text)
  }

  lemma SectorsAre(body: Bytes)
    ensures Sectors(body) == SectorsFor(|body|)
  {
  }

  lemma {:induction false} ExtentIs(bodies: seq<Bytes>)
    ensures ExtentAfter(bodies) == 21 + SectorsForAll(bodies)
  {
    if bodies != [] {
      ExtentIs(bodies[..|bodies| - 1]);
      SectorsAre(bodies[|bodies| - 1]);
    }
  }

  lemma {:induction false} RecordsSnoc(entries: seq<Entry>, e: Entry)
    requires AllValid(entries) && e.Valid()
    ensures AllValid(entries + [e]) && |Records(entries + [e])| == |Records(entries)| + |RecordOf(e)|
  {
    if entries == [] {
      assert entries + [e] == [e] && [e][1..] == [];
    } else {
      RecordsSnoc(entries[1..], e);
      assert (entries + [e])[1..] == entries[1..] + [e];
    }
  }

  lemma FileRecordSize(name: Name, bodies: seq<Bytes>, i: nat)
    requires i < |bodies| && IsFileName(name.text) && PacksAt(bodies, i)
    ensures FileEntry(name, bodies, i).Valid() && |RecordOf(FileEntry(name, bodies, i))| == RecordSize(name.text)
  {
    assert |Identifier(name.text)| == |name.text| + 3;
  }

  lemma OneRecordMore(entries: seq<Entry>, k: nat)
    requires k < |entries| && AllValid(entries[..k]) && entries[k].Valid()
    ensures AllValid(entries[..k + 1])
    ensures |Records(entries[..k + 1])| == |Records(entries[..k])| + |RecordOf(entries[k])|
  {
    RecordsSnoc(entries[..k], entries[k]);
    assert entries[..k + 1] == entries[..k] + [entries[k]];
  }

  lemma OneNameMore(names: seq<Name>, k: nat)
    requires k < |names|
    ensures RecordSizes(names[..k + 1]) == RecordSizes(names[..k]) + RecordSize(names[k].text)
  {
    assert names[..k + 1][..k] == names[..k];
  }

  predicate TakesItsSize(e: Entry, name: Name) {
    e.Valid() && |RecordOf(e)| == RecordSize(name.text)
  }

  lemma {:induction false} RecordsTake(names: seq<Name>, entries: seq<Entry>, k: nat)
    requires k <= |names| == |entries|
    requires forall i | 0 <= i < |names| :: TakesItsSize(entries[i], names[i])
    ensures AllValid(entries[..k]) && |Records(entries[..k])| == RecordSizes(names[..k])
  {
    if k > 0 {
      RecordsTake(names, entries, k - 1);
      assert TakesItsSize(entries[k - 1], names[k - 1]);
      OneRecordMore(entries, k - 1);
      OneNameMore(names, k - 1);
    }
  }

  lemma RootsTake(entries: seq<Entry>)
    requires AllValid(entries)
    ensures AllValid(ROOT_ENTRIES + entries) && |Records(ROOT_ENTRIES + entries)| == 68 + |Records(entries)|
  {
    var all := ROOT_ENTRIES + entries;
    assert all[1..] == [ROOT_ENTRIES[1]] + entries && all[1..][1..] == entries;
    assert |RecordOf(ROOT_ENTRIES[0])| == 34 && |RecordOf(ROOT_ENTRIES[1])| == 34;
  }

  lemma DirectoryTakes(names: seq<Name>, bodies: seq<Bytes>)
    requires |names| == |bodies| && ValidNames(names) && RecordsPack(bodies)
    ensures |DirectoryOf(names, bodies)| == 68 + RecordSizes(names)
  {
    var entries := FileEntries(names, bodies);
    forall i | 0 <= i < |names|
      ensures TakesItsSize(entries[i], names[i])
    {
      assert PacksAt(bodies, i);
      FileRecordSize(names[i], bodies, i);
    }
    RecordsTake(names, entries, |names|);
    assert entries[..|names|] == entries && names[..|names|] == names;
    RootsTake(entries);
  }

  /** Every file's first sector and size can be written in 32 bits. */
  predicate FilesPack(bodies: seq<Bytes>) {
    forall i | 0 <= i < |bodies| :: FilePacks(bodies, i)
  }

  predicate FilePacks(bodies: seq<Bytes>, i: nat)
    requires i < |bodies|
  {
    21 + SectorsForAll(bodies[..i]) < WORD && |bodies[i]| < WORD
  }

  lemma PackingIs(bodies: seq<Bytes>)
    ensures RecordsPack(bodies) <==> FilesPack(bodies)
  {
    forall i | 0 <= i < |bodies|
      ensures PacksAt(bodies, i) <==> FilePacks(bodies, i)
    {
      ExtentIs(bodies[..i]);
    }
  }

  /** Well named: the volume, and every file. */
  predicate WellNamed(volume: string, files: Files) {
    IsVolume(volume) && forall n | n in files :: IsFileName(n.text)
  }

  lemma NamesAreValid(files: Files)
    ensures ValidNames(NamesOf(files)) <==> forall n | n in files :: IsFileName(n.text)
  {
    var names := NamesOf(files);
    if ValidNames(names) {
      forall n | n in files
        ensures IsFileName(n.text)
      {
        assert n in names;
        var i :| 0 <= i < |names| && names[i] == n;
      }
    }
    forall i | 0 <= i < |names|
      ensures names[i] in files
    {
      assert names[i] in names;
    }
  }

  /** Exactly when each answer is given, in sizes: malformed for a name, or for records that would be
      written but take more than one sector; a failed packing for a file that starts or ends too far
      out to be written down, or else for a total that is; and an image in every other case. */
  lemma {:induction false} MadeExactly(volume: string, files: Files)
    ensures var result := ImageOf(volume, files);
            var records := 68 + RecordSizes(NamesOf(files));
            var total := 21 + SectorsForAll(BodiesIn(files));
            var named, packs := WellNamed(volume, files), FilesPack(BodiesIn(files));
            && (result == Malformed <==> !named || (packs && records > 2048))
            && (result == PackingFails <==> named && (!packs || (records <= 2048 && total >= WORD)))
            && (result.Made? <==> named && packs && records <= 2048 && total < WORD)
  {
    NamesAreValid(files);
    PackingIs(BodiesIn(files));
    ExtentIs(BodiesIn(files));
    if ValidNames(NamesOf(files)) && RecordsPack(BodiesIn(files)) {
      DirectoryTakes(NamesOf(files), BodiesIn(files));
    }
  }

  lemma {:induction false} StartsGrow(bodies: seq<Bytes>, i: nat)
    requires i <= |bodies|
    ensures SectorsForAll(bodies[..i]) <= SectorsForAll(bodies)
  {
    if i < |bodies| {
      var init := bodies[..|bodies| - 1];
      StartsGrow(init, i);
      assert init[..i] == bodies[..i];
    } else {
      assert bodies[..i] == bodies;
    }
  }

  /** So files that a caller can hold in memory, whose names take at most a sector of records, are
      made into an image whenever they end within the numbers of ISO 9660. */
  lemma MadeWhenItFits(volume: string, files: Files)
    requires WellNamed(volume, files)
    requires 68 + RecordSizes(NamesOf(files)) <= 2048 && 21 + SectorsForAll(BodiesIn(files)) < WORD
    requires forall n | n in files :: |files[n]| < WORD
    ensures ImageOf(volume, files).Made?
  {
    var names, bodies := NamesOf(files), BodiesIn(files);
    forall i | 0 <= i < |bodies|
      ensures FilePacks(bodies, i)
    {
      StartsGrow(bodies, i);
      assert names[i] in names;
    }
    MadeExactly(volume, files);
  }
}

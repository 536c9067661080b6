/** How the image is written: the descriptor a field at a time into a buffer of one sector, and
    the directory and bodies in one pass over the sorted names
    (src/apex/generating/seedimage.py:44-136). */
module SeedImageWriting {
  import opened Bytes
  import opened Ordering
  import opened SeedImage

  // ----- the descriptor's buffer -----

  /** The buffer holds what was written so far, and zeros after it. */
  ghost predicate WrittenTo(d: array<byte>, done: Bytes)
    reads d
  {
    d.Length == SECTOR && |done| <= SECTOR && d[..] == done + Fill(SECTOR - |done|, 0)
  }

  method Put(d: array<byte>, at: nat, field: Bytes, ghost done: Bytes)
    requires WrittenTo(d, done) && at == |done| && at + |field| <= SECTOR
    modifies d
    ensures WrittenTo(d, done + field)
  {
    for i := 0 to |field|
      invariant forall j | 0 <= j < i :: d[at + j] == field[j]
      invariant forall j | 0 <= j < SECTOR && !(at <= j < at + i) :: d[j] == old(d[j])
    {
      d[at + i] := field[i];
    }
    assert forall j | 0 <= j < at :: d[j] == old(d[..])[j] == done[j];
    assert forall j | at + |field| <= j < SECTOR :: d[j] == old(d[..])[j] == 0;
  }

  /** Bytes that are passed over stay zero. */
  lemma Skipped(d: array<byte>, done: Bytes, n: nat)
    requires WrittenTo(d, done) && |done| + n <= SECTOR
    ensures WrittenTo(d, done + Fill(n, 0))
  {
    assert Fill(SECTOR - |done|, 0) == Fill(n, 0) + Fill(SECTOR - |done| - n, 0);
  }

  method PutIdentification(d: array<byte>, volume: string)
    requires WrittenTo(d, []) && |volume| <= 32
    modifies d
    ensures WrittenTo(d, Identification(volume))
  {
    Put(d, 0, [PRIMARY], []);
    assert [] + [PRIMARY] == [PRIMARY];
    Put(d, 1, STANDARD, [PRIMARY]);
    Put(d, 6, [VERSION], [PRIMARY] + STANDARD);
    Skipped(d, [PRIMARY] + STANDARD + [VERSION], 1);
    Put(d, 8, Ljust(SYSTEM, 32), [PRIMARY] + STANDARD + [VERSION] + Fill(1, 0));
    ghost var done := [PRIMARY] + STANDARD + [VERSION] + Fill(1, 0) + Ljust(SYSTEM, 32);
    Put(d, 40, Ljust(Title(volume), 32), done);
    Skipped(d, done + Ljust(Title(volume), 32), 8);
  }

  method PutGeometry(d: array<byte>, total: nat, ghost done: Bytes)
    requires WrittenTo(d, done) && |done| == 80 && total < WORD
    modifies d
    ensures WrittenTo(d, done + Geometry(total))
  {
    Put(d, 80, Both32(total), done);
    PutVolumeSet(d, done + Both32(total));
    PutTables(d, done + Both32(total) + VolumeSet());
    AppendAssociates(done, Both32(total), VolumeSet());
    AppendAssociates(done, Both32(total) + VolumeSet(), Tables());
  }

  method PutVolumeSet(d: array<byte>, ghost done: Bytes)
    requires WrittenTo(d, done) && |done| == 88
    modifies d
    ensures WrittenTo(d, done + VolumeSet())
  {
    Skipped(d, done, 32);
    Put(d, 120, Both16(1), done + Fill(32, 0));
    Put(d, 124, Both16(1), done + Fill(32, 0) + Both16(1));
    AppendAssociates(done, Fill(32, 0), Both16(1));
    AppendAssociates(done, Fill(32, 0) + Both16(1), Both16(1));
  }

  method PutTables(d: array<byte>, ghost done: Bytes)
    requires WrittenTo(d, done) && |done| == 128
    modifies d
    ensures WrittenTo(d, done + Tables())
  {
    ghost var a := Both16(SECTOR);
    Put(d, 128, Both16(SECTOR), done);
    Put(d, 132, Both32(PATH_TABLE_SIZE), done + a);
    AppendAssociates(done, a, Both32(PATH_TABLE_SIZE));
    ghost var b := a + Both32(PATH_TABLE_SIZE);
    Put(d, 140, Le32(PATH_TABLE_L), done + b);
    AppendAssociates(done, b, Le32(PATH_TABLE_L));
    ghost var c := b + Le32(PATH_TABLE_L);
    Skipped(d, done + c, 4);
    AppendAssociates(done, c, Fill(4, 0));
    Put(d, 148, Be32(PATH_TABLE_M), done + (c + Fill(4, 0)));
    AppendAssociates(done, c + Fill(4, 0), Be32(PATH_TABLE_M));
    ghost var e := c + Fill(4, 0) + Be32(PATH_TABLE_M);
    Skipped(d, done + e, 4);
    AppendAssociates(done, e, Fill(4, 0));
  }

  const TEXT_FIELDS: seq<(nat, nat)> :=
    [(190, 128), (318, 128), (446, 128), (574, 128), (702, 37), (739, 37), (776, 37)]
  const DATE_FIELDS: seq<nat> := [813, 830, 847, 864]

  lemma FillJoins(n: nat, m: nat, b: byte)
    ensures Fill(n, b) + Fill(m, b) == Fill(n + m, b)
  {
  }

  method PutText(d: array<byte>, ghost done: Bytes)
    requires WrittenTo(d, done) && |done| == 190
    modifies d
    ensures WrittenTo(d, done + Fill(623, SPACE))
  {
    ghost var n := 0;
    assert done + Fill(0, SPACE) == done;
    for i := 0 to |TEXT_FIELDS|
      invariant n == if i < |TEXT_FIELDS| then TEXT_FIELDS[i].0 - 190 else 623
      invariant WrittenTo(d, done + Fill(n, SPACE))
    {
      var (start, width) := TEXT_FIELDS[i];
      Put(d, start, Fill(width, SPACE), done + Fill(n, SPACE));
      AppendAssociates(done, Fill(n, SPACE), Fill(width, SPACE));
      FillJoins(n, width, SPACE);
      n := n + width;
    }
  }

  /** So many unspecified dates. */
  ghost function Dates(n: nat): (s: Bytes)
    ensures |s| == 17 * n
  {
    if n == 0 then [] else Dates(n - 1) + UnspecifiedDate()
  }

  method PutDates(d: array<byte>, ghost done: Bytes)
    requires WrittenTo(d, done) && |done| == 813
    modifies d
    ensures WrittenTo(d, done + Dates(4))
  {
    assert done + Dates(0) == done;
    for i := 0 to |DATE_FIELDS|
      invariant WrittenTo(d, done + Dates(i))
    {
      Put(d, DATE_FIELDS[i], UnspecifiedDate(), done + Dates(i));
      AppendAssociates(done, Dates(i), UnspecifiedDate());
    }
  }

  lemma UnfilledIs()
    ensures Unfilled() == Fill(623, SPACE) + Dates(4) + [1] + Fill(1166, 0)
  {
    var s, u := Fill(623, SPACE), UnspecifiedDate();
    assert Dates(1) == [] + u == u;
    assert Dates(2) == u + u && Dates(3) == u + u + u && Dates(4) == u + u + u + u;
    AppendAssociates(s, u, u);
    AppendAssociates(s, u + u, u);
    AppendAssociates(s, u + u + u, u);
  }

  method PutUnfilled(d: array<byte>, ghost done: Bytes)
    requires WrittenTo(d, done) && |done| == 190
    modifies d
    ensures d[..] == done + Unfilled()
  {
    PutText(d, done);
    ghost var a := Fill(623, SPACE);
    PutDates(d, done + a);
    AppendAssociates(done, a, Dates(4));
    Put(d, 881, [1], done + (a + Dates(4)));
    AppendAssociates(done, a + Dates(4), [1]);
    AppendAssociates(done, a + Dates(4) + [1], Fill(1166, 0));
    UnfilledIs();
  }

  /** Writing the fields of the descriptor into an empty sector, each at its own offset, lays the
      descriptor out in order and leaves its length alone. */
  method WriteDescriptor(volume: string, total: nat) returns (descriptor: Bytes)
    requires |volume| <= 32 && total < WORD
    ensures descriptor == Descriptor(volume, total)
  {
    var d := new byte[SECTOR](_ => 0);
    assert d[..] == [] + Fill(SECTOR, 0);
    PutIdentification(d, volume);
    PutGeometry(d, total, Identification(volume));
    Put(d, 156, RootRecord(), Identification(volume) + Geometry(total));
    PutUnfilled(d, Identification(volume) + Geometry(total) + RootRecord());
    descriptor := d[..];
  }

  // ----- the whole image -----

  lemma {:induction false} RecordsAppend(entries: seq<Entry>, last: Entry)
    requires last.Valid() && AllValid(entries)
    ensures Records(entries + [last]) == Records(entries) + RecordOf(last)
    decreases |entries|
  {
    if entries == [] {
      assert [] + [last] == [last];
    } else {
      RecordsAppend(entries[1..], last);
      assert (entries + [last])[1..] == entries[1..] + [last];
      AppendAssociates(RecordOf(entries[0]), Records(entries[1..]), RecordOf(last));
    }
  }

  lemma PrefixTo(bodies: seq<Bytes>, k: nat)
    requires k < |bodies|
    ensures bodies[..k + 1][..k] == bodies[..k] && bodies[..k + 1][k] == bodies[k]
  {
  }

  lemma EntriesNext(root: seq<Entry>, files: seq<Entry>, k: nat)
    requires k < |files|
    ensures root + files[..k + 1] == root + files[..k] + [files[k]]
  {
  }

  /** What the loop carries from file to file. */
  datatype Draft = Draft(directory: Bytes, padded: seq<Bytes>, extent: nat)

  /** What the loop has built once the first k files are behind it. */
  ghost predicate Built(files: seq<Entry>, bodies: seq<Bytes>, k: nat, p: Draft)
    requires k <= |files| == |bodies|
  {
    && AllValid(ROOT_ENTRIES + files[..k]) && p.directory == Records(ROOT_ENTRIES + files[..k])
    && p.padded == PaddedAll(bodies[..k]) && p.extent == ExtentAfter(bodies[..k])
  }

  /** One more file: its record at the current extent, its body, and the extent after it; none
      when one of the record's numbers does not fit. */
  ghost function WithFile(p: Draft, name: Name, body: Bytes): Option<Draft>
    requires IsFileName(name.text)
  {
    if p.extent >= WORD || |body| >= WORD then None
    else
      var record := Record(Identifier(name.text), p.extent, |body|, FILE_FLAG);
      Some(Draft(p.directory + record, p.padded + [Padded(body)], p.extent + Sectors(body)))
  }

  ghost function After(names: seq<Name>, bodies: seq<Bytes>, k: nat): Option<Draft>
    requires |names| == |bodies| && ValidNames(names) && k <= |names|
  {
    if k == 0 then Some(Draft(RecordOf(ROOT_ENTRIES[0]) + RecordOf(ROOT_ENTRIES[1]), [], FIRST_FILE))
    else
      match After(names, bodies, k - 1)
      case None => None
      case Some(p) => WithFile(p, names[k - 1], bodies[k - 1])
  }

  lemma BuiltFirst(files: seq<Entry>, bodies: seq<Bytes>)
    requires |files| == |bodies|
    ensures Built(files, bodies, 0, Draft(RecordOf(ROOT_ENTRIES[0]) + RecordOf(ROOT_ENTRIES[1]), [], FIRST_FILE))
  {
    RecordsAppend([], ROOT_ENTRIES[0]);
    RecordsAppend([ROOT_ENTRIES[0]], ROOT_ENTRIES[1]);
    assert ROOT_ENTRIES == [ROOT_ENTRIES[0]] + [ROOT_ENTRIES[1]];
    assert ROOT_ENTRIES + files[..0] == ROOT_ENTRIES;
  }

  lemma BuiltWith(files: seq<Entry>, bodies: seq<Bytes>, k: nat, p: Draft, e: Entry)
    requires k < |files| == |bodies| && Built(files, bodies, k, p) && e == files[k] && e.Valid()
    ensures Built(files, bodies, k + 1, Draft(p.directory + RecordOf(e), p.padded + [Padded(bodies[k])],
                                                 p.extent + Sectors(bodies[k])))
  {
    RecordsAppend(ROOT_ENTRIES + files[..k], e);
    EntriesNext(ROOT_ENTRIES, files, k);
    PrefixTo(bodies, k);
  }

  lemma {:induction false} AfterIsBuilt(names: seq<Name>, bodies: seq<Bytes>, k: nat)
    requires |names| == |bodies| && ValidNames(names) && k <= |names|
    ensures After(names, bodies, k).Some? ==>
              Built(FileEntries(names, bodies), bodies, k, After(names, bodies, k).value)
  {
    var files := FileEntries(names, bodies);
    if k == 0 {
      BuiltFirst(files, bodies);
    } else if After(names, bodies, k).Some? {
      AfterIsBuilt(names, bodies, k - 1);
      var p := After(names, bodies, k - 1).value;
      var e := Entry(p.extent, |bodies[k - 1]|, FILE_FLAG, Identifier(names[k - 1].text));
      EntryAt(names, bodies, k - 1, e);
      BuiltWith(files, bodies, k - 1, p, e);
    }
  }

  lemma EntryAt(names: seq<Name>, bodies: seq<Bytes>, k: nat, e: Entry)
    requires k < |names| == |bodies| && IsFileName(names[k].text)
    requires ExtentAfter(bodies[..k]) < WORD && |bodies[k]| < WORD
    requires e == Entry(ExtentAfter(bodies[..k]), |bodies[k]|, FILE_FLAG, Identifier(names[k].text))
    ensures e == FileEntries(names, bodies)[k] && e.Valid()
  {
    assert |Identifier(names[k].text)| == |names[k].text| + 3;
  }

  lemma StopsAt(names: seq<Name>, bodies: seq<Bytes>, k: nat)
    requires |names| == |bodies| && ValidNames(names) && k < |names|
    ensures After(names, bodies, k).Some? ==> (After(names, bodies, k + 1).Some? <==> PacksAt(bodies, k))
  {
    if After(names, bodies, k).Some? { AfterIsBuilt(names, bodies, k); }
  }

  /** The pass goes past a record only if it packs, and stops only at one that does not. */
  lemma {:induction false} PacksBefore(names: seq<Name>, bodies: seq<Bytes>, k: nat, i: nat)
    requires |names| == |bodies| && ValidNames(names) && i < k <= |names|
    ensures After(names, bodies, k).Some? ==> PacksAt(bodies, i)
  {
    if After(names, bodies, k).Some? {
      CameFrom(names, bodies, k - 1);
      if i == k - 1 {
        StopsAt(names, bodies, i);
      } else {
        PacksBefore(names, bodies, k - 1, i);
      }
    }
  }

  lemma CameFrom(names: seq<Name>, bodies: seq<Bytes>, k: nat)
    requires |names| == |bodies| && ValidNames(names) && k < |names|
    ensures After(names, bodies, k + 1).Some? ==> After(names, bodies, k).Some?
  {
  }

  lemma {:induction false} Misfit(names: seq<Name>, bodies: seq<Bytes>, k: nat)
    requires |names| == |bodies| && ValidNames(names) && k <= |names|
    ensures After(names, bodies, k).None? ==> !RecordsPack(bodies)
  {
    if k > 0 && After(names, bodies, k).None? {
      StopsAt(names, bodies, k - 1);
      Misfit(names, bodies, k - 1);
    }
  }

  lemma WithNext(names: seq<Name>, bodies: seq<Bytes>, k: nat, p: Draft)
    requires |names| == |bodies| && ValidNames(names) && k < |names|
    ensures After(names, bodies, k) == Some(p) ==> After(names, bodies, k + 1) == WithFile(p, names[k], bodies[k])
  {
  }

  lemma AllPack(names: seq<Name>, bodies: seq<Bytes>)
    requires |names| == |bodies| && ValidNames(names)
    ensures After(names, bodies, |names|).Some? ==> RecordsPack(bodies)
  {
    forall i | 0 <= i < |bodies| && After(names, bodies, |names|).Some?
      ensures PacksAt(bodies, i)
    {
      PacksBefore(names, bodies, |names|, i);
    }
  }

  lemma BuiltLast(names: seq<Name>, bodies: seq<Bytes>, p: Draft)
    requires |names| == |bodies| && ValidNames(names) && RecordsPack(bodies)
    requires Built(FileEntries(names, bodies), bodies, |bodies|, p)
    ensures p == Draft(DirectoryOf(names, bodies), PaddedAll(bodies), ExtentAfter(bodies))
  {
    assert bodies[..|bodies|] == bodies;
    assert FileEntries(names, bodies)[..|bodies|] == FileEntries(names, bodies);
  }

  /** A pass that reaches the end has built the directory, the bodies and the total. */
  lemma PassEnds(names: seq<Name>, bodies: seq<Bytes>, p: Draft)
    requires |names| == |bodies| && ValidNames(names)
    ensures After(names, bodies, |names|) == Some(p) ==>
              && RecordsPack(bodies)
              && p == Draft(DirectoryOf(names, bodies), PaddedAll(bodies), ExtentAfter(bodies))
  {
    if After(names, bodies, |names|) == Some(p) {
      AllPack(names, bodies);
      AfterIsBuilt(names, bodies, |names|);
      BuiltLast(names, bodies, p);
    }
  }

  /** The directory, the padded bodies and the total, or none when a number does not fit. */
  method BuildDirectory(names: seq<Name>, files: Files) returns (built: Option<Draft>)
    requires ValidNames(names) && forall n | n in names :: n in files
    ensures var bodies := BodiesOf(names, files);
            && built.Some? == RecordsPack(bodies)
            && (built.Some? ==>
                built.value == Draft(DirectoryOf(names, bodies), PaddedAll(bodies), ExtentAfter(bodies)))
  {
    ghost var bodies := BodiesOf(names, files);
    var directory := RecordOf(ROOT_ENTRIES[0]) + RecordOf(ROOT_ENTRIES[1]);
    var padded: seq<Bytes> := [];
    var extent: nat := FIRST_FILE;
    for k := 0 to |names|
      invariant After(names, bodies, k) == Some(Draft(directory, padded, extent))
    {
      var body := files[names[k]];
      ghost var before := Draft(directory, padded, extent);
      WithNext(names, bodies, k, before);
      if extent >= WORD || |body| >= WORD {
        Misfit(names, bodies, k + 1);
        return None;
      }
      directory := directory + Record(Identifier(names[k].text), extent, |body|, FILE_FLAG);
      padded := padded + [Padded(body)];
      extent := extent + Max(1, |padded[|padded| - 1]| / SECTOR);
    }
    PassEnds(names, bodies, Draft(directory, padded, extent));
    return Some(Draft(directory, padded, extent));
  }

  /** The whole image, written in one pass. */
  method Image(volume: string, files: Files) returns (r: Result)
    ensures r == ImageOf(volume, files)
  {
    if !IsVolume(volume) { return Malformed; }
    var names := List(files.Keys);
    for k := 0 to |names|
      invariant forall i | 0 <= i < k :: IsFileName(names[i].text)
    {
      if !IsFileName(names[k].text) { return Malformed; }
    }
    var built := BuildDirectory(names, files);
    if built.None? { return PackingFails; }
    var Draft(directory, padded, extent) := built.value;
    if |directory| > SECTOR { return Malformed; }
    if extent >= WORD { return PackingFails; }
    var descriptor := WriteDescriptor(volume, extent);
    var front := [Fill(SECTOR * SYSTEM_AREA, 0), descriptor, Padded([SET_TERMINATOR] + STANDARD + [VERSION]),
                  Padded(PathTable(true)), Padded(PathTable(false)), Padded(directory)];
    assert front == Front(volume, extent, directory);
    return Made(Concat(front + padded));
  }
}

/** The FAT on the disk, read and written through the ten-line sector cache (src/fs/fat32/table.c),
    and the array of words it refines. */
module FatTable {
  import opened Words
  import opened Device
  import opened Cache
  import opened BlockCache
  import opened FatArray

  const FAT_CACHE_SIZE: nat := 10

  /** The 512-byte sectors that hold the table can all be transferred. */
  ghost predicate HoldsTable(m: Memory, v: Volume) {
    && v.Valid()
    && forall t: u32 :: v.tableAddress <= t < v.tableAddress + v.tableSize ==> t in m && |m[t]| == 512
  }

  /** The table's little-endian words, in order; empty if a sector is missing. */
  ghost function FatIn(m: Memory, v: Volume): (r: Fat)
    ensures HoldsTable(m, v) ==> |r| == v.tableSize * 128
  {
    if !HoldsTable(m, v) then []
    else seq(v.tableSize * 128,
             k requires 0 <= k < v.tableSize * 128 => WordAt(m[v.tableAddress + k / 128], k % 128 * 4))
  }

  predicate InTable(v: Volume, cluster: u32) {
    Slot(cluster) < v.tableSize * 128
  }

  /** The sector that holds an entry, and the entry's place in it. */
  function EntrySector(v: Volume, cluster: u32): (r: u32)
    requires v.Valid() && InTable(v, cluster)
    ensures v.tableAddress <= r < v.tableAddress + v.tableSize
  {
    v.tableAddress + Slot(cluster) / 128
  }

  function EntryOffset(cluster: u32): (r: nat)
    ensures r % 4 == 0 && r + 4 <= 512
  {
    Slot(cluster) % 128 * 4
  }

  /** Where fat_table_access finds an entry: its bound check agrees with the array's, and the
      word is aligned in its sector. */
  lemma EntryPlace(v: Volume, cluster: u32)
    requires v.Valid()
    ensures Wrap(v.tableSize * 512) <= Wrap(cluster * 4) <==> !InTable(v, cluster)
    ensures Wrap(cluster * 4) % 4 == 0 && Wrap(cluster * 4) % 512 == EntryOffset(cluster)
    ensures InTable(v, cluster) ==> BlockOf(512, v.tableAddress, Wrap(cluster * 4)) == EntrySector(v, cluster)
  {
    WrapFour(cluster);
    WrapSmall(v.tableSize * 512);
    QuadDivMod(Slot(cluster));
    if InTable(v, cluster) {
      WrapSmall(v.tableAddress + Slot(cluster) / 128);
    }
  }

  lemma QuadDivMod(slot: nat)
    ensures 4 * slot / 512 == slot / 128 && 4 * slot % 512 == slot % 128 * 4 && 4 * slot % 4 == 0
  {
    var q, r := slot / 128, slot % 128;
    assert 4 * slot == 512 * q + 4 * r;
  }

  lemma WrapFour(cluster: u32)
    ensures Wrap(cluster * 4) == 4 * Slot(cluster)
  {
    var q, r := cluster / 0x4000_0000, cluster % 0x4000_0000;
    assert cluster * 4 == 0x1_0000_0000 * q + 4 * r;
  }

  /** An entry is the word at its place. */
  lemma EntryWord(m: Memory, v: Volume, cluster: u32)
    requires HoldsTable(m, v)
    ensures Get(FatIn(m, v), cluster) ==
            if InTable(v, cluster) then WordAt(m[EntrySector(v, cluster)], EntryOffset(cluster)) else READ_ERROR
  {
    hide WordAt, Slot;
    var k := Slot(cluster);
    if InTable(v, cluster) {
      assert FatIn(m, v)[k] == WordAt(m[v.tableAddress + k / 128], k % 128 * 4);
    }
    hide FatIn;
  }

  /** Entry k of the table after one aligned word of a sector was replaced. */
  lemma EntryAfter(m: Memory, v: Volume, slot: nat, content: u32, k: nat)
    requires HoldsTable(m, v) && slot < v.tableSize * 128 && k < v.tableSize * 128
    ensures var tag: u32, at, sector: u32 := v.tableAddress + slot / 128, slot % 128 * 4, v.tableAddress + k / 128;
            |PokeWord(m[tag], at, content)| == 512
            && WordAt(m[tag := PokeWord(m[tag], at, content)][sector], k % 128 * 4)
            == if k == slot then content else WordAt(m[sector], k % 128 * 4)
  {
    hide WordAt, PokeWord;
    var tag: u32 := v.tableAddress + slot / 128;
    WordAfterPoke(m[tag], slot % 128 * 4, content, k % 128 * 4);
    SamePlace(slot, k);
  }

  lemma SamePlace(x: nat, y: nat)
    ensures x / 128 == y / 128 && x % 128 == y % 128 <==> x == y
  {
    assert x == 128 * (x / 128) + x % 128 && y == 128 * (y / 128) + y % 128;
  }

  /** Replacing one aligned word of a table sector replaces one entry of the table. */
  lemma EntryAfterPoke(m: Memory, m': Memory, v: Volume, cluster: u32, content: u32)
    requires HoldsTable(m, v) && InTable(v, cluster)
    requires var tag := EntrySector(v, cluster); m' == m[tag := PokeWord(m[tag], EntryOffset(cluster), content)]
    ensures HoldsTable(m', v) && FatIn(m', v) == Put(FatIn(m, v), cluster, content)
  {
    var slot := Slot(cluster);
    EntryAfter(m, v, slot, content, slot);
    hide WordAt, PokeWord, Slot;
    forall k | 0 <= k < v.tableSize * 128
      ensures FatIn(m', v)[k] == if k == slot then content else FatIn(m, v)[k]
    {
      EntryAfter(m, v, slot, content, k);
    }
    assert FatIn(m', v) == FatIn(m, v)[slot := content];
  }

  /** fat_table_access in read mode. */
  ghost function TableRead(s: State, v: Volume, cluster: u32): (State, u32)
    requires s.Valid()
  {
    var offset := Wrap(cluster * 4);
    if Wrap(v.tableSize * 512) <= offset then (s, READ_ERROR) else s.ReadLong(v.tableAddress, offset)
  }

  /** fat_table_access in write mode. */
  ghost function TableWrite(s: State, v: Volume, cluster: u32, content: u32): State
    requires s.Valid()
  {
    var offset := Wrap(cluster * 4);
    if Wrap(v.tableSize * 512) <= offset then s else s.WriteLong(v.tableAddress, offset, content)
  }

  /** A coherent cache of 512-byte sectors that holds nothing but sectors of the table. */
  ghost predicate Ready(s: State, v: Volume) {
    && s.Coherent() && s.blockSize == 512 && HoldsTable(s.disk, v) && HoldsTable(s.Memory(), v)
    && forall i :: 0 <= i < |s.lines| && s.lines[i].valid ==>
       v.tableAddress <= s.lines[i].tag < v.tableAddress + v.tableSize
  }

  /** Every table sector has a line of its own. */
  predicate Roomy(s: State, v: Volume) {
    v.tableSize <= |s.lines|
  }

  /** Reads are safe when there is room, and also on any table while nothing is unwritten. */
  ghost predicate Steady(s: State, v: Volume) {
    Roomy(s, v) || Clean(s, {})
  }

  lemma SteadyFetch(s: State, v: Volume, tag: u32)
    requires Ready(s, v) && Steady(s, v) && v.tableAddress <= tag < v.tableAddress + v.tableSize
    ensures s.FetchSafe(tag) && Ready(s.Fetch(tag), v) && s.Fetch(tag).Memory() == s.Memory() && Steady(s.Fetch(tag), v)
  {
    if Roomy(s, v) {
      WindowFetchIsHit(s, v.tableAddress, tag);
    }
    FetchKeepsExactlyWhenSafe(s, tag);
  }

  /** Reading an entry returns the array's value, an error word outside it, and changes nothing. */
  lemma TableReadRefines(s: State, v: Volume, cluster: u32)
    requires Ready(s, v) && Steady(s, v)
    ensures var (s', r) := TableRead(s, v, cluster);
            && Ready(s', v) && Steady(s', v)
            && s' == s.(lines := s'.lines) && |s'.lines| == |s.lines| && s'.Memory() == s.Memory()
            && r == Get(FatIn(s.Memory(), v), cluster)
  {
    EntryPlace(v, cluster);
    EntryWord(s.Memory(), v, cluster);
    if InTable(v, cluster) {
      SteadyFetch(s, v, EntrySector(v, cluster));
      ReadLongRefines(s, v.tableAddress, Wrap(cluster * 4));
    }
  }

  /** Writing an entry writes the array, and no other entry. */
  lemma TableWriteRefines(s: State, v: Volume, cluster: u32, content: u32)
    requires Ready(s, v) && Roomy(s, v)
    ensures var s' := TableWrite(s, v, cluster, content);
            && Ready(s', v) && s' == s.(lines := s'.lines) && |s'.lines| == |s.lines|
            && FatIn(s'.Memory(), v) == Put(FatIn(s.Memory(), v), cluster, content)
  {
    EntryPlace(v, cluster);
    if InTable(v, cluster) {
      var tag := EntrySector(v, cluster);
      SteadyFetch(s, v, tag);
      WriteLongRefines(s, v.tableAddress, Wrap(cluster * 4), content);
      var s' := TableWrite(s, v, cluster, content);
      EntryAfterPoke(s.Memory(), s'.Memory(), v, cluster, content);
      KeepsReady(s, s', v, tag, PokeWord(s.Memory()[tag], EntryOffset(cluster), content));
    }
  }

  lemma KeepsReady(s: State, s': State, v: Volume, tag: u32, block: seq<byte>)
    requires Ready(s, v) && Replaces(s, s', tag, block) && |block| == 512
    requires v.tableAddress <= tag < v.tableAddress + v.tableSize
    ensures Ready(s', v)
  {
    IndexInRange(s, tag);
    ReplacesMemory(s, s', tag, block);
  }

  // Whole runs on the table.

  datatype TableOp = Load(cluster: u32) | Save(cluster: u32, content: u32) | Sync

  ghost function TableStep(s: State, v: Volume, op: TableOp): (r: (State, seq<u32>))
    requires s.Valid()
    ensures r.0.Valid() && r.0.blockSize == s.blockSize && |r.0.lines| == |s.lines|
  {
    match op
    case Load(cluster) => var (s', r) := TableRead(s, v, cluster); (s', [r])
    case Save(cluster, content) => (TableWrite(s, v, cluster, content), [])
    case Sync => FlushKeepsValid(s); (s.FlushFrom(0), [])
  }

  ghost function TableRun(s: State, v: Volume, ops: seq<TableOp>): (r: (State, seq<u32>))
    requires s.Valid()
    decreases |ops|
  {
    if ops == [] then (s, [])
    else
      var (s', out) := TableStep(s, v, ops[0]);
      var (end, rest) := TableRun(s', v, ops[1..]);
      (end, out + rest)
  }

  /** The specification: the same operation on the array. */
  function ArrayStep(fat: Fat, op: TableOp): (Fat, seq<u32>) {
    match op
    case Load(cluster) => (fat, [Get(fat, cluster)])
    case Save(cluster, content) => (Put(fat, cluster, content), [])
    case Sync => (fat, [])
  }

  function ArrayRun(fat: Fat, ops: seq<TableOp>): (Fat, seq<u32>)
    decreases |ops|
  {
    if ops == [] then (fat, [])
    else
      var (fat', out) := ArrayStep(fat, ops[0]);
      var (end, rest) := ArrayRun(fat', ops[1..]);
      (end, out + rest)
  }

  lemma TableSyncRefines(s: State, v: Volume)
    requires Ready(s, v)
    ensures var s' := s.FlushFrom(0);
            Ready(s', v) && s'.Memory() == s.Memory() && s'.disk == s.Memory() && Clean(s', {})
  {
    FlushPublishes(s);
  }

  lemma TableStepRefines(s: State, v: Volume, op: TableOp)
    requires Ready(s, v) && Roomy(s, v)
    ensures var (s', out) := TableStep(s, v, op);
            && Ready(s', v) && |s'.lines| == |s.lines|
            && (FatIn(s'.Memory(), v), out) == ArrayStep(FatIn(s.Memory(), v), op)
  {
    match op
    case Load(cluster) => TableReadRefines(s, v, cluster);
    case Save(cluster, content) => TableWriteRefines(s, v, cluster, content);
    case Sync => TableSyncRefines(s, v);
  }

  /** A table with no more sectors than the cache has lines refines the array over every run of
      reads, writes and flushes, with no discipline on the caller. */
  lemma {:induction false} RoomyTableRefines(s: State, v: Volume, ops: seq<TableOp>)
    requires Ready(s, v) && Roomy(s, v)
    ensures var (end, out) := TableRun(s, v, ops);
            && Ready(end, v) && |end.lines| == |s.lines|
            && (FatIn(end.Memory(), v), out) == ArrayRun(FatIn(s.Memory(), v), ops)
    decreases |ops|
  {
    if ops != [] {
      TableStepRefines(s, v, ops[0]);
      RoomyTableRefines(TableStep(s, v, ops[0]).0, v, ops[1..]);
    }
  }

  /** After a run that ends in a flush the words on the disk are the array. */
  lemma SyncedTableIsOnDisk(s: State, v: Volume, ops: seq<TableOp>)
    requires Ready(s, v) && Roomy(s, v)
    ensures var end := TableRun(s, v, ops).0;
            end.Valid() && HoldsTable(end.FlushFrom(0).disk, v)
            && FatIn(end.FlushFrom(0).disk, v) == ArrayRun(FatIn(s.Memory(), v), ops).0
  {
    RoomyTableRefines(s, v, ops);
    TableSyncRefines(TableRun(s, v, ops).0, v);
  }

  /** The four bytes of a word from position `at` on, least significant first. */
  predicate HasBytes(block: seq<byte>, at: int, word: u32) {
    && 0 <= at && at + 4 <= |block|
    && block[at] == word % 256 && block[at + 1] == word / 256 % 256
    && block[at + 2] == word / 256 / 256 % 256 && block[at + 3] == word / 256 / 256 / 256 % 256
  }

  /** The four bytes that are 4 * cluster bytes past the start of the table, of a disk in 512-byte sectors. */
  ghost predicate EntryIs(disk: Memory, v: Volume, cluster: u32, content: u32) {
    var t := v.tableAddress + cluster * 4 / 512;
    0 <= t < WORD && t in disk && HasBytes(disk[t], cluster * 4 % 512, content)
  }

  /** An entry that is written and flushed has its four bytes there. */
  lemma EntryBytesOnDisk(s: State, v: Volume, cluster: u32, content: u32)
    requires Ready(s, v) && Roomy(s, v) && cluster < v.tableSize * 128
    ensures EntryIs(TableWrite(s, v, cluster, content).FlushFrom(0).disk, v, cluster, content)
  {
    hide TableWrite, State.FlushFrom, WordAt, EntrySector, EntryOffset, EntryIs, FatIn;
    EntryByNumber(v, cluster);
    EntryWordOnDisk(s, v, cluster, content);
    EntryOfWord(TableWrite(s, v, cluster, content).FlushFrom(0).disk, v, cluster, content);
  }

  lemma EntryOfWord(disk: Memory, v: Volume, cluster: u32, content: u32)
    requires v.Valid() && cluster < v.tableSize * 128 && InTable(v, cluster)
    requires EntrySector(v, cluster) in disk && |disk[EntrySector(v, cluster)]| == 512
    requires WordAt(disk[EntrySector(v, cluster)], EntryOffset(cluster)) == content
    ensures EntryIs(disk, v, cluster, content)
  {
    EntryByNumber(v, cluster);
    WordBytes(disk[EntrySector(v, cluster)], EntryOffset(cluster), content);
    hide WordAt, EntrySector, EntryOffset, HasBytes;
  }

  lemma EntryByNumber(v: Volume, cluster: u32)
    requires v.Valid() && cluster < v.tableSize * 128
    ensures InTable(v, cluster) && EntrySector(v, cluster) == v.tableAddress + cluster * 4 / 512
    ensures EntryOffset(cluster) == cluster * 4 % 512
  {
    QuadDivMod(cluster);
  }

  lemma EntryWordOnDisk(s: State, v: Volume, cluster: u32, content: u32)
    requires Ready(s, v) && Roomy(s, v) && v.Valid() && InTable(v, cluster)
    ensures var disk, t := TableWrite(s, v, cluster, content).FlushFrom(0).disk, EntrySector(v, cluster);
            t in disk && |disk[t]| == 512 && WordAt(disk[t], EntryOffset(cluster)) == content
  {
    hide TableWrite, State.FlushFrom, State.Memory, FatIn, WordAt;
    var end := TableWrite(s, v, cluster, content);
    TableWriteRefines(s, v, cluster, content);
    TableSyncRefines(end, v);
    EntryWord(end.Memory(), v, cluster);
  }

  lemma WordBytes(block: seq<byte>, at: nat, word: u32)
    requires at + 4 <= |block| && WordAt(block, at) == word
    ensures HasBytes(block, at, word)
  {
    var b0: nat, b1: nat, b2: nat, b3: nat := block[at], block[at + 1], block[at + 2], block[at + 3];
    LastByte(word, b1 + 256 * b2 + 65536 * b3, b0);
    LastByte(b1 + 256 * b2 + 65536 * b3, b2 + 256 * b3, b1);
    LastByte(b2 + 256 * b3, b3, b2);
    LastByte(b3, 0, b3);
  }

  lemma LastByte(word: nat, rest: nat, last: nat)
    requires word == 256 * rest + last && last < 256
    ensures word % 256 == last && word / 256 == rest
  {}

  /** A newly mounted table: no line loaded. */
  ghost function MountedTable(disk: Memory, lines: nat): State {
    State(512, EmptyLines(lines), disk)
  }

  /** Writing an entry, reading one that is as many sectors away as there are lines, and reading
      the first again gives what was there before the write. */
  function ConflictingRun(lines: nat, content: u32): seq<TableOp>
    requires lines < 0x80_0000
  {
    [Save(0, content), Load(128 * lines), Load(0)]
  }

  /** The first entry that is as many sectors away as there are lines. */
  lemma FarEntry(v: Volume, lines: nat)
    requires v.Valid() && 0 < lines < v.tableSize
    ensures 128 * lines < 0x4000_0000 && v.tableAddress + lines < WORD
    ensures Slot(128 * lines) == 128 * lines && InTable(v, 128 * lines)
            && EntrySector(v, 128 * lines) == v.tableAddress + lines
    ensures Slot(0) == 0 && InTable(v, 0) && EntrySector(v, 0) == v.tableAddress
  {}

  /** The far sector displaces the written line, whose block on the disk is still the old one. */
  lemma WrittenLineIsLost(v: Volume, s1: State, lines: nat)
    requires s1.Coherent() && s1.blockSize == 512 && HoldsTable(s1.disk, v)
    requires 0 < lines == |s1.lines| < v.tableSize && s1.Holds(v.tableAddress)
    ensures var (s2, far) := TableRead(s1, v, 128 * lines);
            && s2.Valid() && far == FatIn(s1.disk, v)[128 * lines]
            && TableRead(s2, v, 0).1 == FatIn(s1.disk, v)[0]
  {
    hide TableRead, FatIn, State.Holds, EntrySector, InTable, WordAt;
    var a: u32, far: u32 := v.tableAddress, 128 * lines;
    FarEntry(v, lines);
    FarDisplaces(s1, a);
    var s2 := s1.Fetch(a + lines);
    assert s2.disk == s1.disk && s2.blockSize == 512 && |s2.lines| == lines;
    hide State.Fetch;
    UncachedRead(s1, v, far);
    UncachedRead(s2, v, 0);
  }

  /** Reading an entry of a sector that is not cached loads it and gives the disk's word. */
  lemma UncachedRead(s: State, v: Volume, cluster: u32)
    requires s.Coherent() && s.blockSize == 512 && HoldsTable(s.disk, v) && InTable(v, cluster)
    requires !s.Holds(EntrySector(v, cluster))
    ensures s.Fetch(EntrySector(v, cluster)).Coherent()
            && s.Fetch(EntrySector(v, cluster)).Holds(EntrySector(v, cluster))
    ensures TableRead(s, v, cluster) == (s.Fetch(EntrySector(v, cluster)), Get(FatIn(s.disk, v), cluster))
  {
    hide State.ReadLong;
    EntryPlace(v, cluster);
    EntryWord(s.disk, v, cluster);
    DisplacingRead(s, v.tableAddress, Wrap(cluster * 4));
  }

  lemma LargeTableLoses(v: Volume, disk: Memory, lines: nat, content: u32)
    requires 0 < lines < v.tableSize && NO_TAG !in disk && (forall t :: t in disk ==> |disk[t]| == 512)
    requires HoldsTable(disk, v)
    ensures MountedTable(disk, lines).Valid()
    ensures TableRun(MountedTable(disk, lines), v, ConflictingRun(lines, content)).1
         == [FatIn(disk, v)[128 * lines], FatIn(disk, v)[0]]
  {
    hide TableRead, TableWrite, TableRun, FatIn, State.Holds;
    var s0, ops := MountedTable(disk, lines), ConflictingRun(lines, content);
    EmptyIsDisk(512, lines, disk);
    FirstWriteIsCached(s0, v, content);
    var s1 := TableStep(s0, v, Save(0, content)).0;
    hide MountedTable, State.Coherent;
    WrittenLineIsLost(v, s1, lines);
    RunStep(s0, v, ops);
    assert ops[1..] == [Load(128 * lines), Load(0)];
    TwoLoads(s1, v, 128 * lines, 0);
  }

  lemma FirstWriteIsCached(s: State, v: Volume, content: u32)
    requires s.Coherent() && s.blockSize == 512 && HoldsTable(s.disk, v) && 0 < v.tableSize
    requires s.FetchSafe(v.tableAddress)
    ensures var s' := TableWrite(s, v, 0, content);
            s'.Coherent() && s'.Holds(v.tableAddress) && s' == s.(lines := s'.lines) && |s'.lines| == |s.lines|
  {
    EntryPlace(v, 0);
    hide State.WriteLong;
    WriteLongRefines(s, v.tableAddress, Wrap(0), content);
  }

  lemma RunStep(s: State, v: Volume, ops: seq<TableOp>)
    requires s.Valid() && ops != []
    ensures TableRun(s, v, ops).1 == TableStep(s, v, ops[0]).1 + TableRun(TableStep(s, v, ops[0]).0, v, ops[1..]).1
  {
    hide TableStep;
  }

  lemma TwoLoads(s: State, v: Volume, c: u32, d: u32)
    requires s.Valid()
    ensures var (s', r) := TableStep(s, v, Load(c));
            TableRun(s, v, [Load(c), Load(d)]).1 == r + TableStep(s', v, Load(d)).1
  {
    hide TableStep;
    var ops := [Load(c), Load(d)];
    var s' := TableStep(s, v, Load(c)).0;
    RunStep(s, v, ops);
    assert ops[1..] == [Load(d)];
    RunStep(s', v, [Load(d)]);
    assert [Load(d)][1..] == [];
  }

  /** Fetching the block that is as far away as there are lines displaces a held one. */
  lemma FarDisplaces(s: State, a: u32)
    requires s.Valid() && s.Holds(a) && a + |s.lines| < WORD
    ensures !s.Holds(a + |s.lines|)
    ensures s.Fetch(a + |s.lines|).Holds(a + |s.lines|) ==> !s.Fetch(a + |s.lines|).Holds(a)
  {
    SameResidue(a, |s.lines|);
  }

  lemma SameResidue(a: nat, n: nat)
    requires 0 < n
    ensures (a + n) % n == a % n
  {
    var q, r := a / n, a % n;
    assert a + n == n * (q + 1) + r by { assert n * (q + 1) == n * q + n; }
    DivModUnique(a + n, n, q + 1, r);
  }

  lemma DivModUnique(x: nat, n: nat, q: nat, r: nat)
    requires 0 < n && r < n && x == n * q + r
    ensures x % n == r
  {
    var q', r' := x / n, x % n;
    assert n * (q - q') == r' - r;
    if q - q' >= 1 {
      TimesMonotonic(1, q - q', n);
      assert false;
    } else if q - q' <= -1 {
      TimesMonotonic(q - q', -1, n);
      assert false;
    }
  }

  /** The exact condition: the cached table behaves as an array over all runs if and only if it
      has no more sectors than the cache has lines. */
  lemma TableIsArrayExactlyWhenRoomy(v: Volume, disk: Memory, lines: nat)
    requires 0 < lines < 0x80_0000 && NO_TAG !in disk && (forall t :: t in disk ==> |disk[t]| == 512)
    requires HoldsTable(disk, v)
    ensures MountedTable(disk, lines).Valid()
    ensures (forall ops :: TableRun(MountedTable(disk, lines), v, ops).1 == ArrayRun(FatIn(disk, v), ops).1)
       <==> v.tableSize <= lines
  {
    var s := MountedTable(disk, lines);
    EmptyIsDisk(512, lines, disk);
    if v.tableSize <= lines {
      forall ops
        ensures TableRun(s, v, ops).1 == ArrayRun(FatIn(disk, v), ops).1
      {
        RoomyTableRefines(s, v, ops);
      }
    } else {
      var fat := FatIn(disk, v);
      var content: u32 := if fat[0] == 0 then 1 else 0;
      var ops := ConflictingRun(lines, content);
      LargeTableLoses(v, disk, lines, content);
      ArrayKeepsWrite(fat, lines, content);
      hide TableRun, ArrayRun;
      assert TableRun(s, v, ops).1[1] != ArrayRun(fat, ops).1[1];
      assert TableRun(s, v, ops).1 != ArrayRun(fat, ops).1;
    }
  }

  lemma ArrayKeepsWrite(fat: Fat, lines: nat, content: u32)
    requires 0 < lines < 0x80_0000 && 0 < |fat|
    ensures var out := ArrayRun(fat, ConflictingRun(lines, content)).1; |out| == 2 && out[1] == content
  {
    var ops := ConflictingRun(lines, content);
    assert ops[1..] == [Load(128 * lines), Load(0)];
    assert [Load(128 * lines), Load(0)][1..] == [Load(0)];
    var put := Put(fat, 0, content);
    assert ArrayRun(put, [Load(0)]).1 == [content] by { assert [Load(0)][1..] == []; }
    assert ArrayRun(put, ops[1..]).1 == [Get(put, 128 * lines), content];
  }
}

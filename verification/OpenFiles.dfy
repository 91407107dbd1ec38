/** Open files over the volume (src/fs/fat32/file.c): every file has its own cluster cache, all of
    them share the disk. Byte access passes the whole file offset on top of the cluster found
    for it, so a file's bytes make sense while it stays inside one cluster. */
module OpenFiles {
  import opened Words
  import opened Device
  import opened Cache
  import opened BlockCache
  import opened FatArray

  const FAT_EOF: byte := 0x1a

  /** struct file: its first cluster, the size in its directory entry, its cache's lines. */
  datatype OpenFile = OpenFile(cluster: u32, size: u32, lines: seq<Line>)

  /** The file's cache over a disk seen as clusters. */
  ghost function Cached(v: Volume, disk: Memory, f: OpenFile): State {
    State(BlockBytes(v, Cluster), f.lines, disk)
  }

  /** file_open: as many lines as the entry's size needs clusters, and one more. */
  function Opened(v: Volume, cluster: u32, size: u32): OpenFile
    requires v.Valid()
  {
    OpenFile(cluster, size, EmptyLines(Quotient(size, BlockBytes(v, Cluster)) + 1))
  }

  /** file_readb, on a file with a proper cache. */
  ghost function ReadByte(v: Volume, fat: Fat, disk: Memory, f: OpenFile, offset: u32): (OpenFile, byte) {
    if !Cached(v, disk, f).Valid() then (f, 0)
    else if offset > f.size then (f, FAT_EOF)
    else
      var cluster := ChainRead(fat, f.cluster, Quotient(offset, BlockBytes(v, Cluster)));
      var (s, r) := Cached(v, disk, f).Access(cluster, offset, 0, Read);
      (f.(lines := s.lines), r)
  }

  /** The chain growth of file_writeb, reached once cluster_chain_get_len has returned one. */
  function GrownFor(v: Volume, fat: Fat, info: Info, start: u32, size: u32): (Fat, Info)
    requires v.Valid()
  {
    if Quotient(Wrap(size - 1), BlockBytes(v, Cluster)) + 1 > 1 then
      Grow(fat, info, v.clusterCount, start, Quotient(size, BlockBytes(v, Cluster)))
    else (fat, info)
  }

  /** file_writeb, on a file with a proper cache: the size, which a byte written at the size does not change
      (file.c:71-72), the chain, then the byte. */
  ghost function WriteByte(
    v: Volume, fat: Fat, info: Info, disk: Memory, f: OpenFile, offset: u32, value: byte): (Fat, Info, OpenFile)
  {
    if !v.Valid() || !Cached(v, disk, f).Valid() then (fat, info, f)
    else
    var size := if offset > f.size then offset else f.size;
    var (fat', info') := GrownFor(v, fat, info, f.cluster, size);
    var cluster := ChainRead(fat', f.cluster, Quotient(offset, BlockBytes(v, Cluster)));
    (fat', info', f.(size := size, lines := Cached(v, disk, f).Access(cluster, offset, value, Write).0.lines))
  }

  /** A file inside one data cluster: its chain ends at once and only that cluster is cached. */
  ghost predicate InOneCluster(v: Volume, fat: Fat, disk: Memory, f: OpenFile) {
    && v.Valid() && Cached(v, disk, f).Coherent()
    && 2 <= f.cluster < EOC1 && f.cluster in disk && EndOfChain(Get(fat, f.cluster))
    && f.size <= BlockBytes(v, Cluster)
    && forall i :: 0 <= i < |f.lines| && f.lines[i].valid ==> f.lines[i].tag == f.cluster
  }

  /** The bytes of such a file: the cached block, or the cluster on the disk. */
  ghost function Contents(v: Volume, disk: Memory, f: OpenFile): seq<byte> {
    if f.cluster !in disk then []
    else if Cached(v, disk, f).Holds(f.cluster) then f.lines[f.cluster % |f.lines|].data
    else disk[f.cluster]
  }

  lemma OwnBlock(v: Volume, fat: Fat, disk: Memory, f: OpenFile, offset: u32)
    requires InOneCluster(v, fat, disk, f) && offset < BlockBytes(v, Cluster)
    ensures ChainRead(fat, f.cluster, Quotient(offset, BlockBytes(v, Cluster))) == f.cluster
    ensures Cached(v, disk, f).Tag(f.cluster, offset) == f.cluster && offset % BlockBytes(v, Cluster) == offset
    ensures Cached(v, disk, f).FetchSafe(f.cluster)
    ensures |Contents(v, disk, f)| == BlockBytes(v, Cluster)
  {
    var n := BlockBytes(v, Cluster);
    SmallDivMod(offset, n);
    WrapSmall(f.cluster);
  }

  lemma SmallDivMod(x: nat, n: nat)
    requires x < n
    ensures x / n == 0 && x % n == x
  {}

  /** A byte read inside the cluster gives the end mark past the size, else the file's byte;
      the file's bytes stay. */
  lemma ReadByteInside(v: Volume, fat: Fat, disk: Memory, f: OpenFile, offset: u32)
    requires InOneCluster(v, fat, disk, f) && offset < BlockBytes(v, Cluster)
    ensures |Contents(v, disk, f)| == BlockBytes(v, Cluster)
    ensures var (f', r) := ReadByte(v, fat, disk, f, offset);
            && InOneCluster(v, fat, disk, f') && f' == f.(lines := f'.lines)
            && Contents(v, disk, f') == Contents(v, disk, f)
            && r == if offset > f.size then FAT_EOF else Contents(v, disk, f)[offset]
  {
    OwnBlock(v, fat, disk, f, offset);
    var s := Cached(v, disk, f);
    Cache.ReadRefines(s, f.cluster, offset);
    FetchReplaces(s, f.cluster);
  }

  lemma OwnSize(v: Volume, fat: Fat, disk: Memory, f: OpenFile)
    requires InOneCluster(v, fat, disk, f)
    ensures f.cluster in disk && |Contents(v, disk, f)| == BlockBytes(v, Cluster) < WORD
  {}

  /** file_read: n byte reads, with offsets that wrap. */
  ghost function ReadBytes(
    v: Volume, fat: Fat, disk: Memory, f: OpenFile, offset: u32, n: nat): (r: (OpenFile, seq<byte>))
    ensures |r.1| == n
  {
    if n == 0 then (f, [])
    else
      var (f1, bytes) := ReadBytes(v, fat, disk, f, offset, n - 1);
      var (f2, b) := ReadByte(v, fat, disk, f1, Wrap(offset + n - 1));
      (f2, bytes + [b])
  }

  lemma NextRead(v: Volume, fat: Fat, disk: Memory, f: OpenFile, offset: u32, n: nat)
    ensures var (f1, bytes) := ReadBytes(v, fat, disk, f, offset, n);
            var (f2, b) := ReadByte(v, fat, disk, f1, Wrap(offset + n));
            ReadBytes(v, fat, disk, f, offset, n + 1) == (f2, bytes + [b])
  {
    hide ReadByte;
  }

  /** Inside the cluster they are the file's bytes, and end marks past the size. */
  lemma {:induction false} ReadBytesInside(v: Volume, fat: Fat, disk: Memory, f: OpenFile, offset: u32, n: nat)
    requires InOneCluster(v, fat, disk, f) && offset + n <= BlockBytes(v, Cluster)
    ensures |Contents(v, disk, f)| == BlockBytes(v, Cluster) < WORD
    ensures var (f', bytes) := ReadBytes(v, fat, disk, f, offset, n);
            && InOneCluster(v, fat, disk, f') && f' == f.(lines := f'.lines)
            && Contents(v, disk, f') == Contents(v, disk, f)
            && forall i :: 0 <= i < n ==>
               bytes[i] == if offset + i > f.size then FAT_EOF else Contents(v, disk, f)[offset + i]
    decreases n
  {
    hide InOneCluster, Contents, ReadByte, Wrap;
    OwnSize(v, fat, disk, f);
    if n > 0 {
      hide ReadBytes;
      ReadBytesInside(v, fat, disk, f, offset, n - 1);
      WrapSmall(offset + n - 1);
      NextRead(v, fat, disk, f, offset, n - 1);
      ReadByteInside(v, fat, disk, ReadBytes(v, fat, disk, f, offset, n - 1).0, offset + n - 1);
    }
  }

  /** A byte write inside the cluster changes that byte and the size, and neither the chain
      nor the free space. */
  lemma WriteByteInside(v: Volume, fat: Fat, info: Info, disk: Memory, f: OpenFile, offset: u32, value: byte)
    requires InOneCluster(v, fat, disk, f) && offset < BlockBytes(v, Cluster)
    ensures |Contents(v, disk, f)| == BlockBytes(v, Cluster)
    ensures var (fat', info', f') := WriteByte(v, fat, info, disk, f, offset, value);
            && fat' == fat && info' == info
            && InOneCluster(v, fat, disk, f') && f'.cluster == f.cluster && f'.size == Max(f.size, offset)
            && Contents(v, disk, f') == Poke(Contents(v, disk, f), offset, value)
  {
    OwnBlock(v, fat, disk, f, offset);
    NoGrowthInside(v, fat, info, f.cluster, Max(f.size, offset));
    Cache.WriteRefines(Cached(v, disk, f), f.cluster, offset, value);
  }

  lemma NoGrowthInside(v: Volume, fat: Fat, info: Info, start: u32, size: u32)
    requires v.Valid() && size <= BlockBytes(v, Cluster)
    ensures GrownFor(v, fat, info, start, size) == (fat, info)
  {
    if size != 0 {
      WrapSmall(size - 1);
    }
  }

  // Several files: runs of open, read, write and close. A file is known by its cluster, which it
  // shares with no other open file.

  datatype FileOp = Open(cluster: u32, size: u32)
                  | WriteAt(cluster: u32, offset: u32, value: byte)
                  | ReadAt(cluster: u32, offset: u32)
                  | Close(cluster: u32)

  /** The table as an array, the disk, and the files open on it. */
  datatype Storage = Storage(volume: Volume, fat: Fat, info: Info, bytes: seq<byte>, files: map<u32, OpenFile>) {
    ghost function Disk(): Memory { Blocks(volume, Cluster, bytes) }
  }

  /** Every open file lives in one cluster of its own. */
  ghost predicate Separate(st: Storage) {
    && Mounted(st.volume, st.bytes)
    && forall c :: c in st.files ==> InOneCluster(st.volume, st.fat, st.Disk(), st.files[c]) && st.files[c].cluster == c
  }

  /** What the caller owes: an open names an unshared data cluster with an end mark, and at most
      its size; accesses stay inside the cluster of an open file. */
  ghost predicate Allowed(st: Storage, op: FileOp) {
    match op
    case Open(c, size) =>
      && c !in st.files && 2 <= c < EOC1 && c in st.Disk() && EndOfChain(Get(st.fat, c))
      && size <= BlockBytes(st.volume, Cluster)
    case WriteAt(c, offset, _) => c in st.files && offset < BlockBytes(st.volume, Cluster)
    case ReadAt(c, offset) => c in st.files && offset < BlockBytes(st.volume, Cluster)
    case Close(c) => c in st.files
  }

  /** One operation; what is not allowed is outside the model and does nothing. */
  ghost function Perform(st: Storage, op: FileOp): (Storage, seq<byte>) {
    var v, disk := st.volume, st.Disk();
    if !(Separate(st) && Allowed(st, op)) then (st, [])
    else match op
      case Open(c, size) => (st.(files := st.files[c := Opened(v, c, size)]), [])
      case WriteAt(c, offset, value) =>
        var (fat, info, f) := WriteByte(v, st.fat, st.info, disk, st.files[c], offset, value);
        (st.(fat := fat, info := info, files := st.files[c := f]), [])
      case ReadAt(c, offset) =>
        var (f, r) := ReadByte(v, st.fat, disk, st.files[c], offset);
        (st.(files := st.files[c := f]), [r])
      case Close(c) =>
        (st.(bytes := FlushBytes(v, Cluster, st.files[c].lines, st.bytes, 0), files := st.files - {c}), [])
  }

  /** The specification: clusters are flat sequences of bytes, an open file is a cluster with a
      size, and closing is not visible. */
  datatype Ideal = Ideal(clusters: Memory, sizes: map<u32, u32>)

  ghost predicate Addresses(m: Ideal, c: u32, offset: u32) {
    c in m.sizes && c in m.clusters && offset < |m.clusters[c]|
  }

  ghost function IdealStep(m: Ideal, op: FileOp): (Ideal, seq<byte>) {
    match op
    case Open(c, size) => (m.(sizes := m.sizes[c := size]), [])
    case WriteAt(c, offset, value) =>
      if !Addresses(m, c, offset) then (m, [])
      else (Ideal(m.clusters[c := Poke(m.clusters[c], offset, value)], m.sizes[c := Max(m.sizes[c], offset)]), [])
    case ReadAt(c, offset) =>
      if !Addresses(m, c, offset) then (m, [])
      else (m, [if offset > m.sizes[c] then FAT_EOF else m.clusters[c][offset]])
    case Close(c) => (m.(sizes := m.sizes - {c}), [])
  }

  /** The bytes of a cluster: an open file's own view of it, or the disk's. */
  ghost function BytesOf(st: Storage, c: u32): seq<byte> {
    if c in st.files then Contents(st.volume, st.Disk(), st.files[c]) else if c in st.Disk() then st.Disk()[c] else []
  }

  /** What a storage stands for. */
  ghost function Meaning(st: Storage): Ideal {
    Ideal(imap c: u32 | c in st.Disk() :: BytesOf(st, c), map c | c in st.files :: st.files[c].size)
  }

  /** Two storages stand for the same when they agree on every cluster and every open file. */
  lemma MeaningIs(st: Storage, m: Ideal)
    requires forall c :: c in m.clusters <==> c in st.Disk()
    requires forall c :: c in st.Disk() ==> m.clusters[c] == BytesOf(st, c)
    requires m.sizes.Keys == st.files.Keys && forall c :: c in st.files ==> m.sizes[c] == st.files[c].size
    ensures Meaning(st) == m
  {
    hide BytesOf;
    assert Meaning(st).clusters == m.clusters;
    assert Meaning(st).sizes == m.sizes;
  }

  /** Nothing below the data region changes: not the tables, not the boot record. */
  predicate SameTables(v: Volume, before: seq<byte>, after: seq<byte>) {
    |before| == |after| && forall k :: 0 <= k < v.dataRegion * SECTOR_SIZE && k < |before| ==> after[k] == before[k]
  }

  /** Opening a file, or moving one that is open to a new size and new bytes. */
  lemma SetFile(st: Storage, f: OpenFile)
    requires Separate(st) && InOneCluster(st.volume, st.fat, st.Disk(), f)
    ensures var st', m, c := st.(files := st.files[f.cluster := f]), Meaning(st), f.cluster;
            && Separate(st')
            && Meaning(st') == Ideal(m.clusters[c := Contents(st.volume, st.Disk(), f)], m.sizes[c := f.size])
  {
    assert f.cluster in st.Disk();
    SetMeaning(st, f);
    hide InOneCluster, Contents, Blocks, Mounted, Meaning;
  }

  lemma SetMeaning(st: Storage, f: OpenFile)
    requires f.cluster in st.Disk()
    ensures var st', m, c := st.(files := st.files[f.cluster := f]), Meaning(st), f.cluster;
            Meaning(st') == Ideal(m.clusters[c := Contents(st.volume, st.Disk(), f)], m.sizes[c := f.size])
  {
    hide Contents, Blocks;
    var st', m, c := st.(files := st.files[f.cluster := f]), Meaning(st), f.cluster;
    MeaningIs(st', Ideal(m.clusters[c := Contents(st.volume, st.Disk(), f)], m.sizes[c := f.size]));
  }

  /** A newly opened file has the bytes of its cluster. */
  lemma OpenedInside(v: Volume, fat: Fat, disk: Memory, c: u32, size: u32)
    requires v.Valid() && NO_TAG !in disk && 2 <= c < EOC1 && EndOfChain(Get(fat, c))
    requires BlocksSized(disk, BlockBytes(v, Cluster)) && BlockBytes(v, Cluster) < WORD
    requires c in disk && size <= BlockBytes(v, Cluster)
    ensures InOneCluster(v, fat, disk, Opened(v, c, size)) && Contents(v, disk, Opened(v, c, size)) == disk[c]
  {
    hide Quotient;
    OneLineAtLeast(size, BlockBytes(v, Cluster));
    EmptyIsDisk(BlockBytes(v, Cluster), |Opened(v, c, size).lines|, disk);
  }

  lemma OneLineAtLeast(size: u32, n: nat)
    requires n >= 2
    ensures 0 < Quotient(size, n) + 1 < WORD
  {
    var q, r := size / n, size % n;
    assert size == n * q + r;
    if q > 0 {
      TimesMonotonic(2, n, q);
    }
  }

  /** Flushing a file's cache puts its bytes in its cluster, and writes nothing else. */
  lemma FlushOwn(v: Volume, fat: Fat, disk: Memory, f: OpenFile)
    requires InOneCluster(v, fat, disk, f)
    ensures Cached(v, disk, f).FlushFrom(0).disk == disk[f.cluster := Contents(v, disk, f)]
  {
    var s := Cached(v, disk, f);
    FlushPublishes(s);
    hide State.FlushFrom;
    forall c | c in disk
      ensures s.Memory()[c] == if c == f.cluster then Contents(v, disk, f) else disk[c]
    {
      HeldIsOwn(v, fat, disk, f, c);
    }
  }

  /** Closing one file: its cluster on the disk becomes its bytes, nothing else on it changes. */
  lemma ClosedDisk(v: Volume, fat: Fat, bytes: seq<byte>, f: OpenFile)
    requires Mounted(v, bytes) && InOneCluster(v, fat, Blocks(v, Cluster, bytes), f)
    ensures var bytes', disk := FlushBytes(v, Cluster, f.lines, bytes, 0), Blocks(v, Cluster, bytes);
            && Mounted(v, bytes') && SameTables(v, bytes, bytes')
            && Blocks(v, Cluster, bytes') == disk[f.cluster := Contents(v, disk, f)]
  {
    FlushBytesIsFlush(v, Cluster, f.lines, bytes, 0);
    ClusterFlushSparesTables(v, f.lines, bytes, 0);
    hide Blocks, FlushBytes, State.FlushFrom;
    FlushOwn(v, fat, Blocks(v, Cluster, bytes), f);
    hide InOneCluster, Contents;
  }

  lemma CloseFile(st: Storage, c: u32, bytes': seq<byte>)
    requires Separate(st) && c in st.files && Mounted(st.volume, bytes')
    requires Blocks(st.volume, Cluster, bytes') == st.Disk()[c := Contents(st.volume, st.Disk(), st.files[c])]
    ensures var st' := st.(bytes := bytes', files := st.files - {c});
            Separate(st') && Meaning(st') == Meaning(st).(sizes := Meaning(st).sizes - {c})
  {
    var st' := st.(bytes := bytes', files := st.files - {c});
    var disk, disk' := st.Disk(), st'.Disk();
    OwnSize(st.volume, st.fat, disk, st.files[c]);
    MountedBlocks(st.volume, Cluster, bytes');
    hide Blocks;
    forall d | d in st'.files
      ensures InOneCluster(st.volume, st.fat, disk', st.files[d])
      ensures Contents(st.volume, disk', st.files[d]) == Contents(st.volume, disk, st.files[d])
    {
      OtherFileUnmoved(st.volume, st.fat, disk, disk', st.files[d]);
    }
    hide InOneCluster, Contents, Mounted;
    CloseMeaning(st, c, bytes');
    hide Meaning;
  }

  lemma CloseMeaning(st: Storage, c: u32, bytes': seq<byte>)
    requires c in st.files && c in st.Disk()
    requires Blocks(st.volume, Cluster, bytes') == st.Disk()[c := Contents(st.volume, st.Disk(), st.files[c])]
    requires forall d :: d in st.files && d != c ==>
               Contents(st.volume, Blocks(st.volume, Cluster, bytes'), st.files[d]) ==
                 Contents(st.volume, st.Disk(), st.files[d])
    ensures var st' := st.(bytes := bytes', files := st.files - {c});
            Meaning(st') == Meaning(st).(sizes := Meaning(st).sizes - {c})
  {
    hide Contents, Blocks;
    MeaningIs(st.(bytes := bytes', files := st.files - {c}), Meaning(st).(sizes := Meaning(st).sizes - {c}));
  }

  lemma HeldIsOwn(v: Volume, fat: Fat, disk: Memory, f: OpenFile, c: u32)
    requires InOneCluster(v, fat, disk, f) && c in disk
    ensures Cached(v, disk, f).Memory()[c] == if c == f.cluster then Contents(v, disk, f) else disk[c]
  {
    IndexInRange(Cached(v, disk, f), c);
  }

  lemma OtherFileUnmoved(v: Volume, fat: Fat, disk: Memory, disk': Memory, g: OpenFile)
    requires InOneCluster(v, fat, disk, g)
    requires forall c :: c in disk' <==> c in disk
    requires forall c :: c in disk ==> |disk'[c]| == BlockBytes(v, Cluster)
    requires disk'[g.cluster] == disk[g.cluster]
    ensures InOneCluster(v, fat, disk', g) && Contents(v, disk', g) == Contents(v, disk, g)
  {}

  ghost predicate Refines(st: Storage, op: FileOp) {
    var (st', out) := Perform(st, op);
    && Separate(st') && (Meaning(st'), out) == IdealStep(Meaning(st), op)
    && st' == st.(bytes := st'.bytes, files := st'.files) && SameTables(st.volume, st.bytes, st'.bytes)
  }

  lemma OpenRefines(st: Storage, c: u32, size: u32)
    requires Separate(st) && Allowed(st, Open(c, size))
    ensures Refines(st, Open(c, size))
  {
    MountedBlocks(st.volume, Cluster, st.bytes);
    OpenedInside(st.volume, st.fat, st.Disk(), c, size);
    hide Opened, InOneCluster, Contents, Blocks, Mounted;
    SetFile(st, Opened(st.volume, c, size));
    SameEntry(Meaning(st), c);
  }

  lemma SameEntry(m: Ideal, c: u32)
    ensures c in m.clusters ==> m.clusters[c := m.clusters[c]] == m.clusters
    ensures c in m.sizes ==> m.sizes[c := m.sizes[c]] == m.sizes
  {}

  lemma WriteRefines(st: Storage, c: u32, offset: u32, value: byte)
    requires Separate(st) && Allowed(st, WriteAt(c, offset, value))
    ensures Refines(st, WriteAt(c, offset, value))
  {
    WriteByteInside(st.volume, st.fat, st.info, st.Disk(), st.files[c], offset, value);
    OwnSize(st.volume, st.fat, st.Disk(), st.files[c]);
    var f := WriteByte(st.volume, st.fat, st.info, st.Disk(), st.files[c], offset, value).2;
    hide WriteByte, InOneCluster, Contents, Blocks, Mounted;
    SetFile(st, f);
  }

  lemma ReadRefines(st: Storage, c: u32, offset: u32)
    requires Separate(st) && Allowed(st, ReadAt(c, offset))
    ensures Refines(st, ReadAt(c, offset))
  {
    ReadByteInside(st.volume, st.fat, st.Disk(), st.files[c], offset);
    OwnSize(st.volume, st.fat, st.Disk(), st.files[c]);
    var f := ReadByte(st.volume, st.fat, st.Disk(), st.files[c], offset).0;
    hide ReadByte, InOneCluster, Contents, Blocks, Mounted;
    SetFile(st, f);
    SameEntry(Meaning(st), c);
  }

  lemma CloseRefines(st: Storage, c: u32)
    requires Separate(st) && Allowed(st, Close(c))
    ensures Refines(st, Close(c))
  {
    ClosedDisk(st.volume, st.fat, st.bytes, st.files[c]);
    hide InOneCluster, Contents, Blocks, Mounted, FlushBytes;
    CloseFile(st, c, FlushBytes(st.volume, Cluster, st.files[c].lines, st.bytes, 0));
  }

  /** One allowed operation does to the storage what it does to the ideal. */
  lemma PerformRefines(st: Storage, op: FileOp)
    requires Separate(st) && Allowed(st, op)
    ensures Refines(st, op)
  {
    match op
    case Open(c, size) => OpenRefines(st, c, size);
    case WriteAt(c, offset, value) => WriteRefines(st, c, offset, value);
    case ReadAt(c, offset) => ReadRefines(st, c, offset);
    case Close(c) => CloseRefines(st, c);
  }

  ghost predicate AllowedRun(st: Storage, ops: seq<FileOp>)
    decreases |ops|
  {
    ops == [] || (Allowed(st, ops[0]) && AllowedRun(Perform(st, ops[0]).0, ops[1..]))
  }

  ghost function PerformAll(st: Storage, ops: seq<FileOp>): (Storage, seq<byte>)
    decreases |ops|
  {
    if ops == [] then (st, [])
    else
      var (st', out) := Perform(st, ops[0]);
      var (end, rest) := PerformAll(st', ops[1..]);
      (end, out + rest)
  }

  ghost function IdealAll(m: Ideal, ops: seq<FileOp>): (Ideal, seq<byte>)
    decreases |ops|
  {
    if ops == [] then (m, [])
    else
      var (m', out) := IdealStep(m, ops[0]);
      var (end, rest) := IdealAll(m', ops[1..]);
      (end, out + rest)
  }

  /** Over every allowed run of opens, reads, writes and closes of any number of files: each read
      gives the bytes last written through this or an earlier opening, or the original ones; the
      table, the free-space fields and everything below the data region stay as they were. */
  lemma {:induction false} FilesRefineClusters(st: Storage, ops: seq<FileOp>)
    requires Separate(st) && AllowedRun(st, ops)
    ensures var (end, out) := PerformAll(st, ops);
            && Separate(end) && (Meaning(end), out) == IdealAll(Meaning(st), ops)
            && end == st.(bytes := end.bytes, files := end.files) && SameTables(st.volume, st.bytes, end.bytes)
    decreases |ops|
  {
    hide Perform, IdealStep, Meaning, Separate, Allowed;
    if ops != [] {
      PerformRefines(st, ops[0]);
      FilesRefineClusters(Perform(st, ops[0]).0, ops[1..]);
    }
  }

  /** Once no file is open on it the disk holds the ideal cluster: what read_cluster returns is
      what was last written to it, and a cluster never written is as it was. */
  lemma ClosedFileIsOnDisk(st: Storage, ops: seq<FileOp>, c: u32)
    requires Separate(st) && AllowedRun(st, ops) && c in st.Disk() && c !in PerformAll(st, ops).0.files
    ensures var m, bytes := Meaning(st), PerformAll(st, ops).0.bytes;
            && c in IdealAll(m, ops).0.clusters
            && ReadBlock(st.volume, Cluster, bytes, c) == Some(IdealAll(m, ops).0.clusters[c])
            && ((forall i :: 0 <= i < |ops| && ops[i].WriteAt? ==> ops[i].cluster != c) ==>
                  ReadBlock(st.volume, Cluster, bytes, c) == Some(m.clusters[c]))
  {
    FilesRefineClusters(st, ops);
    IdealKeepsCluster(Meaning(st), ops, c);
  }

  /** A cluster never goes away, and changes only by writes to it. */
  lemma {:induction false} IdealKeepsCluster(m: Ideal, ops: seq<FileOp>, c: u32)
    requires c in m.clusters
    ensures c in IdealAll(m, ops).0.clusters
    ensures (forall i :: 0 <= i < |ops| && ops[i].WriteAt? ==> ops[i].cluster != c) ==>
              IdealAll(m, ops).0.clusters[c] == m.clusters[c]
    decreases |ops|
  {
    if ops != [] {
      IdealKeepsCluster(IdealStep(m, ops[0]).0, ops[1..], c);
    }
  }

  // Beyond the first cluster.

  /** The block an access reaches on a chain, for every offset: the number of the cluster that
      cluster_chain_read gives, which is the last one for an offset past the chain, plus the
      quotient. It is the cluster that holds the byte exactly for offsets inside the first one
      (file.c:44-45, cache.c:52). */
  lemma ReachesOwnClusterExactly(v: Volume, fat: Fat, path: seq<u32>, offset: u32)
    requires v.Valid() && IsChain(fat, path)
    ensures var n := BlockBytes(v, Cluster); var k := Quotient(offset, n);
            var reached := BlockOf(n, ChainRead(fat, path[0], k), offset);
            && reached == Wrap(path[Min(k, |path| - 1)] + k)
            && (k < |path| && reached == path[k] <==> offset < n)
  {
    var k := Quotient(offset, BlockBytes(v, Cluster));
    ChainReadIsElement(fat, path, k);
    WrapMoves(path[Min(k, |path| - 1)], k);
  }

  /** That block, on a chain. */
  function Reached(v: Volume, path: seq<u32>, offset: u32): u32
    requires v.Valid() && path != []
  {
    var k := Quotient(offset, BlockBytes(v, Cluster));
    Wrap(path[Min(k, |path| - 1)] + k)
  }

  ghost predicate IsByteOf(m: Memory, block: u32, at: int, b: byte) {
    block in m && 0 <= at < |m[block]| && m[block][at] == b
  }

  /** A byte read on a chain: the end mark past the size; else, at any offset, one access to the cache through
      the chain's element; when nothing unwritten is displaced, it gives the byte of that block and changes
      nothing. */
  lemma ReadByteOnChain(v: Volume, fat: Fat, disk: Memory, f: OpenFile, path: seq<u32>, offset: u32)
    requires v.Valid() && Cached(v, disk, f).Valid() && IsChain(fat, path) && path[0] == f.cluster
    ensures var n, s := BlockBytes(v, Cluster), Cached(v, disk, f);
            var (s', r) := s.Access(path[Min(Quotient(offset, n), |path| - 1)], offset, 0, Read);
            ReadByte(v, fat, disk, f, offset) == if offset > f.size then (f, FAT_EOF) else (f.(lines := s'.lines), r)
    ensures var n, s, block := BlockBytes(v, Cluster), Cached(v, disk, f), Reached(v, path, offset);
            var (f', r) := ReadByte(v, fat, disk, f, offset);
            offset <= f.size && s.Coherent() && s.FetchSafe(block) && block in disk ==>
              && Cached(v, disk, f').Coherent() && Cached(v, disk, f').Memory() == s.Memory()
              && IsByteOf(s.Memory(), block, offset % n, r)
  {
    var k := Quotient(offset, BlockBytes(v, Cluster));
    ChainReadIsElement(fat, path, k);
    var s := Cached(v, disk, f);
    hide State.Access, State.FetchSafe, State.Coherent, IsChain;
    if s.Coherent() && s.FetchSafe(Reached(v, path, offset)) {
      Cache.ReadRefines(s, path[Min(k, |path| - 1)], offset);
    }
  }

  /** A byte write on the chain that it leaves: the larger of size and offset, and one access through the
      chain's element; when nothing unwritten is displaced, it changes that byte of that block only. */
  lemma WriteByteOnChain(
    v: Volume, fat: Fat, info: Info, disk: Memory, f: OpenFile, path: seq<u32>, offset: u32, value: byte)
    requires v.Valid() && Cached(v, disk, f).Valid() && path != [] && path[0] == f.cluster
    requires IsChain(WriteByte(v, fat, info, disk, f, offset, value).0, path)
    ensures var n, s := BlockBytes(v, Cluster), Cached(v, disk, f);
            var s' := s.Access(path[Min(Quotient(offset, n), |path| - 1)], offset, value, Write).0;
            WriteByte(v, fat, info, disk, f, offset, value).2 == OpenFile(f.cluster, Max(f.size, offset), s'.lines)
    ensures var n, s, block := BlockBytes(v, Cluster), Cached(v, disk, f), Reached(v, path, offset);
            var f' := WriteByte(v, fat, info, disk, f, offset, value).2;
            s.Coherent() && s.FetchSafe(block) && block in disk ==>
              && Cached(v, disk, f').Coherent() && |s.Memory()[block]| == n
              && Cached(v, disk, f').Memory() == s.Memory()[block := Poke(s.Memory()[block], offset % n, value)]
  {
    var k := Quotient(offset, BlockBytes(v, Cluster));
    ChainReadIsElement(WriteByte(v, fat, info, disk, f, offset, value).0, path, k);
    var s := Cached(v, disk, f);
    hide State.Access, State.FetchSafe, State.Coherent, IsChain, GrownFor;
    if s.Coherent() && s.FetchSafe(Reached(v, path, offset)) {
      PutRefines(s, path[Min(k, |path| - 1)], offset, value);
    }
  }

  /** A file is opened with exactly as many lines as it takes blocks to reach its size. */
  lemma LinesCoverSize(v: Volume, cluster: u32, size: u32)
    requires v.Valid()
    ensures var f, n := Opened(v, cluster, size), BlockBytes(v, Cluster);
            && f.cluster == cluster && f.size == size && (|f.lines| - 1) * n <= size < |f.lines| * n
            && forall i :: 0 <= i < |f.lines| ==> !f.lines[i].valid
  {
    var n := BlockBytes(v, Cluster);
    var q, r := size / n, size % n;
    assert size == q * n + r && (q + 1) * n == q * n + n;
  }

  lemma WrapMoves(x: u32, k: u32)
    ensures Wrap(x + k) == x <==> k == 0
  {}

  // Growth: what file_writeb does to the chain of a file that leaves its cluster.

  /** The clusters that a write of a one-cluster file links behind the first: none while the size is at
      most a cluster, else as many as whole clusters are in it (file.c:75-77). */
  function Linked(v: Volume, fat: Fat, info: Info, size: u32): seq<u32>
    requires v.Valid()
    requires size > BlockBytes(v, Cluster) ==>
               Quotient(size, BlockBytes(v, Cluster)) <= |FreeList(fat, info.hint, v.clusterCount)|
  {
    if size <= BlockBytes(v, Cluster) then []
    else FreeList(fat, info.hint, v.clusterCount)[..Quotient(size, BlockBytes(v, Cluster))]
  }

  /** A write of a one-cluster file, with enough free clusters, links size / cluster size of them
      behind the first, in increasing order, all marked, when the new size exceeds a cluster, and none
      otherwise; every other chain of the volume stays as it was. After that cluster_chain_get_len
      still returns exactly when nothing was linked. */
  lemma WriteGrowsChain(
    v: Volume, fat: Fat, info: Info, disk: Memory, f: OpenFile, offset: u32, value: byte,
    chains: seq<seq<u32>>, m: nat)
    requires v.Valid() && Cached(v, disk, f).Valid()
    requires Family(fat, chains) && m < |chains| && chains[m] == [f.cluster]
    requires Max(f.size, offset) > BlockBytes(v, Cluster) ==>
               Growable(fat, info, v.clusterCount, f.cluster,
                        Quotient(Max(f.size, offset), BlockBytes(v, Cluster)))
    ensures var (fat', info', f') := WriteByte(v, fat, info, disk, f, offset, value);
            var added := Linked(v, fat, info, Max(f.size, offset));
            && IsChain(fat', [f.cluster] + added) && Family(fat', chains[m := [f.cluster] + added])
            && info'.freeCount == info.freeCount - |added|
            && (LengthKnown(fat', f.cluster) <==> Max(f.size, offset) <= BlockBytes(v, Cluster))
  {
    var size, n := Max(f.size, offset), BlockBytes(v, Cluster);
    if size <= n {
      NoGrowthInside(v, fat, info, f.cluster, size);
      assert [f.cluster] + [] == [f.cluster] && chains[m := [f.cluster]] == chains;
    } else {
      GrowsBeyond(v, fat, info, f.cluster, size, chains, m);
    }
    hide FreeList, IsChain, Family, Growable, ChainRead;
  }

  lemma GrowsBeyond(v: Volume, fat: Fat, info: Info, start: u32, size: u32, chains: seq<seq<u32>>, m: nat)
    requires v.Valid() && size > BlockBytes(v, Cluster)
    requires Family(fat, chains) && m < |chains| && chains[m] == [start]
    requires Growable(fat, info, v.clusterCount, start, Quotient(size, BlockBytes(v, Cluster)))
    ensures var (fat', info') := GrownFor(v, fat, info, start, size);
            var added := Linked(v, fat, info, size);
            && |added| == Quotient(size, BlockBytes(v, Cluster)) >= 1
            && IsChain(fat', [start] + added) && Family(fat', chains[m := [start] + added])
            && info'.freeCount == info.freeCount - |added|
            && !LengthKnown(fat', start)
  {
    var k := Quotient(size, BlockBytes(v, Cluster));
    WrapSmall(size - 1);
    var (fat', info') := GrownFor(v, fat, info, start, size);
    GrowKeepsFamily(fat, info, v.clusterCount, chains, m, k);
    GrowSpends(fat, info, v.clusterCount, start, k);
    GrowAppends(fat, info, v.clusterCount, start, k);
    var path := [start] + Linked(v, fat, info, size);
    assert Get(fat', path[0]) == path[1] && path[1] < EOC1;
  }

  /** After the write the chain has a cluster for the byte written, with enough free clusters, except
      for the first byte beyond the cluster: the guard at file.c:75 sees a size that still fits. */
  lemma ChainCoversWriteExactly(v: Volume, fat: Fat, info: Info, f: OpenFile, offset: u32)
    requires v.Valid()
    requires var size := Max(f.size, offset);
             size > BlockBytes(v, Cluster) ==>
               Quotient(size, BlockBytes(v, Cluster)) <= |FreeList(fat, info.hint, v.clusterCount)|
    ensures var n := BlockBytes(v, Cluster);
            Quotient(offset, n) < |[f.cluster] + Linked(v, fat, info, Max(f.size, offset))|
            <==> !(offset == n && f.size <= n)
  {
    var n, size := BlockBytes(v, Cluster), Max(f.size, offset);
    if size > n {
      QuotientMonotonic(offset, size, n);
    }
    hide FreeList;
  }

  lemma QuotientMonotonic(x: u32, y: u32, n: nat)
    requires n > 0 && x <= y
    ensures Quotient(x, n) <= Quotient(y, n)
  {
    var p, q := x / n, y / n;
    assert x == n * p + x % n && y == n * q + y % n;
    if p > q {
      TimesMonotonic(q + 1, p, n);
    }
  }

  /** That first byte beyond the cluster of a file inside one: the size becomes a full cluster, nothing
      is linked, and the byte goes to the start of the block after the file's cluster, whosever it is.
      Closing then publishes it there; and with a single cache line, the bytes written to the file's
      own cluster since it was loaded are lost. */
  lemma FirstByteBeyondIsMisplaced(v: Volume, fat: Fat, info: Info, disk: Memory, f: OpenFile, value: byte)
    requires InOneCluster(v, fat, disk, f) && f.cluster + 1 in disk
    ensures BlockBytes(v, Cluster) < WORD && |disk[f.cluster + 1]| == BlockBytes(v, Cluster)
    ensures var n := BlockBytes(v, Cluster);
            var (fat', info', f') := WriteByte(v, fat, info, disk, f, n, value);
            && fat' == fat && info' == info && f'.size == n && f'.cluster == f.cluster
            && Cached(v, disk, f').Coherent()
            && Cached(v, disk, f').FlushFrom(0).disk ==
               disk[f.cluster := if |f.lines| == 1 then disk[f.cluster] else Contents(v, disk, f)]
                   [f.cluster + 1 := Poke(disk[f.cluster + 1], 0, value)]
  {
    var n, c := BlockBytes(v, Cluster), f.cluster;
    NoGrowthInside(v, fat, info, c, n);
    OneBeyond(n);
    WrapSmall(c + 1);
    var s := Cached(v, disk, f);
    assert ChainRead(fat, c, 1) == c && s.Tag(c, n) == c + 1;
    LoadsNext(s, c, n, value);
  }

  lemma OneBeyond(n: nat)
    requires 0 < n < WORD
    ensures Quotient(n, n) == 1 && n % n == 0
  {}

  /** A write at the start of block c + 1, when no block but c is cached. */
  lemma LoadsNext(s: State, c: u32, offset: u32, value: byte)
    requires s.Coherent() && c in s.disk && c + 1 < WORD && c + 1 in s.disk
    requires forall i :: 0 <= i < |s.lines| && s.lines[i].valid ==> s.lines[i].tag == c
    requires s.Tag(c, offset) == c + 1 && offset % s.blockSize == 0
    ensures |s.disk[c + 1]| == s.blockSize > 0
    ensures var r := s.Access(c, offset, value, Write).0;
            && r.Coherent()
            && r.FlushFrom(0).disk == s.disk[c := if |s.lines| == 1 then s.disk[c] else s.Current(c)]
                                            [c + 1 := Poke(s.disk[c + 1], 0, value)]
  {
    var r := s.Access(c, offset, value, Write).0;
    var block := Poke(s.disk[c + 1], 0, value);
    assert r == s.(lines := s.lines[(c + 1) % |s.lines| := Line(true, c + 1, block)]);
    NextIndex(c, |s.lines|);
    forall t | t in s.disk
      ensures r.Current(t) == if t == c + 1 then block else if t == c && |s.lines| > 1 then s.Current(c) else s.disk[t]
    {
      NextCurrent(s, c, block, t);
    }
    NextCoherent(s, c, block);
    hide State.Access, State.Current, State.Coherent, State.FlushFrom, State.Fetch, State.Load;
    FlushPublishes(r);
  }

  lemma NextCoherent(s: State, c: u32, block: seq<byte>)
    requires s.Coherent() && c + 1 < WORD && c + 1 in s.disk && |block| == s.blockSize
    ensures s.(lines := s.lines[(c + 1) % |s.lines| := Line(true, c + 1, block)]).Coherent()
  {}

  lemma NextCurrent(s: State, c: u32, block: seq<byte>, t: u32)
    requires s.Coherent() && c in s.disk && c + 1 < WORD && c + 1 in s.disk && t in s.disk
    requires forall i :: 0 <= i < |s.lines| && s.lines[i].valid ==> s.lines[i].tag == c
    ensures s.(lines := s.lines[(c + 1) % |s.lines| := Line(true, c + 1, block)]).Current(t) ==
            if t == c + 1 then block else if t == c && |s.lines| > 1 then s.Current(c) else s.disk[t]
  {
    NextIndex(c, |s.lines|);
    IndexInRange(s, t);
    IndexInRange(s, c + 1);
  }

  lemma NextIndex(c: nat, n: nat)
    requires n > 0
    ensures (c + 1) % n == c % n <==> n == 1
  {
    var q, p := (c + 1) / n, c / n;
    assert c + 1 == n * q + (c + 1) % n && c == n * p + c % n;
    if (c + 1) % n == c % n {
      assert n * (q - p) == 1;
      TimesOne(n, q - p);
    }
  }

  lemma TimesOne(n: nat, d: int)
    requires n > 0 && n * d == 1
    ensures n == 1
  {
    if d <= 0 {
      TimesMonotonic(d, 0, n);
    } else {
      TimesMonotonic(1, d, n);
    }
  }
}

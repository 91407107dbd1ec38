/** struct file and its operations on a mounted volume (src/fs/fat32/file.c). */
module FatFile {
  import opened Words
  import opened Device
  import opened Cache
  import opened BlockCache
  import opened FatArray
  import opened FatTable
  import opened FatVolume
  import opened OpenFiles

  class File {
    const fs: FatFs
    const cache: BlockCache
    const cluster: u32
    var size: u32

    /** file_open: the first cluster is rebuilt from the entry's two halves. */
    constructor (fs: FatFs, lowCluster: u32, highCluster: u32, size: u32)
      requires fs.Valid() && lowCluster < 0x1_0000 && highCluster < 0x1_0000
      ensures this.fs == fs && fresh(cache) && fresh(cache.lines) && Valid()
      ensures Handle() == Opened(fs.disk.volume, Wrap(lowCluster + Wrap(highCluster * 0x1_0000)), size)
    {
      this.fs := fs;
      this.cluster := Wrap(lowCluster + Wrap(highCluster * 0x1_0000));
      this.size := size;
      var n := Quotient(size, BlockBytes(fs.disk.volume, Cluster)) + 1;
      cache := new BlockCache(Cluster, n);
      new;
      OneLineAtLeast(size, BlockBytes(fs.disk.volume, Cluster));
      MountedBlocks(fs.disk.volume, Cluster, fs.disk.bytes);
      EmptyIsDisk(BlockBytes(fs.disk.volume, Cluster), n, Blocks(fs.disk.volume, Cluster, fs.disk.bytes));
    }

    ghost predicate Valid()
      reads this, fs.disk, fs.table.lines, cache.lines
    {
      && fs.Valid() && cache.unit == Cluster && cache.lines != fs.table.lines
      && cache.Snapshot(fs.disk).Valid()
    }

    ghost function Handle(): OpenFile
      reads this, cache.lines
    {
      OpenFile(cluster, size, cache.lines[..])
    }

    ghost function Disk(): Memory
      reads fs.disk
    {
      Blocks(fs.disk.volume, Cluster, fs.disk.bytes)
    }

    /** The file lives in one data cluster, with its chain ended. */
    ghost predicate Inside()
      reads this, fs.disk, fs.table.lines, cache.lines
    {
      Valid() && InOneCluster(fs.disk.volume, fs.Fat(), Disk(), Handle())
    }

    /** Its bytes, seen through its own cache. */
    ghost function Bytes(): seq<byte>
      reads this, fs.disk, cache.lines
    {
      Contents(fs.disk.volume, Disk(), Handle())
    }

    /** The invariant taken apart, and put together again. */
    lemma Parts()
      requires Valid()
      ensures fs.Valid() && cache.unit == Cluster && cache.lines != fs.table.lines && cache.Snapshot(fs.disk).Valid()
      ensures fs.disk.volume.Valid() && 0 < BlockBytes(fs.disk.volume, Cluster) < WORD
      ensures Handle() == OpenFile(cluster, size, cache.lines[..])
              && cache.Snapshot(fs.disk) == Cached(fs.disk.volume, Disk(), Handle())
    {}

    lemma Whole(cluster: u32, size: u32)
      requires fs.Valid() && cache.unit == Cluster && cache.lines != fs.table.lines && cache.Snapshot(fs.disk).Valid()
      requires cluster == this.cluster && size == this.size
      ensures Valid() && Handle() == OpenFile(cluster, size, cache.lines[..])
    {}

    lemma OwnBytes()
      requires Inside()
      ensures fs.Valid() && |Bytes()| == BlockBytes(fs.disk.volume, Cluster) < WORD
    {
      OwnSize(fs.disk.volume, fs.Fat(), Disk(), Handle());
    }

    lemma EndIsKnown()
      requires Inside()
      ensures LengthKnown(fs.Fat(), cluster) && size <= BlockBytes(fs.disk.volume, Cluster)
    {}

    method ReadB(offset: u32) returns (r: byte)
      requires Valid()
      modifies cache.lines, fs.table.lines
      ensures Valid() && fs.Fat() == old(fs.Fat())
      ensures (Handle(), r) == ReadByte(fs.disk.volume, fs.Fat(), Disk(), old(Handle()), offset)
    {
      hide FatFs.Valid, FatFs.Fat;
      if offset > size {
        return FAT_EOF;
      }
      var at := fs.ChainRead(cluster, Quotient(offset, BlockBytes(fs.disk.volume, Cluster)));
      r := cache.Access(fs.disk, at, offset, 0, Cache.Read);
    }

    /** The loop of file_writeb. */
    method GrowChain()
      requires fs.Valid() && (fs.Fits() || Quotient(size, BlockBytes(fs.disk.volume, Cluster)) == 0)
      modifies fs, fs.table.lines
      ensures fs.Valid()
      ensures (fs.Fat(), Info(fs.freeCount, fs.hint))
           == Grow(old(fs.Fat()), old(Info(fs.freeCount, fs.hint)), fs.disk.volume.clusterCount, cluster,
                   Quotient(size, BlockBytes(fs.disk.volume, Cluster)))
    {
      hide FatFs.Valid, FatFs.Fat;
      fs.LayoutBounds();
      ghost var clusters := fs.disk.volume.clusterCount;
      var links: u32 := Quotient(size, BlockBytes(fs.disk.volume, Cluster));
      ghost var target := Grow(fs.Fat(), Info(fs.freeCount, fs.hint), clusters, cluster, links);
      var curr: u32 := cluster;
      var i: u32 := 0;
      while i < links
        invariant 0 <= i <= links && fs.Valid()
        invariant Grow(fs.Fat(), Info(fs.freeCount, fs.hint), clusters, curr, links - i) == target
      {
        var added := fs.AllocCluster(EOC1);
        fs.TableWrite(curr, added);
        curr := added;
        i := i + 1;
      }
    }

    /** The part of file_writeb that looks at the chain and grows it. Called on a chain whose length
        the source's loop can find (FatArray.ChainLenHaltsExactly). */
    method ExtendChain()
      requires fs.Valid() && LengthKnown(fs.Fat(), cluster)
      requires fs.Fits() || size <= BlockBytes(fs.disk.volume, Cluster)
      modifies fs, fs.table.lines
      ensures fs.Valid() && fs.disk.volume.Valid()
      ensures (fs.Fat(), Info(fs.freeCount, fs.hint))
           == GrownFor(fs.disk.volume, old(fs.Fat()), old(Info(fs.freeCount, fs.hint)), cluster, size)
    {
      hide FatFs.Valid, FatFs.Fat, GrownFor;
      fs.LayoutBounds();
      ghost var v, fat, info := fs.disk.volume, fs.Fat(), Info(fs.freeCount, fs.hint);
      GrownForIs(v, fat, info, cluster, size);
      SmallSize(size, BlockBytes(v, Cluster));
      var chainLength := fs.ChainGetLen(cluster, 1);
      if Quotient(Wrap(size - 1), BlockBytes(fs.disk.volume, Cluster)) + 1 > chainLength.value {
        GrowChain();
      }
    }

    method WriteB(offset: u32, value: byte)
      requires Valid() && LengthKnown(fs.Fat(), cluster)
      requires fs.Fits() || Max(size, offset) <= BlockBytes(fs.disk.volume, Cluster)
      modifies this, cache.lines, fs, fs.table.lines
      ensures Valid()
      ensures (fs.Fat(), Info(fs.freeCount, fs.hint), Handle())
           == WriteByte(fs.disk.volume, old(fs.Fat()), old(Info(fs.freeCount, fs.hint)), Disk(), old(Handle()),
                        offset, value)
    {
      hide FatFs.Valid, FatFs.Fat, File.Valid, File.Handle, WriteByte, GrownFor;
      Parts();
      ghost var v, fat, info := fs.disk.volume, fs.Fat(), Info(fs.freeCount, fs.hint);
      ghost var f, s := Handle(), cache.Snapshot(fs.disk);
      WriteByteIs(v, fat, info, Disk(), f, offset, value, s);
      if offset > size {
        size := offset;
      }
      ExtendChain();
      var at := fs.ChainRead(cluster, Quotient(offset, BlockBytes(fs.disk.volume, Cluster)));
      var _ := cache.Access(fs.disk, at, offset, value, Cache.Write);
      Whole(cluster, size);
    }

    /** file_readb inside the cluster, in terms of the file's bytes. */
    method ReadOwnByte(offset: u32) returns (r: byte)
      requires Inside() && offset < BlockBytes(fs.disk.volume, Cluster)
      modifies cache.lines, fs.table.lines
      ensures fs.Valid() && Inside() && fs.Fat() == old(fs.Fat()) && size == old(size) && Bytes() == old(Bytes())
      ensures offset < |Bytes()| && r == if offset > size then FAT_EOF else Bytes()[offset]
    {
      ReadByteInside(fs.disk.volume, fs.Fat(), Disk(), Handle(), offset);
      hide FatFs.Valid, FatFs.Fat, InOneCluster, Contents, ReadByte;
      r := ReadB(offset);
    }

    /** file_writeb inside the cluster: one byte and the size change. */
    method WriteOwnByte(offset: u32, value: byte)
      requires Inside() && offset < BlockBytes(fs.disk.volume, Cluster)
      modifies this, cache.lines, fs, fs.table.lines
      ensures fs.Valid() && Inside() && fs.Fat() == old(fs.Fat()) && fs.freeCount == old(fs.freeCount)
              && fs.hint == old(fs.hint)
      ensures size == Max(old(size), offset)
      ensures offset < |old(Bytes())| && Bytes() == Poke(old(Bytes()), offset, value)
    {
      WriteByteInside(fs.disk.volume, fs.Fat(), Info(fs.freeCount, fs.hint), Disk(), Handle(), offset, value);
      EndIsKnown();
      hide FatFs.Valid, FatFs.Fat, InOneCluster, Contents, WriteByte;
      WriteB(offset, value);
    }

    /** file_read into a new buffer: as many byte reads. Inside the cluster they give the file's
        bytes. */
    method Read(offset: u32, n: u32) returns (buffer: array<byte>)
      requires Valid()
      modifies cache.lines, fs.table.lines
      ensures Valid() && fs.Fat() == old(fs.Fat()) && fresh(buffer) && buffer.Length == n
      ensures (Handle(), buffer[..]) == ReadBytes(fs.disk.volume, fs.Fat(), Disk(), old(Handle()), offset, n)
      ensures old(Inside()) && offset + n <= BlockBytes(fs.disk.volume, Cluster) ==>
                && Inside() && Bytes() == old(Bytes()) && size == old(size) && offset + n <= |Bytes()|
                && forall i :: 0 <= i < n ==> buffer[i] == if offset + i > size then FAT_EOF else Bytes()[offset + i]
    {
      hide FatFs.Valid, FatFs.Fat, InOneCluster, Contents, ReadByte, File.Valid, Wrap;
      ghost var v, fat, disk, f := fs.disk.volume, fs.Fat(), Disk(), Handle();
      ghost var inside := Inside() && offset + n <= BlockBytes(v, Cluster);
      if inside {
        ReadBytesInside(v, fat, disk, f, offset, n);
      }
      buffer := new byte[n];
      var i: u32 := 0;
      assert ReadBytes(v, fat, disk, f, offset, 0) == (f, []);
      while i < n
        invariant 0 <= i <= n && Valid() && fs.Fat() == fat
        invariant (Handle(), buffer[..i]) == ReadBytes(v, fat, disk, f, offset, i)
      {
        NextRead(v, fat, disk, f, offset, i);
        ghost var bytes := buffer[..i];
        var b := ReadB(Wrap(offset + i));
        buffer[i] := b;
        assert buffer[..i + 1] == bytes + [b];
        i := i + 1;
      }
      assert buffer[..n] == buffer[..];
    }

    /** file_write, inside the cluster: the bytes land where they belong, the size becomes at least
        the last offset written, and the table is as it was. */
    method Write(offset: u32, data: array<byte>, n: u32)
      requires Inside() && n <= data.Length && offset + n <= BlockBytes(fs.disk.volume, Cluster)
      modifies this, cache.lines, fs, fs.table.lines
      ensures fs.Valid() && Inside() && fs.Fat() == old(fs.Fat()) && fs.freeCount == old(fs.freeCount)
              && fs.hint == old(fs.hint)
      ensures size == if n == 0 then old(size) else Max(old(size), offset + n - 1)
      ensures |Bytes()| == |old(Bytes())| && offset + n <= |Bytes()|
      ensures forall j :: 0 <= j < |Bytes()| ==>
              Bytes()[j] == if offset <= j < offset + n then data[j - offset] else old(Bytes())[j]
    {
      hide FatFs.Valid, FatFs.Fat, File.Bytes, File.Valid, File.Inside;
      OwnBytes();
      ghost var bytes, fat := Bytes(), fs.Fat();
      var i: u32 := 0;
      while i < n
        invariant 0 <= i <= n && fs.Valid() && Inside() && fs.Fat() == fat && fs.freeCount == old(fs.freeCount)
                  && fs.hint == old(fs.hint)
        invariant size == if i == 0 then old(size) else Max(old(size), offset + i - 1)
        invariant |Bytes()| == |bytes|
        invariant forall j :: 0 <= j < |Bytes()| ==>
                  Bytes()[j] == if offset <= j < offset + i then data[j - offset] else bytes[j]
      {
        WriteOwnByte(offset + i, data[i]);
        i := i + 1;
      }
    }

    /** file_close: the cluster on the disk becomes the file's bytes; no other cluster changes, and
        neither does anything below the data region, so the table still reads the same. */
    method Close()
      requires Inside()
      modifies fs.disk
      ensures fs.Valid() && fs.Fat() == old(fs.Fat())
      ensures Disk() == old(Disk()[cluster := Bytes()])
      ensures SameTables(fs.disk.volume, old(fs.disk.bytes), fs.disk.bytes)
    {
      ghost var v, before, lines := fs.disk.volume, fs.disk.bytes, cache.lines[..];
      ClosedDisk(v, fs.Fat(), before, Handle());
      TablesUnmoved(fs.table.Snapshot(fs.disk), v, before, FlushBytes(v, Cluster, lines, before, 0));
      cache.Flush(fs.disk);
    }
  }

  lemma GrownForIs(v: Volume, fat: Fat, info: Info, start: u32, size: u32)
    requires v.Valid()
    ensures GrownFor(v, fat, info, start, size)
         == if Quotient(Wrap(size - 1), BlockBytes(v, Cluster)) + 1 > 1 then
              Grow(fat, info, v.clusterCount, start, Quotient(size, BlockBytes(v, Cluster)))
            else (fat, info)
  {}

  /** A size of at most a cluster asks for no growth, or for none of it. */
  lemma SmallSize(size: u32, n: nat)
    requires n > 0
    ensures size <= n && Quotient(Wrap(size - 1), n) + 1 > 1 ==> size == 0 && Quotient(size, n) == 0
  {
    if size != 0 {
      WrapSmall(size - 1);
    }
  }

  lemma WriteByteIs(v: Volume, fat: Fat, info: Info, disk: Memory, f: OpenFile, offset: u32, value: byte, s: State)
    requires v.Valid() && s == Cached(v, disk, f) && s.Valid()
    ensures var size := Max(f.size, offset);
            var (fat', info') := GrownFor(v, fat, info, f.cluster, size);
            var at := FatArray.ChainRead(fat', f.cluster, Quotient(offset, BlockBytes(v, Cluster)));
            WriteByte(v, fat, info, disk, f, offset, value)
            == (fat', info', OpenFile(f.cluster, size, s.Access(at, offset, value, Cache.Write).0.lines))
  {}

  /** A disk that differs above the tables only gives the table cache the same table. */
  lemma TablesUnmoved(s: State, v: Volume, before: seq<byte>, after: seq<byte>)
    requires Mounted(v, before) && SameTables(v, before, after)
    requires v.sectorCount * 512 <= |before|
    requires s.disk == Blocks(v, Sector, before) && Ready(s, v) && Steady(s, v)
    ensures var s' := s.(disk := Blocks(v, Sector, after));
            Ready(s', v) && Steady(s', v) && FatIn(s'.Memory(), v) == FatIn(s.Memory(), v)
  {
    var s' := s.(disk := Blocks(v, Sector, after));
    MountedBlocks(v, Sector, after);
    SameTableSectors(v, before, after);
    hide Blocks, SameTables;
    SameSectorsSameTable(s, s', v);
  }

  lemma SameTableSectors(v: Volume, before: seq<byte>, after: seq<byte>)
    requires Mounted(v, before) && SameTables(v, before, after) && v.sectorCount * 512 <= |before|
    ensures forall t: u32 :: v.tableAddress <= t < v.tableAddress + v.tableSize ==>
              t in Blocks(v, Sector, after) && Blocks(v, Sector, after)[t] == Blocks(v, Sector, before)[t]
  {
    MountedTableReady(v, before);
    MountedTableReady(v, after);
    forall t: u32 | v.tableAddress <= t < v.tableAddress + v.tableSize
      ensures Blocks(v, Sector, after)[t] == Blocks(v, Sector, before)[t]
    {
      assert (t + 1) * 512 <= v.dataRegion * 512;
      assert after[t * 512..t * 512 + 512] == before[t * 512..t * 512 + 512];
    }
  }

  lemma SameSectorsSameTable(s: State, s': State, v: Volume)
    requires Ready(s, v) && Steady(s, v)
    requires s' == s.(disk := s'.disk) && NO_TAG !in s'.disk
    requires forall t :: t in s'.disk ==> |s'.disk[t]| == 512
    requires forall t: u32 :: v.tableAddress <= t < v.tableAddress + v.tableSize ==>
             t in s'.disk && s'.disk[t] == s.disk[t]
    ensures Ready(s', v) && Steady(s', v) && FatIn(s'.Memory(), v) == FatIn(s.Memory(), v)
  {
    forall t: u32 | v.tableAddress <= t < v.tableAddress + v.tableSize
      ensures t in s'.Memory() && s'.Memory()[t] == s.Memory()[t]
    {}
    SameFat(s.Memory(), s'.Memory(), v);
    hide FatIn, HoldsTable, State.Memory;
  }

  lemma SameFat(m: Memory, m': Memory, v: Volume)
    requires HoldsTable(m, v)
    requires forall t: u32 :: v.tableAddress <= t < v.tableAddress + v.tableSize ==> t in m' && m'[t] == m[t]
    ensures HoldsTable(m', v) && FatIn(m', v) == FatIn(m, v)
  {
    hide WordAt;
  }
}

/** struct fat_fs: the mounted volume with its cached table and free-space fields, and the
    functions of src/fs/fat32/table.c on it. Each is specified on the array the table refines. */
module FatVolume {
  import opened Words
  import opened Device
  import opened Cache
  import opened BlockCache
  import opened FatArray
  import opened FatTable

  const UNKNOWN_FREE_CLUSTER: u32 := 0xFFFF_FFFF

  class FatFs {
    const disk: Disk
    const table: BlockCache
    var freeCount: u32
    var hint: u32

    /** A mounted volume whose sectors all exist, with nothing of the table cached. */
    constructor (disk: Disk)
      requires Mounted(disk.volume, disk.bytes) && disk.volume.sectorCount * 512 <= |disk.bytes|
      ensures this.disk == disk && fresh(table) && fresh(table.lines)
      ensures Valid() && Clean(table.Snapshot(disk), {})
              && Fat() == FatIn(Blocks(disk.volume, Sector, disk.bytes), disk.volume)
    {
      this.disk := disk;
      table := new BlockCache(Sector, FAT_CACHE_SIZE);
      freeCount, hint := 0, 0;
      new;
      MountedBlocks(disk.volume, Sector, disk.bytes);
      MountedTableReady(disk.volume, disk.bytes);
      EmptyIsDisk(512, FAT_CACHE_SIZE, Blocks(disk.volume, Sector, disk.bytes));
    }

    ghost predicate Valid()
      reads disk, table.lines
    {
      && Mounted(disk.volume, disk.bytes) && disk.volume.sectorCount * 512 <= |disk.bytes|
      && table.unit == Sector && table.lines.Length == FAT_CACHE_SIZE
      && Ready(table.Snapshot(disk), disk.volume) && Steady(table.Snapshot(disk), disk.volume)
    }

    /** The table as an array, seen through the cache. */
    ghost function Fat(): Fat
      reads disk, table.lines
    {
      FatIn(table.Snapshot(disk).Memory(), disk.volume)
    }

    /** The table fits the cache (see FatTable.TableIsArrayExactlyWhenRoomy). */
    predicate Fits() {
      disk.volume.tableSize <= FAT_CACHE_SIZE
    }

    method TableRead(cluster: u32) returns (r: u32)
      requires Valid()
      modifies table.lines
      ensures Valid() && Fat() == old(Fat()) && r == Get(Fat(), cluster)
    {
      ghost var s := table.Snapshot(disk);
      TableReadRefines(s, disk.volume, cluster);
      var offset := Wrap(cluster * 4);
      if Wrap(disk.volume.tableSize * 512) <= offset {
        return READ_ERROR;
      }
      r := table.ReadL(disk, disk.volume.tableAddress, offset);
      assert (table.Snapshot(disk), r) == FatTable.TableRead(s, disk.volume, cluster);
    }

    method TableWrite(cluster: u32, content: u32)
      requires Valid() && Fits()
      modifies table.lines
      ensures Valid() && Fat() == Put(old(Fat()), cluster, content)
    {
      ghost var s := table.Snapshot(disk);
      TableWriteRefines(s, disk.volume, cluster, content);
      var offset := Wrap(cluster * 4);
      if Wrap(disk.volume.tableSize * 512) <= offset {
        return;
      }
      table.WriteL(disk, disk.volume.tableAddress, offset, content);
      assert table.Snapshot(disk) == FatTable.TableWrite(s, disk.volume, cluster, content);
    }

    /** The count starts at the root cluster's number. */
    method FreeClusterCountRead() returns (count: u32)
      requires Valid() && disk.volume.rootCluster < 0x0FFF_FFF7 && disk.volume.clusterCount < 0x0FFF_FFF7
      modifies table.lines
      ensures Valid() && Fat() == old(Fat())
      ensures count == CountedFree(Fat(), disk.volume.rootCluster, disk.volume.clusterCount)
    {
      hide FatFs.Valid, FatFs.Fat;
      var root: u32, clusters: u32 := disk.volume.rootCluster, disk.volume.clusterCount;
      LayoutBounds();
      ghost var fat := Fat();
      FreeListExact(fat, root, clusters);
      count := root;
      var i: u32 := count;
      while i < clusters
        invariant root <= i && (i <= clusters || i == root) && Valid() && Fat() == fat
        invariant count + |FreeList(fat, i, clusters)| == CountedFree(fat, root, clusters)
      {
        var entry := TableRead(i);
        FreeListExact(fat, i + 1, clusters);
        if entry == 0 {
          count := count + 1;
        }
        i := i + 1;
      }
    }

    method FirstFreeClusterRead() returns (i: u32)
      requires Valid() && disk.volume.rootCluster < 0x0FFF_FFF7 && disk.volume.clusterCount < 0x0FFF_FFF7
      modifies table.lines
      ensures Valid() && Fat() == old(Fat())
      ensures i == RootScan(Fat(), disk.volume.rootCluster, disk.volume.clusterCount)
    {
      hide FatFs.Valid, FatFs.Fat;
      var root: u32, clusters: u32 := disk.volume.rootCluster, disk.volume.clusterCount;
      LayoutBounds();
      ghost var fat := Fat();
      ghost var end: u32 := if root <= clusters then clusters + 1 else root + 1;
      i := root;
      var entry := TableRead(i);
      while entry != 0
        invariant root <= i < end && Valid() && Fat() == fat && entry == Get(fat, i)
        invariant FreeList(fat, root, end) == FreeList(fat, i, end)
        decreases end - i
      {
        var more := i < clusters;
        i := i + 1;
        if !more {
          return;
        }
        entry := TableRead(i);
      }
    }

    /** fat_table_alloc_cluster, on the array: see FatArray.AllocTakesLeast. */
    method AllocCluster(content: u32) returns (r: u32)
      requires Valid() && Fits()
      modifies table.lines, this
      ensures Valid()
      ensures (Fat(), Info(freeCount, hint), r) ==
              Alloc(old(Fat()), old(Info(freeCount, hint)), disk.volume.clusterCount, content)
    {
      hide FatFs.Valid, FatFs.Fat;
      LayoutBounds();
      if freeCount == 0 {
        return CLUSTER_ALLOC_ERR;
      }
      ghost var fat := Fat();
      var start: u32, clusters: u32 := hint, disk.volume.clusterCount;
      var i: u32 := start;
      while i < clusters
        invariant Valid() && Fat() == fat && hint == start && freeCount == old(freeCount)
        invariant FreeList(fat, start, clusters) == FreeList(fat, i, clusters)
      {
        var entry := TableRead(i);
        if entry == 0 {
          TableWrite(i, content);
          freeCount := freeCount - 1;
          hint := i;
          return i;
        }
        i := i + 1;
      }
      r := CLUSTER_ALLOC_ERR;
    }

    /** file_create up to its directory write. Whether the directory was found and already holds
        the name are parameters: those lookups leave the array and the free-space fields alone. The
        entry gets the two halves of a cluster number; while the account is kept, that cluster was
        the least free one and is now the one marked as the end of a chain. */
    method FileCreate(directory: bool, taken: bool, ghost excess: nat) returns (created: bool, low: u32, high: u32)
      requires Valid() && Fits()
      requires disk.volume.rootCluster < 0x0FFF_FFF7 && disk.volume.clusterCount < 0x0FFF_FFF7
      modifies table.lines, this
      ensures Valid() && created == (directory && !taken)
      ensures !created ==> Fat() == old(Fat()) && Info(freeCount, hint) == old(Info(freeCount, hint))
      ensures created ==> (Fat(), Info(freeCount, hint)) ==
                          var r := Alloc(old(Fat()), old(Info(freeCount, hint)), disk.volume.clusterCount, EOC1);
                          (r.0, r.1)
      ensures created ==> Wrap(low + Wrap(high * 0x1_0000)) ==
                          RootScan(old(Fat()), disk.volume.rootCluster, disk.volume.clusterCount)
      ensures created && Accounted(old(Fat()), old(Info(freeCount, hint)), disk.volume.rootCluster,
                                   disk.volume.clusterCount, excess)
              && FreeList(old(Fat()), disk.volume.rootCluster, disk.volume.clusterCount) != []
              ==> var named := Wrap(low + Wrap(high * 0x1_0000));
                  named == FreeList(old(Fat()), disk.volume.rootCluster, disk.volume.clusterCount)[0]
                  && Get(Fat(), named) == EOC1
    {
      hide FatFs.Valid, FatFs.Fat, FreeList, RootScan, Alloc, Accounted;
      ghost var root: u32, clusters: u32 := disk.volume.rootCluster, disk.volume.clusterCount;
      ghost var fat, info := Fat(), Info(freeCount, hint);
      var cluster := FirstFreeClusterRead();
      created, low, high := directory && !taken, LowWord(cluster), HighWord(cluster);
      EntryNamesCluster(cluster);
      if created {
        var marked := AllocCluster(EOC1);
        if Accounted(fat, info, root, clusters, excess) && FreeList(fat, root, clusters) != [] {
          CreateNamesMarked(fat, info, root, clusters, excess);
        }
      }
    }

    /** The loop of cluster_chain_get_len, observed for a number of rounds: None while it is still
        running. It reads the entry of the same cluster each time. */
    method ChainGetLen(start: u32, rounds: nat) returns (len: Option<nat>)
      requires Valid()
      modifies table.lines
      ensures Valid() && Fat() == old(Fat()) && len == ChainLenLoop(Fat(), start, 0, rounds)
    {
      hide FatFs.Valid, FatFs.Fat;
      ghost var fat := Fat();
      var left, count := rounds, 0;
      while left > 0
        invariant Valid() && Fat() == fat
        invariant ChainLenLoop(fat, start, count, left) == ChainLenLoop(fat, start, 0, rounds)
      {
        var curr := TableRead(start);
        count := count + 1;
        if !(curr != EOC1 && curr != EOC2 && curr != READ_ERROR) {
          return Some(count);
        }
        left := left - 1;
      }
      len := None;
    }

    /** Terminates on every table. */
    method ChainRead(start: u32, index: u32) returns (r: u32)
      requires Valid()
      modifies table.lines
      ensures Valid() && Fat() == old(Fat()) && r == FatArray.ChainRead(Fat(), start, index)
    {
      hide FatFs.Valid, FatFs.Fat;
      ghost var fat := Fat();
      var curr: u32, left: u32 := start, index;
      r := curr;
      curr := TableRead(curr);
      while left != 0 && curr != EOC1 && curr != EOC2
        invariant Valid() && Fat() == fat && curr == Get(fat, r)
        invariant FatArray.ChainRead(fat, r, left) == FatArray.ChainRead(fat, start, index)
        decreases left
      {
        left := left - 1;
        r := curr;
        curr := TableRead(curr);
      }
    }

    lemma LayoutBounds()
      requires Valid()
      ensures disk.volume.Valid()
    {}

    /** fat_fs_getinfo's free-space fields: as stored, or counted when the stored ones are unknown. */
    method LoadInfo(storedCount: u32, storedHint: u32)
      requires Valid() && disk.volume.rootCluster < 0x0FFF_FFF7 && disk.volume.clusterCount < 0x0FFF_FFF7
      modifies table.lines, this
      ensures Valid() && Fat() == old(Fat())
      ensures freeCount == if storedCount != UNKNOWN_FREE_CLUSTER then storedCount
                           else CountedFree(Fat(), disk.volume.rootCluster, disk.volume.clusterCount)
      ensures hint == if storedHint != UNKNOWN_FREE_CLUSTER then storedHint
                      else RootScan(Fat(), disk.volume.rootCluster, disk.volume.clusterCount)
    {
      hide FatFs.Valid, FatFs.Fat;
      LayoutBounds();
      freeCount := storedCount;
      if freeCount == UNKNOWN_FREE_CLUSTER {
        freeCount := FreeClusterCountRead();
      }
      hint := storedHint;
      if hint == UNKNOWN_FREE_CLUSTER {
        hint := FirstFreeClusterRead();
      }
    }

    /** fat_table_fini: what the array held is what the table sectors hold. */
    method FlushTable()
      requires Valid()
      modifies disk
      ensures Valid() && Fat() == old(Fat())
      ensures Fat() == FatIn(Blocks(disk.volume, Sector, disk.bytes), disk.volume)
    {
      TableSyncRefines(table.Snapshot(disk), disk.volume);
      FlushLength(disk.volume, Sector, table.lines[..], disk.bytes);
      table.Flush(disk);
    }
  }

  lemma FlushLength(v: Volume, unit: Unit, lines: seq<Line>, bytes: seq<byte>)
    requires forall j :: 0 <= j < |lines| && lines[j].valid ==> |lines[j].data| == BlockBytes(v, unit)
    ensures |FlushBytes(v, unit, lines, bytes, 0)| == |bytes|
  {}

  /** On a disk that holds the whole volume, the table sectors can be transferred. */
  lemma MountedTableReady(v: Volume, bytes: seq<byte>)
    requires Mounted(v, bytes) && v.sectorCount * 512 <= |bytes|
    ensures HoldsTable(Blocks(v, Sector, bytes), v)
  {
    TimesMonotonic(0, v.clusterCount, v.clusterSize);
    var end := v.tableAddress + v.tableSize;
    assert end <= v.sectorCount;
    forall t: u32 | v.tableAddress <= t < end
      ensures Readable(v, Sector, |bytes|, t)
    {
      WrapSmall(t);
    }
  }
}

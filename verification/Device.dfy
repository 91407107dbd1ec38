/** The FAT volume on its disk: sector and cluster transfers (src/fs/fat32/fs.c).
    The disk itself is a sequence of bytes; a transfer past its end is a device error. */
module Device {
  import opened Words

  const SECTOR_SIZE := 512

  /** What mounting reads out of the boot sector; constant afterwards. */
  datatype Volume = Volume(sectorCount: u32, clusterCount: u32, clusterSize: u32,
                           tableAddress: u32, tableSize: u32, dataRegion: u32, rootCluster: u32)
  {
    /** The layout of a formatted FAT32 volume: reserved sectors, tables, then the clusters,
        fewer of them than the bad-cluster mark, and a table of less than
        2^32 bytes. */
    predicate Valid() {
      && 1 <= clusterSize
      && 2 <= dataRegion
      && tableAddress + tableSize <= dataRegion
      && dataRegion + clusterCount * clusterSize <= sectorCount
      && clusterCount < 0x0FFF_FFF7
      && tableSize < 0x80_0000
      && 2 <= rootCluster
    }

    function ClusterBytes(): nat { clusterSize * 512 }
  }

  /** fat_volume_get_clusters, with the unsigned subtraction wrapping. */
  function ClusterCount(sectorCount: u32, reserved: u32, tables: u32, clusterSize: u32): u32
    requires clusterSize != 0
  {
    Wrap(sectorCount - reserved - tables) / clusterSize
  }

  /** Mounting a boot sector whose reserved and table sectors fit on the volume gives a layout
      whose clusters all lie inside the volume. */
  lemma MountedClustersFit(sectorCount: u32, reserved: u32, tables: u32, clusterSize: u32)
    requires clusterSize != 0 && reserved + tables <= sectorCount
    ensures var n := ClusterCount(sectorCount, reserved, tables, clusterSize);
      && reserved + tables + n * clusterSize <= sectorCount
      && sectorCount < reserved + tables + (n + 1) * clusterSize
  {
    var d := sectorCount - reserved - tables;
    assert d == (d / clusterSize) * clusterSize + d % clusterSize;
  }

  /** Which pair of driver functions a cache was created with:
      read_sector/write_sector or read_cluster/write_cluster. */
  datatype Unit = Sector | Cluster

  function Span(v: Volume, unit: Unit): u32 {
    match unit
    case Sector => 1
    case Cluster => v.clusterSize
  }

  /** The size of one block, and of the buffer a cache line holds. */
  function BlockBytes(v: Volume, unit: Unit): nat {
    match unit
    case Sector => 512
    case Cluster => v.clusterSize * 512
  }

  /** The first sector of a block. A cluster's number is scaled before two is subtracted, so two sectors
      are taken off instead of two clusters (fs.c:264-266; see StartsWhereFormatSaysExactly). */
  function FirstSector(v: Volume, unit: Unit, tag: u32): u32 {
    match unit
    case Sector => tag
    case Cluster => Wrap(v.dataRegion + Wrap(tag * v.clusterSize) - 2)
  }

  predicate Reachable(v: Volume, size: nat, lba: u32, n: u32) {
    Wrap(lba + n - 1) <= v.sectorCount && (lba + n) * SECTOR_SIZE <= size
  }

  /** A block the driver can transfer: in the volume's bounds and on the device. */
  predicate Readable(v: Volume, unit: Unit, size: nat, tag: u32) {
    && (unit.Cluster? ==> tag <= v.clusterCount)
    && Reachable(v, size, FirstSector(v, unit, tag), Span(v, unit))
  }

  function ReadBlock(v: Volume, unit: Unit, bytes: seq<byte>, tag: u32): Option<seq<byte>> {
    if Readable(v, unit, |bytes|, tag) then
      var start := FirstSector(v, unit, tag) * SECTOR_SIZE;
      Some(bytes[start..start + BlockBytes(v, unit)])
    else None
  }

  /** The disk after a block write; an unreachable block leaves it as it was. */
  function WriteBlock(v: Volume, unit: Unit, bytes: seq<byte>, tag: u32, data: seq<byte>): (r: seq<byte>)
    requires |data| == BlockBytes(v, unit)
    ensures |r| == |bytes|
  {
    if Readable(v, unit, |bytes|, tag) then
      var start := FirstSector(v, unit, tag) * SECTOR_SIZE;
      bytes[..start] + data + bytes[start + |data|..]
    else bytes
  }

  /** Every cluster of a valid volume starts where the unwrapped arithmetic puts it. */
  lemma ClusterStart(v: Volume, c: u32)
    requires v.Valid() && c <= v.clusterCount
    ensures FirstSector(v, Cluster, c) == v.dataRegion + c * v.clusterSize - 2
  {
    TimesMonotonic(c, v.clusterCount, v.clusterSize);
    TimesMonotonic(0, c, v.clusterSize);
    var offset := c * v.clusterSize;
    WrapSmall(offset);
    WrapSmall(v.dataRegion + offset - 2);
  }

  /** The bytes [from, to), if there are such. */
  function Part(bytes: seq<byte>, from: int, to: int): Option<seq<byte>> {
    if 0 <= from <= to <= |bytes| then Some(bytes[from..to]) else None
  }

  /** On a disk that holds the whole volume every cluster below the count can be read, and is the clusterSize
      sectors that the code's arithmetic puts there; the one numbered by the count itself, which the bound check
      still admits, can be read only if the disk and the volume go on behind the last one; no other can. */
  lemma ClusterReadableExactly(v: Volume, bytes: seq<byte>, c: u32)
    requires v.Valid() && v.sectorCount * 512 <= |bytes|
    ensures var first := v.dataRegion + c * v.clusterSize - 2;
            var end := first + v.clusterSize;
            && (c < v.clusterCount ==> Part(bytes, first * 512, end * 512).Some?)
            && ReadBlock(v, Cluster, bytes, c) ==
               if c < v.clusterCount || (c == v.clusterCount && Wrap(end - 1) <= v.sectorCount)
               then Part(bytes, first * 512, end * 512) else None
  {
    hide FirstSector, Wrap, Reachable;
    var first := v.dataRegion + c * v.clusterSize - 2;
    if c <= v.clusterCount {
      ClusterStart(v, c);
      ClusterInBounds(v, c);
      hide ReadBlock, Volume.Valid;
      ReadAtFirst(v, bytes, c, first);
    }
  }

  lemma ClusterInBounds(v: Volume, c: u32)
    requires v.Valid() && c <= v.clusterCount
    ensures var first := v.dataRegion + c * v.clusterSize - 2;
            && 0 <= first
            && (c < v.clusterCount ==>
                 first + v.clusterSize <= v.sectorCount && Wrap(first + v.clusterSize - 1) <= v.sectorCount)
  {
    TimesMonotonic(0, c, v.clusterSize);
    if c < v.clusterCount {
      ClustersApart(c, v.clusterCount, v.clusterSize);
      WrapSmall(v.dataRegion + c * v.clusterSize - 2 + v.clusterSize - 1);
    }
  }

  lemma ReadAtFirst(v: Volume, bytes: seq<byte>, c: u32, first: u32)
    requires c <= v.clusterCount && FirstSector(v, Cluster, c) == first
    ensures var end := first + v.clusterSize;
            ReadBlock(v, Cluster, bytes, c) ==
            if Wrap(end - 1) <= v.sectorCount then Part(bytes, first * 512, end * 512) else None
  {
    hide FirstSector;
  }

  /** A sector can be read exactly up to the one numbered by the sector count, if the disk has it. */
  lemma SectorReadableExactly(v: Volume, bytes: seq<byte>, t: u32)
    ensures ReadBlock(v, Sector, bytes, t) ==
            if t <= v.sectorCount && t * 512 + 512 <= |bytes| then Some(bytes[t * 512..t * 512 + 512]) else None
  {
    WrapSmall(t);
  }

  /** The format puts cluster c at the start of the data region plus c - 2 clusters ("FAT Data
      Structure"). The code does exactly when a cluster is one sector; a larger one is read and
      written 2 * clusterSize - 2 sectors further on. */
  lemma StartsWhereFormatSaysExactly(v: Volume, c: u32)
    requires v.Valid() && 2 <= c <= v.clusterCount
    ensures FirstSector(v, Cluster, c) == v.dataRegion + (c - 2) * v.clusterSize + 2 * v.clusterSize - 2
    ensures FirstSector(v, Cluster, c) == v.dataRegion + (c - 2) * v.clusterSize <==> v.clusterSize == 1
  {
    ClusterStart(v, c);
    assert c * v.clusterSize == (c - 2) * v.clusterSize + 2 * v.clusterSize;
  }

  lemma ClustersApart(c: nat, d: nat, n: nat)
    requires c < d
    ensures c * n + n <= d * n
  {
    TimesMonotonic(c + 1, d, n);
    assert (c + 1) * n == c * n + n;
  }

  /** Two different blocks never share a byte of the disk. */
  lemma BlocksDisjoint(v: Volume, unit: Unit, size: nat, t: u32, u: u32)
    requires v.Valid() && t != u
    requires Readable(v, unit, size, t) && Readable(v, unit, size, u)
    ensures var a, b, n := FirstSector(v, unit, t), FirstSector(v, unit, u), Span(v, unit);
            a + n <= b || b + n <= a
  {
    if unit.Cluster? {
      ClusterStart(v, t);
      ClusterStart(v, u);
      ClustersApart(if t < u then t else u, if t < u then u else t, v.clusterSize);
    }
  }

  lemma SpliceSlice(bytes: seq<byte>, a: nat, data: seq<byte>, b: nat, n: nat)
    requires a + |data| <= |bytes| && b + n <= |bytes|
    requires (a == b && n == |data|) || a + |data| <= b || b + n <= a
    ensures (bytes[..a] + data + bytes[a + |data|..])[b..b + n] ==
            if a == b && n == |data| then data else bytes[b..b + n]
  {
    var after := bytes[..a] + data + bytes[a + |data|..];
    if a == b && n == |data| {
      assert after[b..b + n] == data;
    } else {
      assert forall k :: b <= k < b + n ==> after[k] == bytes[k];
      assert after[b..b + n] == bytes[b..b + n];
    }
  }

  /** Read after write: the block written reads back, every other block reads as before,
      and a block that could not be read still cannot. */
  lemma ReadAfterWrite(v: Volume, unit: Unit, bytes: seq<byte>, t: u32, data: seq<byte>, u: u32)
    requires v.Valid() && |data| == BlockBytes(v, unit)
    requires Readable(v, unit, |bytes|, t)
    ensures ReadBlock(v, unit, WriteBlock(v, unit, bytes, t, data), u)
         == if u == t then Some(data) else ReadBlock(v, unit, bytes, u)
  {
    var a := FirstSector(v, unit, t) * SECTOR_SIZE;
    if u == t {
      SpliceSlice(bytes, a, data, a, |data|);
    } else if Readable(v, unit, |bytes|, u) {
      BlocksDisjoint(v, unit, |bytes|, t, u);
      SpliceSlice(bytes, a, data, FirstSector(v, unit, u) * SECTOR_SIZE, |data|);
    }
  }

  /** A block that can be read can be written, and then reads back, with every byte of the disk outside it as it
      was; one that cannot be read leaves the disk as it was. */
  lemma WriteIsRead(v: Volume, unit: Unit, bytes: seq<byte>, t: u32, data: seq<byte>)
    requires v.Valid() && |data| == BlockBytes(v, unit)
    ensures var after, start := WriteBlock(v, unit, bytes, t, data), FirstSector(v, unit, t) * 512;
            if ReadBlock(v, unit, bytes, t).None? then after == bytes
            else
              && ReadBlock(v, unit, after, t) == Some(data)
              && forall k :: 0 <= k < |bytes| && !(start <= k < start + |data|) ==> after[k] == bytes[k]
  {
    if Readable(v, unit, |bytes|, t) {
      ReadAfterWrite(v, unit, bytes, t, data, t);
    }
  }

  /** Writing a data cluster, numbered from two, touches no sector below the data region:
      the tables and the boot record are out of its reach. */
  lemma ClusterWriteSparesTables(v: Volume, bytes: seq<byte>, c: u32, data: seq<byte>)
    requires v.Valid() && |data| == v.ClusterBytes() && 2 <= c
    ensures var after := WriteBlock(v, Cluster, bytes, c, data);
            forall k :: 0 <= k < v.dataRegion * SECTOR_SIZE && k < |bytes| ==> after[k] == bytes[k]
  {
    if Readable(v, Cluster, |bytes|, c) {
      ClusterStart(v, c);
      TimesMonotonic(2, c, v.clusterSize);
    }
  }

  /** The abstract disk behind struct disk, together with the mounted geometry. */
  class Disk {
    const volume: Volume
    var bytes: seq<byte>

    constructor (volume: Volume, bytes: seq<byte>)
      ensures this.volume == volume && this.bytes == bytes
    {
      this.volume, this.bytes := volume, bytes;
    }

    method ReadSectors(lba: u32, n: u32) returns (r: Option<seq<byte>>)
      ensures r == if Reachable(volume, |bytes|, lba, n)
                   then Some(bytes[lba * SECTOR_SIZE..(lba + n) * SECTOR_SIZE]) else None
    {
      if Wrap(lba + n - 1) > volume.sectorCount {
        return None;
      }
      if (lba + n) * SECTOR_SIZE > |bytes| {
        return None;
      }
      r := Some(bytes[lba * SECTOR_SIZE..(lba + n) * SECTOR_SIZE]);
    }

    method WriteSectors(lba: u32, buffer: seq<byte>, n: u32) returns (ok: bool)
      requires |buffer| == n * SECTOR_SIZE
      modifies this
      ensures ok == Reachable(volume, |old(bytes)|, lba, n)
      ensures bytes == if ok then old(bytes)[..lba * SECTOR_SIZE] + buffer + old(bytes)[(lba + n) * SECTOR_SIZE..]
                       else old(bytes)
    {
      if Wrap(lba + n - 1) > volume.sectorCount {
        return false;
      }
      if (lba + n) * SECTOR_SIZE > |bytes| {
        return false;
      }
      bytes := bytes[..lba * SECTOR_SIZE] + buffer + bytes[(lba + n) * SECTOR_SIZE..];
      ok := true;
    }

    method ReadCluster(cluster: u32) returns (r: Option<seq<byte>>)
      ensures r == ReadBlock(volume, Cluster, bytes, cluster)
    {
      if cluster > volume.clusterCount {
        return None;
      }
      var offset := Wrap(cluster * volume.clusterSize);
      r := ReadSectors(Wrap(volume.dataRegion + offset - 2), volume.clusterSize);
    }

    method WriteCluster(cluster: u32, buffer: seq<byte>) returns (ok: bool)
      requires |buffer| == volume.ClusterBytes()
      modifies this
      ensures ok == Readable(volume, Cluster, |old(bytes)|, cluster)
      ensures bytes == WriteBlock(volume, Cluster, old(bytes), cluster, buffer)
    {
      if cluster > volume.clusterCount {
        return false;
      }
      var offset := Wrap(cluster * volume.clusterSize);
      ok := WriteSectors(Wrap(volume.dataRegion + offset - 2), buffer, volume.clusterSize);
    }

    /** The cache's read function. */
    method Fetch(unit: Unit, tag: u32) returns (r: Option<seq<byte>>)
      ensures r == ReadBlock(volume, unit, bytes, tag)
    {
      match unit
      case Sector => r := ReadSectors(tag, 1);
      case Cluster => r := ReadCluster(tag);
    }

    /** The cache's write function. */
    method Store(unit: Unit, tag: u32, data: seq<byte>) returns (ok: bool)
      requires |data| == BlockBytes(volume, unit)
      modifies this
      ensures ok == Readable(volume, unit, |old(bytes)|, tag)
      ensures bytes == WriteBlock(volume, unit, old(bytes), tag, data)
    {
      match unit
      case Sector => ok := WriteSectors(tag, data, 1);
      case Cluster => ok := WriteCluster(tag, data);
    }
  }
}

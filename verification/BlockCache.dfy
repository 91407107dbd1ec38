/** The cache as the driver holds it: an array of lines over a disk (src/fs/fat32/cache.c). */
module BlockCache {
  import opened Words
  import opened Device
  import opened Cache

  /** The blocks that a pair of driver functions can transfer. */
  ghost function Blocks(v: Volume, unit: Unit, bytes: seq<byte>): Memory {
    imap t: u32 | Readable(v, unit, |bytes|, t) :: ReadBlock(v, unit, bytes, t).value
  }

  /** Block writes on the disk are map updates on the blocks. */
  lemma BlocksAfterWrite(v: Volume, unit: Unit, bytes: seq<byte>, tag: u32, data: seq<byte>)
    requires v.Valid() && |data| == BlockBytes(v, unit)
    ensures Blocks(v, unit, WriteBlock(v, unit, bytes, tag, data))
         == if Readable(v, unit, |bytes|, tag) then Blocks(v, unit, bytes)[tag := data] else Blocks(v, unit, bytes)
  {
    if Readable(v, unit, |bytes|, tag) {
      var after := WriteBlock(v, unit, bytes, tag, data);
      forall t: u32
        ensures ReadBlock(v, unit, after, t) == if t == tag then Some(data) else ReadBlock(v, unit, bytes, t)
      {
        ReadAfterWrite(v, unit, bytes, tag, data, t);
      }
    }
  }

  /** The disk after writing back lines i and up, in order. */
  function FlushBytes(v: Volume, unit: Unit, lines: seq<Line>, bytes: seq<byte>, i: nat): (r: seq<byte>)
    requires i <= |lines|
    requires forall j :: 0 <= j < |lines| && lines[j].valid ==> |lines[j].data| == BlockBytes(v, unit)
    ensures |r| == |bytes|
    decreases |lines| - i
  {
    if i == |lines| then bytes
    else FlushBytes(v, unit, lines,
                    if lines[i].valid && lines[i].tag != NO_TAG
                    then WriteBlock(v, unit, bytes, lines[i].tag, lines[i].data) else bytes,
                    i + 1)
  }

  /** Seen as blocks, that is the flush of the cache's specification. */
  lemma {:induction false} FlushBytesIsFlush(v: Volume, unit: Unit, lines: seq<Line>, bytes: seq<byte>, i: nat)
    requires v.Valid() && i <= |lines|
    requires forall j :: 0 <= j < |lines| && lines[j].valid ==> |lines[j].data| == BlockBytes(v, unit)
    ensures Blocks(v, unit, FlushBytes(v, unit, lines, bytes, i))
         == State(BlockBytes(v, unit), lines, Blocks(v, unit, bytes)).FlushFrom(i).disk
    decreases |lines| - i
  {
    if i < |lines| {
      if lines[i].valid && lines[i].tag != NO_TAG {
        BlocksAfterWrite(v, unit, bytes, lines[i].tag, lines[i].data);
        FlushBytesIsFlush(v, unit, lines, WriteBlock(v, unit, bytes, lines[i].tag, lines[i].data), i + 1);
      } else {
        FlushBytesIsFlush(v, unit, lines, bytes, i + 1);
      }
    }
  }

  /** Flushing lines of data clusters, numbered from two, leaves the tables on the disk alone. */
  lemma {:induction false} ClusterFlushSparesTables(v: Volume, lines: seq<Line>, bytes: seq<byte>, i: nat)
    requires v.Valid() && i <= |lines|
    requires forall j :: 0 <= j < |lines| && lines[j].valid ==>
             |lines[j].data| == BlockBytes(v, Cluster) && 2 <= lines[j].tag
    ensures var after := FlushBytes(v, Cluster, lines, bytes, i);
            forall k :: 0 <= k < v.dataRegion * SECTOR_SIZE && k < |bytes| ==> after[k] == bytes[k]
    decreases |lines| - i
  {
    if i < |lines| {
      if lines[i].valid && lines[i].tag != NO_TAG {
        ClusterWriteSparesTables(v, bytes, lines[i].tag, lines[i].data);
        ClusterFlushSparesTables(v, lines, WriteBlock(v, Cluster, bytes, lines[i].tag, lines[i].data), i + 1);
      } else {
        ClusterFlushSparesTables(v, lines, bytes, i + 1);
      }
    }
  }

  /** A mounted volume: the layout is valid, and neither the disk nor a cluster exceeds 32-bit sizes. */
  predicate Mounted(v: Volume, bytes: seq<byte>) {
    v.Valid() && v.clusterSize * 512 < WORD && |bytes| <= NO_TAG * SECTOR_SIZE
  }

  /** The blocks of a mounted volume are what a cache may stand on. */
  lemma MountedBlocks(v: Volume, unit: Unit, bytes: seq<byte>)
    requires Mounted(v, bytes)
    ensures 0 < BlockBytes(v, unit) < WORD && NO_TAG !in Blocks(v, unit, bytes)
    ensures forall t :: t in Blocks(v, unit, bytes) ==> |Blocks(v, unit, bytes)[t]| == BlockBytes(v, unit)
    ensures forall t: u32 :: t in Blocks(v, unit, bytes) <==> Readable(v, unit, |bytes|, t)
  {}

  /** On a disk that holds the whole volume every sector and every cluster below the counts is there. */
  lemma VolumeBlocks(v: Volume, bytes: seq<byte>)
    requires Mounted(v, bytes) && v.sectorCount * 512 <= |bytes|
    ensures forall t: u32 :: t < v.sectorCount ==> t in Blocks(v, Sector, bytes)
    ensures forall c: u32 :: c < v.clusterCount ==> c in Blocks(v, Cluster, bytes)
  {
    forall t: u32 | t < v.sectorCount
      ensures t in Blocks(v, Sector, bytes)
    {
      SectorReadableExactly(v, bytes, t);
    }
    forall c: u32 | c < v.clusterCount
      ensures c in Blocks(v, Cluster, bytes)
    {
      ClusterReadableExactly(v, bytes, c);
    }
  }

  class BlockCache {
    const unit: Unit
    const lines: array<Line>

    /** cache_init and cache_lines_create: all lines empty. */
    constructor (unit: Unit, size: nat)
      ensures this.unit == unit && fresh(lines)
      ensures lines[..] == seq(size, _ => Line(false, NO_TAG, []))
    {
      this.unit := unit;
      lines := new Line[size];
      new;
      for i := 0 to size
        invariant forall j :: 0 <= j < i ==> lines[j] == Line(false, NO_TAG, [])
      {
        lines[i] := Line(false, NO_TAG, []);
      }
    }

    ghost function Snapshot(disk: Disk): State
      reads lines, disk
    {
      State(BlockBytes(disk.volume, unit), lines[..], Blocks(disk.volume, unit, disk.bytes))
    }

    method Access(disk: Disk, sector: u32, offset: u32, value: byte, mode: Mode) returns (r: byte)
      requires Snapshot(disk).Valid()
      modifies lines
      ensures (Snapshot(disk), r) == old(Snapshot(disk)).Access(sector, offset, value, mode)
    {
      var blockSize := BlockBytes(disk.volume, unit);
      var tag := Wrap(sector + Quotient(offset, blockSize));
      var index := tag % lines.Length;
      IndexInRange(Snapshot(disk), tag);
      if lines[index].tag != tag {
        var data := disk.Fetch(unit, tag);
        if data.Some? {
          lines[index] := Line(true, tag, data.value);
        } else {
          lines[index] := Line(false, lines[index].tag, []);
        }
      }
      assert Snapshot(disk).lines == old(Snapshot(disk)).Fetch(tag).lines;
      if !lines[index].valid {
        return 0;
      }
      match mode
      case Read =>
        r := lines[index].data[offset % blockSize];
      case Write =>
        lines[index] := lines[index].(data := Poke(lines[index].data, offset % blockSize, value));
        r := 0;
    }

    method ReadL(disk: Disk, sector: u32, offset: u32) returns (r: u32)
      requires Snapshot(disk).Valid()
      modifies lines
      ensures (Snapshot(disk), r) == old(Snapshot(disk)).ReadLong(sector, offset)
    {
      var b0 := Access(disk, sector, offset, 0, Read);
      var b1 := Access(disk, sector, Wrap(offset + 1), 0, Read);
      var b2 := Access(disk, sector, Wrap(offset + 2), 0, Read);
      var b3 := Access(disk, sector, Wrap(offset + 3), 0, Read);
      r := LittleEndian(b0, b1, b2, b3);
    }

    method WriteL(disk: Disk, sector: u32, offset: u32, value: u32)
      requires Snapshot(disk).Valid()
      modifies lines
      ensures Snapshot(disk) == old(Snapshot(disk)).WriteLong(sector, offset, value)
    {
      ghost var target := Snapshot(disk).WriteLong(sector, offset, value);
      WrapSmall(offset);
      var _ := Access(disk, sector, offset, Octet(value, 0), Write);
      assert Snapshot(disk).WriteOctets(sector, offset, value, 1) == target;
      var _ := Access(disk, sector, Wrap(offset + 1), Octet(value, 1), Write);
      assert Snapshot(disk).WriteOctets(sector, offset, value, 2) == target;
      var _ := Access(disk, sector, Wrap(offset + 2), Octet(value, 2), Write);
      assert Snapshot(disk).WriteOctets(sector, offset, value, 3) == target;
      var _ := Access(disk, sector, Wrap(offset + 3), Octet(value, 3), Write);
    }

    method Flush(disk: Disk)
      requires Snapshot(disk).Valid() && disk.volume.Valid()
      modifies disk
      ensures lines[..] == old(lines[..])
      ensures disk.bytes == FlushBytes(disk.volume, unit, lines[..], old(disk.bytes), 0)
      ensures Snapshot(disk) == old(Snapshot(disk)).FlushFrom(0)
    {
      ghost var before := disk.bytes;
      var i := 0;
      while i < lines.Length
        invariant 0 <= i <= lines.Length
        invariant FlushBytes(disk.volume, unit, lines[..], disk.bytes, i) ==
                  FlushBytes(disk.volume, unit, lines[..], before, 0)
      {
        if lines[i].valid && lines[i].tag != NO_TAG {
          var ok := disk.Store(unit, lines[i].tag, lines[i].data);
        }
        i := i + 1;
      }
      FlushBytesIsFlush(disk.volume, unit, lines[..], before, 0);
      FlushKeepsValid(old(Snapshot(disk)));
    }
  }
}

/** The direct-mapped block cache of src/fs/fat32/cache.c and the flat byte memory it stands for.
    The cache's read and write functions are a map of blocks: a block that is absent cannot be read.
    What follows holds for any such pair; BlockCache.dfy supplies the real ones. A conflicting access
    discards the old line without writing it back, so the refinement holds exactly for accesses that
    never displace a line differing from its block. */
module Cache {
  import opened Words

  /** The tag of an empty line: -1 as an unsigned word. */
  const NO_TAG: u32 := 0xFFFF_FFFF

  datatype Line = Line(valid: bool, tag: u32, data: seq<byte>)

  datatype Mode = Read | Write

  /** Block number to block contents; blocks outside the device are absent. */
  type Memory = imap<u32, seq<byte>>

  function Poke(block: seq<byte>, at: nat, value: byte): seq<byte>
    requires at < |block|
  {
    block[at := value]
  }

  /** The block number of an access: a 32-bit sum (cache.c:52). */
  function BlockOf(blockSize: nat, sector: u32, offset: u32): u32
    requires blockSize > 0
  {
    Wrap(sector + Quotient(offset, blockSize))
  }

  /** A cache together with the disk under it. */
  datatype State = State(blockSize: nat, lines: seq<Line>, disk: Memory) {

    ghost predicate Valid() {
      && 0 < |lines| < WORD && 0 < blockSize < WORD
      && NO_TAG !in disk && (forall t :: t in disk ==> |disk[t]| == blockSize)
      && forall i :: 0 <= i < |lines| && lines[i].valid ==>
           lines[i].tag % |lines| == i && lines[i].tag in disk && |lines[i].data| == blockSize
    }

    /** Besides, no line is left tagged with a block that it does not hold. */
    ghost predicate Coherent() {
      Valid() && forall i :: 0 <= i < |lines| && !lines[i].valid ==> lines[i].tag == NO_TAG
    }

    predicate Holds(tag: u32) {
      |lines| > 0 && lines[tag % |lines|].valid && lines[tag % |lines|].tag == tag
    }

    /** What the cache and its disk together say a block contains. */
    ghost function Current(tag: u32): seq<byte> {
      if tag !in disk then [] else if Holds(tag) then lines[tag % |lines|].data else disk[tag]
    }

    /** The flat memory this state stands for. */
    ghost function Memory(): Memory {
      imap t: u32 | t in disk :: Current(t)
    }

    /** The block an access falls in. */
    ghost function Tag(sector: u32, offset: u32): u32
      requires blockSize > 0
    {
      BlockOf(blockSize, sector, offset)
    }

    /** The line found or loaded for a block. A failed load invalidates the line but leaves
        the old tag on it (cache.c:55-66). */
    ghost function Load(tag: u32): Line
      requires |lines| > 0
    {
      var line := lines[tag % |lines|];
      if line.tag == tag then line
      else if tag in disk then Line(true, tag, disk[tag])
      else Line(false, line.tag, [])
    }

    ghost function Fetch(tag: u32): State
      requires |lines| > 0
    {
      this.(lines := lines[tag % |lines| := Load(tag)])
    }

    /** One byte access: the state it leaves and the byte it returns. */
    ghost function Access(sector: u32, offset: u32, value: byte, mode: Mode): (r: (State, byte))
      requires Valid()
      ensures r.0.Valid() && r.0 == this.(lines := r.0.lines) && |r.0.lines| == |lines|
    {
      var tag := Tag(sector, offset);
      var s, at, line := Fetch(tag), offset % blockSize, Load(tag);
      if !line.valid then (s, 0)
      else match mode
        case Read => (s, line.data[at])
        case Write => (s.(lines := s.lines[tag % |lines| := line.(data := Poke(line.data, at, value))]), 0)
    }

    /** Four byte reads, least significant first; the offsets wrap. */
    ghost function ReadLong(sector: u32, offset: u32): (r: (State, u32))
      requires Valid()
      ensures r.0.Valid() && r.0 == this.(lines := r.0.lines) && |r.0.lines| == |lines|
    {
      var (s0, b0) := Access(sector, offset, 0, Read);
      var (s1, b1) := s0.Access(sector, Wrap(offset + 1), 0, Read);
      var (s2, b2) := s1.Access(sector, Wrap(offset + 2), 0, Read);
      var (s3, b3) := s2.Access(sector, Wrap(offset + 3), 0, Read);
      (s3, LittleEndian(b0, b1, b2, b3))
    }

    /** The byte writes of a word from its k-th byte on. */
    ghost function WriteOctets(sector: u32, offset: u32, value: u32, k: nat): (r: State)
      requires Valid() && k <= 4
      ensures r.Valid() && r == this.(lines := r.lines) && |r.lines| == |lines|
      decreases 4 - k
    {
      if k == 4 then this
      else Access(sector, Wrap(offset + k), Octet(value, k), Write).0.WriteOctets(sector, offset, value, k + 1)
    }

    ghost function WriteLong(sector: u32, offset: u32, value: u32): (r: State)
      requires Valid()
    {
      WriteOctets(sector, offset, value, 0)
    }

    /** The disk after writing back lines i and up, in order. */
    ghost function FlushFrom(i: nat): State
      requires i <= |lines|
      decreases |lines| - i
    {
      if i == |lines| then this
      else if lines[i].valid && lines[i].tag != NO_TAG then
        this.(disk := if lines[i].tag in disk then disk[lines[i].tag := lines[i].data] else disk).FlushFrom(i + 1)
      else FlushFrom(i + 1)
    }

    /** The guard under which an access keeps what the state stands for: the line is already the
        right one, or it is empty, or the block can be loaded and the line it displaces equals its block. */
    ghost predicate FetchSafe(tag: u32)
      requires |lines| > 0
    {
      var line := lines[tag % |lines|];
      || line.tag == tag
      || !line.valid
      || (tag in disk && line.tag in disk && disk[line.tag] == line.data)
    }
  }

  /** The word of four bytes, least significant first. */
  function LittleEndian(b0: byte, b1: byte, b2: byte, b3: byte): u32 {
    b0 + 0x100 * b1 + 0x1_0000 * b2 + 0x100_0000 * b3
  }

  /** Byte k of a word: the word shifted right by 8k and truncated. */
  function Octet(value: u32, k: nat): byte
    requires k < 4
  {
    match k
    case 0 => value % 0x100
    case 1 => value / 0x100 % 0x100
    case 2 => value / 0x100 / 0x100 % 0x100
    case _ => value / 0x100 / 0x100 / 0x100
  }

  lemma OctetsRebuild(value: u32)
    ensures LittleEndian(Octet(value, 0), Octet(value, 1), Octet(value, 2), Octet(value, 3)) == value
  {}

  /** The lines of a newly created cache: all empty (cache.c:38-42). */
  function EmptyLines(size: nat): seq<Line> {
    seq(size, _ => Line(false, NO_TAG, []))
  }

  lemma EmptyIsDisk(blockSize: nat, size: nat, disk: Memory)
    requires 0 < size < WORD && 0 < blockSize < WORD && NO_TAG !in disk
    requires forall t :: t in disk ==> |disk[t]| == blockSize
    ensures var s := State(blockSize, EmptyLines(size), disk); s.Coherent() && s.Memory() == disk
  {}

  lemma IndexInRange(s: State, tag: u32)
    requires |s.lines| > 0
    ensures 0 <= tag % |s.lines| < |s.lines|
  {}

  /** Fetching a block keeps the memory, and leaves no stale tag, exactly under the guard. */
  lemma FetchKeepsExactlyWhenSafe(s: State, tag: u32)
    requires s.Coherent()
    ensures s.FetchSafe(tag) <==> s.Fetch(tag).Coherent() && s.Fetch(tag).Memory() == s.Memory()
  {
    var s', i := s.Fetch(tag), tag % |s.lines|;
    var line := s.lines[i];
    if s.FetchSafe(tag) {
      forall t: u32 | t in s.disk
        ensures s'.Current(t) == s.Current(t)
      {
        IndexInRange(s, t);
      }
    } else {
      assert line.valid && line.tag % |s.lines| == i;
      if tag in s.disk {
        assert s.Memory()[line.tag] == line.data && s'.Memory()[line.tag] == s.disk[line.tag];
      } else {
        assert !s'.lines[i].valid && s'.lines[i].tag == line.tag;
      }
    }
  }

  /** A load that fails poisons its line: the block that was there is on the device and is no longer
      cached, yet from then on it reads as zeros (cache.c:55-69). */
  lemma FailedFetchPoisons(s: State, tag: u32, sector: u32, offset: u32)
    requires s.Coherent() && tag !in s.disk
    requires s.lines[tag % |s.lines|].valid
    requires s.Tag(sector, offset) == s.lines[tag % |s.lines|].tag
    ensures var s' := s.Fetch(tag);
            s'.Tag(sector, offset) in s'.disk && s'.Access(sector, offset, 0, Read) == (s', 0)
  {
    var i := tag % |s.lines|;
    var s' := s.Fetch(tag);
    assert s'.lines[i] == Line(false, s.lines[i].tag, []);
    assert s'.Fetch(s.lines[i].tag).lines == s'.lines;
  }

  /** `after` is `before` with one cached block replaced: the line that holds it is the only one
      touched, and the disk is not. */
  ghost predicate Replaces(before: State, after: State, tag: u32, block: seq<byte>) {
    && before.Valid() && after.Coherent()
    && after == before.(lines := after.lines) && |after.lines| == |before.lines|
    && tag in before.disk && after.Holds(tag) && after.Current(tag) == block
    && (forall t :: t in before.disk && t != tag ==> after.Current(t) == before.Current(t))
    && (forall i :: 0 <= i < |before.lines| && i != tag % |before.lines| ==> after.lines[i] == before.lines[i])
  }

  lemma ReplacesMemory(before: State, after: State, tag: u32, block: seq<byte>)
    requires Replaces(before, after, tag, block)
    ensures after.Memory() == before.Memory()[tag := block]
  {}

  lemma ReplacesTwice(s0: State, s1: State, s2: State, tag: u32, b1: seq<byte>, b2: seq<byte>)
    requires Replaces(s0, s1, tag, b1) && Replaces(s1, s2, tag, b2)
    ensures Replaces(s0, s2, tag, b2)
  {}

  lemma FetchReplaces(s: State, tag: u32)
    requires s.Coherent() && tag in s.disk && s.FetchSafe(tag)
    ensures Replaces(s, s.Fetch(tag), tag, s.Current(tag))
    ensures s.Fetch(tag).Fetch(tag) == s.Fetch(tag)
  {
    var s' := s.Fetch(tag);
    FetchKeepsExactlyWhenSafe(s, tag);
    forall t | t in s.disk
      ensures s'.Current(t) == s.Current(t)
    {
      assert s'.Memory()[t] == s.Memory()[t];
    }
    assert s'.Fetch(tag).lines == s'.lines;
  }

  /** A safe read returns the byte of the flat memory, and changes nothing in it. */
  lemma ReadRefines(s: State, sector: u32, offset: u32)
    requires s.Coherent() && s.FetchSafe(s.Tag(sector, offset))
    ensures var (s', r) := s.Access(sector, offset, 0, Read);
            var m, tag := s.Memory(), s.Tag(sector, offset);
            && s'.Coherent() && s'.Memory() == m && s' == s.Fetch(tag)
            && (tag in m ==> |m[tag]| == s.blockSize)
            && r == if tag in m then m[tag][offset % s.blockSize] else 0
  {
    var tag := s.Tag(sector, offset);
    FetchKeepsExactlyWhenSafe(s, tag);
    if tag in s.disk {
      FetchReplaces(s, tag);
    }
  }

  /** A safe write of a block on the device changes exactly the addressed byte. */
  lemma WriteRefines(s: State, sector: u32, offset: u32, value: byte)
    requires s.Coherent() && s.FetchSafe(s.Tag(sector, offset)) && s.Tag(sector, offset) in s.disk
    ensures var tag := s.Tag(sector, offset);
            && |s.Current(tag)| == s.blockSize
            && Replaces(s, s.Access(sector, offset, value, Write).0, tag,
                        Poke(s.Current(tag), offset % s.blockSize, value))
  {
    var tag := s.Tag(sector, offset);
    var f, s' := s.Fetch(tag), s.Access(sector, offset, value, Write).0;
    FetchReplaces(s, tag);
    forall t | t in s.disk && t != tag
      ensures s'.Current(t) == f.Current(t)
    {
      IndexInRange(s, t);
    }
    ReplacesTwice(s, f, s', tag, s.Current(tag), Poke(s.Current(tag), offset % s.blockSize, value));
  }

  /** Any access to a block that can be transferred, whatever line it displaces: its line then holds the block,
      with the byte changed if it was a write, and no other line changes. */
  lemma AccessHolds(s: State, sector: u32, offset: u32, value: byte, mode: Mode)
    requires s.Coherent() && s.Tag(sector, offset) in s.disk
    ensures var (s', r) := s.Access(sector, offset, value, mode);
            var tag, at := s.Tag(sector, offset), offset % s.blockSize;
            && |s.Current(tag)| == s.blockSize && s'.Holds(tag)
            && (forall i :: 0 <= i < |s.lines| && i != tag % |s.lines| ==> s'.lines[i] == s.lines[i])
            && match mode
               case Read => r == s.Current(tag)[at] && s'.Current(tag) == s.Current(tag)
               case Write => r == 0 && s'.Current(tag) == Poke(s.Current(tag), at, value)
  {
    IndexInRange(s, s.Tag(sector, offset));
  }

  /** And to one that cannot: the result is zero, and nothing but that line can change, which is then invalid
      under its old tag. */
  lemma AccessFails(s: State, sector: u32, offset: u32, value: byte, mode: Mode)
    requires s.Coherent() && s.Tag(sector, offset) !in s.disk && s.Tag(sector, offset) != NO_TAG
    ensures var (s', r) := s.Access(sector, offset, value, mode);
            var i := s.Tag(sector, offset) % |s.lines|;
            0 <= i < |s.lines| && r == 0 && s' == s.(lines := s.lines[i := Line(false, s.lines[i].tag, [])])
  {
    IndexInRange(s, s.Tag(sector, offset));
  }

  /** A write outside the device changes nothing. */
  lemma WriteOutside(s: State, sector: u32, offset: u32, value: byte)
    requires s.Coherent() && s.FetchSafe(s.Tag(sector, offset)) && s.Tag(sector, offset) !in s.disk
    ensures var s' := s.Access(sector, offset, value, Write).0; s'.Coherent() && s'.Memory() == s.Memory()
  {
    FetchKeepsExactlyWhenSafe(s, s.Tag(sector, offset));
  }

  /** What writing back the lines from i on leaves on the disk, block by block. */
  lemma {:induction false} FlushedFrom(s: State, i: nat, tag: u32)
    requires s.Valid() && i <= |s.lines|
    ensures var r := s.FlushFrom(i);
            && r == s.(disk := r.disk) && (tag in r.disk <==> tag in s.disk)
            && (tag in s.disk ==> r.disk[tag] == if i <= tag % |s.lines| then s.Current(tag) else s.disk[tag])
    decreases |s.lines| - i
  {
    IndexInRange(s, tag);
    if i < |s.lines| && s.lines[i].valid {
      FlushedFrom(s.(disk := s.disk[s.lines[i].tag := s.lines[i].data]), i + 1, tag);
    } else if i < |s.lines| {
      FlushedFrom(s, i + 1, tag);
    }
  }

  /** After a flush the disk equals the memory, and every line equals its block. */
  lemma FlushPublishes(s: State)
    requires s.Coherent()
    ensures var r := s.FlushFrom(0);
            && r == s.(disk := s.Memory())
            && r.Coherent() && r.Memory() == s.Memory() && Clean(r, {})
  {
    FlushedIsMemory(s);
    hide State.FlushFrom;
    PublishedIsClean(s);
  }

  lemma FlushedIsMemory(s: State)
    requires s.Valid()
    ensures s.FlushFrom(0) == s.(disk := s.Memory())
  {
    hide State.FlushFrom, State.Current;
    var r := s.FlushFrom(0);
    FlushedFrom(s, 0, 0);
    forall t: u32
      ensures t in r.disk <==> t in s.disk
      ensures t in s.disk ==> r.disk[t] == s.Current(t)
    {
      FlushedFrom(s, 0, t);
      IndexInRange(s, t);
    }
    assert r.disk == s.Memory();
  }

  /** A state whose disk is its memory. */
  lemma PublishedIsClean(s: State)
    requires s.Coherent()
    ensures var r := s.(disk := s.Memory()); r.Coherent() && r.Memory() == s.Memory() && Clean(r, {})
  {
    var r := s.(disk := s.Memory());
    forall t | t in s.disk
      ensures |s.Current(t)| == s.blockSize && r.Current(t) == s.Current(t)
    {
      IndexInRange(s, t);
    }
    forall i | 0 <= i < |s.lines| && s.lines[i].valid
      ensures s.Current(s.lines[i].tag) == s.lines[i].data
    {}
    assert r.Memory() == s.Memory();
  }

  // Aligned words, in blocks of 512 bytes.

  function WordAt(block: seq<byte>, at: nat): u32
    requires at + 4 <= |block|
  {
    LittleEndian(block[at], block[at + 1], block[at + 2], block[at + 3])
  }

  function PokeOctets(block: seq<byte>, at: nat, value: u32, k: nat): (r: seq<byte>)
    requires at + 4 <= |block| && k <= 4
    ensures |r| == |block|
    decreases 4 - k
  {
    if k == 4 then block else PokeOctets(Poke(block, at + k, Octet(value, k)), at, value, k + 1)
  }

  function PokeWord(block: seq<byte>, at: nat, value: u32): (r: seq<byte>)
    requires at + 4 <= |block|
  {
    PokeOctets(block, at, value, 0)
  }

  lemma {:induction false} PokedOctets(block: seq<byte>, at: nat, value: u32, k: nat, i: nat)
    requires at + 4 <= |block| && k <= 4 && i < |block|
    ensures PokeOctets(block, at, value, k)[i] == if at + k <= i < at + 4 then Octet(value, i - at) else block[i]
    decreases 4 - k
  {
    if k < 4 {
      PokedOctets(Poke(block, at + k, Octet(value, k)), at, value, k + 1, i);
    }
  }

  /** Writing a word makes it read back, and leaves the aligned words beside it alone. */
  lemma WordAfterPoke(block: seq<byte>, at: nat, value: u32, other: nat)
    requires at + 4 <= |block| && other + 4 <= |block| && at % 4 == 0 && other % 4 == 0
    ensures |PokeWord(block, at, value)| == |block|
    ensures WordAt(PokeWord(block, at, value), other) == if other == at then value else WordAt(block, other)
  {
    OctetsRebuild(value);
    PokedOctets(block, at, value, 0, other);
    PokedOctets(block, at, value, 0, other + 1);
    PokedOctets(block, at, value, 0, other + 2);
    PokedOctets(block, at, value, 0, other + 3);
  }

  lemma AlignedRest(offset: nat)
    requires offset % 4 == 0
    ensures offset % 512 % 4 == 0
  {
    var q, r := offset / 512, offset % 512;
    assert r == offset - 4 * (128 * q);
  }

  lemma AlignedInBlock(offset: u32, k: nat)
    requires offset % 4 == 0 && k < 4
    ensures offset + k < WORD
    ensures (offset + k) / 512 == offset / 512 && (offset + k) % 512 == offset % 512 + k
    ensures offset % 512 % 4 == 0 && offset % 512 + 4 <= 512
  {
    AlignedRest(offset);
    var q, r := offset / 512, offset % 512;
    assert r < 512 && r % 4 == 0 && r + 4 <= 512;
    assert offset + k == 512 * q + (r + k);
  }

  /** The four bytes of an aligned word share a block, so only the first access can displace a line. */
  lemma SameBlock(s: State, sector: u32, offset: u32, k: nat)
    requires s.Valid() && s.blockSize == 512 && offset % 4 == 0 && k < 4
    ensures Wrap(offset + k) == offset + k
    ensures s.Tag(sector, Wrap(offset + k)) == s.Tag(sector, offset)
    ensures (offset + k) % s.blockSize == offset % s.blockSize + k
    ensures offset % s.blockSize % 4 == 0 && offset % s.blockSize + 4 <= s.blockSize
  {
    AlignedInBlock(offset, k);
    WrapSmall(offset + k);
  }

  /** A safe aligned word read returns the word of the flat memory and changes nothing in it. */
  lemma ReadLongRefines(s: State, sector: u32, offset: u32)
    requires s.Coherent() && s.blockSize == 512 && offset % 4 == 0
    requires s.FetchSafe(s.Tag(sector, offset)) && s.Tag(sector, offset) in s.disk
    ensures var (s', r) := s.ReadLong(sector, offset);
            var m, tag, at := s.Memory(), s.Tag(sector, offset), offset % s.blockSize;
            && s'.Coherent() && s'.Memory() == m && s' == s.Fetch(tag)
            && at + 4 <= |m[tag]| && r == WordAt(m[tag], at)
  {
    hide State.Access, State.Memory, State.Fetch, State.Coherent, State.FetchSafe, Replaces;
    FetchReplaces(s, s.Tag(sector, offset));
    ReadRefines(s, sector, offset);
    SameBlock(s, sector, offset, 0);
    NextOctet(s, sector, offset, 1);
    NextOctet(s, sector, offset, 2);
    NextOctet(s, sector, offset, 3);
  }

  /** A later byte of the word is read from the line that the first one left there. */
  lemma NextOctet(s: State, sector: u32, offset: u32, k: nat)
    requires s.Coherent() && s.blockSize == 512 && offset % 4 == 0 && k < 4
    requires s.FetchSafe(s.Tag(sector, offset)) && s.Tag(sector, offset) in s.disk
    ensures var m, tag, at := s.Memory(), s.Tag(sector, offset), offset % s.blockSize;
            && tag in m && at + 4 <= |m[tag]| && s.Fetch(tag).Valid()
            && s.Fetch(tag).Access(sector, Wrap(offset + k), 0, Read) == (s.Fetch(tag), m[tag][at + k])
  {
    var tag := s.Tag(sector, offset);
    FetchReplaces(s, tag);
    FetchKeepsExactlyWhenSafe(s, tag);
    FetchKeepsExactlyWhenSafe(s.Fetch(tag), tag);
    SameBlock(s, sector, offset, k);
    SameBlock(s.Fetch(tag), sector, offset, k);
    hide State.Access, State.Fetch, State.FetchSafe, Replaces;
    ReadRefines(s.Fetch(tag), sector, Wrap(offset + k));
  }

  /** A word read of a block that is on the disk and not in the cache loads the block, whatever
      line it displaces, and gives the disk's word. */
  lemma DisplacingRead(s: State, sector: u32, offset: u32)
    requires s.Coherent() && s.blockSize == 512 && offset % 4 == 0
    requires var tag := s.Tag(sector, offset); tag in s.disk && !s.Holds(tag)
    ensures offset % 512 + 4 <= 512
    ensures var tag := s.Tag(sector, offset);
            && s.Fetch(tag).Coherent() && s.Fetch(tag).Holds(tag)
            && s.ReadLong(sector, offset) == (s.Fetch(tag), WordAt(s.disk[tag], offset % 512))
  {
    var tag := s.Tag(sector, offset);
    var f := s.Fetch(tag);
    assert f.Fetch(tag).lines == f.lines;
    SameBlock(s, sector, offset, 0);
    ReadLongRefines(f, sector, offset);
    assert f.Memory()[tag] == s.disk[tag];
    ReadFetchesFirst(s, sector, offset);
  }

  lemma ReadFetchesFirst(s: State, sector: u32, offset: u32)
    requires s.Coherent() && s.Tag(sector, offset) in s.disk
    ensures s.Fetch(s.Tag(sector, offset)).Valid()
    ensures s.ReadLong(sector, offset) == s.Fetch(s.Tag(sector, offset)).ReadLong(sector, offset)
  {
    var f := s.Fetch(s.Tag(sector, offset));
    assert f.Fetch(s.Tag(sector, offset)).lines == f.lines;
    AccessFetchesFirst(s, f, sector, offset);
    hide State.Access;
  }

  lemma AccessFetchesFirst(s: State, f: State, sector: u32, offset: u32)
    requires s.Valid() && f.Valid()
    requires f == s.Fetch(s.Tag(sector, offset)) && f.Fetch(f.Tag(sector, offset)) == f
    ensures s.Access(sector, offset, 0, Read) == f.Access(sector, offset, 0, Read)
  {}

  /** The k-th byte write of a word. */
  lemma WriteOctetRefines(s: State, sector: u32, offset: u32, value: u32, k: nat)
    requires s.Coherent() && s.blockSize == 512 && offset % 4 == 0 && k < 4
    requires s.FetchSafe(s.Tag(sector, offset)) && s.Tag(sector, offset) in s.disk
    ensures var tag, s1 := s.Tag(sector, offset), s.Access(sector, Wrap(offset + k), Octet(value, k), Write).0;
            && offset % 512 + 4 <= |s.Current(tag)| && s1.Tag(sector, offset) == tag && s1.FetchSafe(tag)
            && s1.Coherent() && s1.disk == s.disk && s1.blockSize == 512
            && s1.Current(tag) == Poke(s.Current(tag), offset % 512 + k, Octet(value, k))
            && Replaces(s, s1, tag, Poke(s.Current(tag), offset % 512 + k, Octet(value, k)))
  {
    SameBlock(s, sector, offset, k);
    WriteRefines(s, sector, Wrap(offset + k), Octet(value, k));
    assert Wrap(offset + k) % s.blockSize == offset % 512 + k;
  }

  lemma {:induction false} WriteOctetsRefines(
    s: State, sector: u32, offset: u32, value: u32, k: nat, s': State, block: seq<byte>)
    requires s.Coherent() && s.blockSize == 512 && offset % 4 == 0 && k < 4
    requires s.FetchSafe(s.Tag(sector, offset)) && s.Tag(sector, offset) in s.disk
    requires offset % 512 + 4 <= |s.Current(s.Tag(sector, offset))|
    requires s' == s.WriteOctets(sector, offset, value, k)
    requires block == PokeOctets(s.Current(s.Tag(sector, offset)), offset % 512, value, k)
    ensures Replaces(s, s', s.Tag(sector, offset), block)
    decreases 4 - k
  {
    hide Replaces, State.Access, State.Holds, State.Current, State.Fetch, State.FetchSafe, State.WriteOctets,
      PokeOctets, Poke;
    var tag, at := s.Tag(sector, offset), offset % 512;
    var s1 := s.Access(sector, Wrap(offset + k), Octet(value, k), Write).0;
    var b1 := Poke(s.Current(tag), at + k, Octet(value, k));
    WriteOctetRefines(s, sector, offset, value, k);
    OctetsUnfold(s, sector, offset, value, k, s.Current(tag), at);
    if k < 3 {
      WriteOctetsRefines(s1, sector, offset, value, k + 1, s', block);
      ReplacesTwice(s, s1, s', tag, b1, block);
    }
  }

  lemma OctetsUnfold(s: State, sector: u32, offset: u32, value: u32, k: nat, block: seq<byte>, at: nat)
    requires s.Valid() && k < 4 && at + 4 <= |block|
    ensures var s1 := s.Access(sector, Wrap(offset + k), Octet(value, k), Write).0;
            s.WriteOctets(sector, offset, value, k) ==
            if k < 3 then s1.WriteOctets(sector, offset, value, k + 1) else s1
    ensures var b1 := Poke(block, at + k, Octet(value, k));
            |b1| == |block| && PokeOctets(block, at, value, k) == if k < 3 then PokeOctets(b1, at, value, k + 1) else b1
  {
    hide State.Access;
    var s1 := s.Access(sector, Wrap(offset + k), Octet(value, k), Write).0;
    assert k == 3 ==> s1.WriteOctets(sector, offset, value, 4) == s1;
  }

  /** A safe aligned word write changes exactly that word of the flat memory. */
  lemma WriteLongRefines(s: State, sector: u32, offset: u32, value: u32)
    requires s.Coherent() && s.blockSize == 512 && offset % 4 == 0
    requires s.FetchSafe(s.Tag(sector, offset)) && s.Tag(sector, offset) in s.disk
    ensures var s', m := s.WriteLong(sector, offset, value), s.Memory();
            var tag, at := s.Tag(sector, offset), offset % s.blockSize;
            && tag in m && at + 4 <= |m[tag]|
            && Replaces(s, s', tag, PokeWord(m[tag], at, value))
            && s'.Memory() == m[tag := PokeWord(m[tag], at, value)]
  {
    var tag, at := s.Tag(sector, offset), offset % s.blockSize;
    SameBlock(s, sector, offset, 0);
    WriteOctetsRefines(s, sector, offset, value, 0, s.WriteLong(sector, offset, value),
                       PokeWord(s.Current(tag), at, value));
    ReplacesMemory(s, s.WriteLong(sector, offset, value), tag, PokeWord(s.Current(tag), at, value));
  }

  // Whole runs.

  datatype Op = GetByte(sector: u32, offset: u32) | PutByte(sector: u32, offset: u32, value: byte) | Flush

  /** The cache after a run of byte reads, byte writes and flushes, and the bytes read. */
  ghost function Run(s: State, ops: seq<Op>): (State, seq<byte>)
    requires s.Valid()
    ensures Run(s, ops).0.Valid()
    decreases |ops|
  {
    if ops == [] then (s, [])
    else
      var (s', out) := Step(s, ops[0]);
      var (end, rest) := Run(s', ops[1..]);
      (end, out + rest)
  }

  ghost function Step(s: State, op: Op): (r: (State, seq<byte>))
    requires s.Valid()
    ensures r.0.Valid() && r.0.blockSize == s.blockSize && |r.0.lines| == |s.lines|
  {
    match op
    case GetByte(sector, offset) => var (s', b) := s.Access(sector, offset, 0, Read); (s', [b])
    case PutByte(sector, offset, value) => (s.Access(sector, offset, value, Write).0, [])
    case Flush => FlushKeepsValid(s); (s.FlushFrom(0), [])
  }

  lemma FlushKeepsValid(s: State)
    requires s.Valid()
    ensures s.FlushFrom(0).Valid() && s.FlushFrom(0) == s.(disk := s.FlushFrom(0).disk)
  {
    var r := s.FlushFrom(0);
    FlushedFrom(s, 0, 0);
    forall t: u32
      ensures t in r.disk <==> t in s.disk
      ensures t in s.disk ==> |r.disk[t]| == s.blockSize
    {
      FlushedFrom(s, 0, t);
      IndexInRange(s, t);
    }
  }

  ghost predicate BlocksSized(m: Memory, blockSize: nat) {
    blockSize > 0 && forall t :: t in m ==> |m[t]| == blockSize
  }

  /** The specification: one operation on a flat memory of blocks, where a flush is not visible. */
  ghost function FlatStep(m: Memory, blockSize: nat, op: Op): (r: (Memory, seq<byte>))
    requires BlocksSized(m, blockSize)
    ensures BlocksSized(r.0, blockSize)
  {
    match op
    case GetByte(sector, offset) =>
      var tag := BlockOf(blockSize, sector, offset);
      (m, [if tag in m then m[tag][offset % blockSize] else 0])
    case PutByte(sector, offset, value) =>
      var tag := BlockOf(blockSize, sector, offset);
      (if tag in m then m[tag := Poke(m[tag], offset % blockSize, value)] else m, [])
    case Flush => (m, [])
  }

  ghost function FlatRun(m: Memory, blockSize: nat, ops: seq<Op>): (Memory, seq<byte>)
    requires BlocksSized(m, blockSize)
    decreases |ops|
  {
    if ops == [] then (m, [])
    else
      var (m', out) := FlatStep(m, blockSize, ops[0]);
      var (end, rest) := FlatRun(m', blockSize, ops[1..]);
      (end, out + rest)
  }

  ghost predicate SafeStep(s: State, op: Op)
    requires s.Valid()
  {
    op.Flush? || s.FetchSafe(s.Tag(op.sector, op.offset))
  }

  /** Every access of the run meets the guard in the state it starts from. */
  ghost predicate SafeRun(s: State, ops: seq<Op>)
    requires s.Valid()
    decreases |ops|
  {
    ops == [] || (
      && SafeStep(s, ops[0])
      && SafeRun(Step(s, ops[0]).0, ops[1..]))
  }

  /** One safe operation keeps coherence, and does to the memory what the flat operation does. */
  lemma StepRefines(s: State, op: Op)
    requires s.Coherent() && SafeStep(s, op)
    ensures BlocksSized(s.Memory(), s.blockSize)
    ensures var (s', out) := Step(s, op);
            s'.Coherent() && s'.blockSize == s.blockSize && (s'.Memory(), out) == FlatStep(s.Memory(), s.blockSize, op)
  {
    match op
    case GetByte(sector, offset) => ReadRefines(s, sector, offset);
    case PutByte(sector, offset, value) => PutRefines(s, sector, offset, value);
    case Flush =>
      FlushPublishes(s);
      hide State.FlushFrom, State.Current;
  }

  lemma PutRefines(s: State, sector: u32, offset: u32, value: byte)
    requires s.Coherent() && s.FetchSafe(s.Tag(sector, offset))
    ensures var s' := s.Access(sector, offset, value, Write).0;
            var m, tag := s.Memory(), s.Tag(sector, offset);
            && s'.Coherent() && (tag in m ==> |m[tag]| == s.blockSize)
            && s'.Memory() == if tag in m then m[tag := Poke(m[tag], offset % s.blockSize, value)] else m
  {
    var tag := s.Tag(sector, offset);
    if tag in s.disk {
      WriteRefines(s, sector, offset, value);
      hide State.Access;
      ReplacesMemory(s, s.Access(sector, offset, value, Write).0, tag,
                     Poke(s.Current(tag), offset % s.blockSize, value));
    } else {
      WriteOutside(s, sector, offset, value);
    }
  }

  /** The cache and its disk refine the flat memory over every safe run: each read gives the
      last write or the original byte, and the final states agree. */
  lemma {:induction false} RunRefines(s: State, ops: seq<Op>)
    requires s.Coherent() && SafeRun(s, ops)
    ensures BlocksSized(s.Memory(), s.blockSize)
    ensures var (end, out) := Run(s, ops);
            && end.Coherent()
            && (end.Memory(), out) == FlatRun(s.Memory(), s.blockSize, ops)
    decreases |ops|
  {
    StepRefines(s, Flush);
    if ops != [] {
      StepRefines(s, ops[0]);
      RunRefines(Step(s, ops[0]).0, ops[1..]);
    }
  }

  // Two disciplines under which every run is safe.

  /** Lines outside `dirty` equal their blocks. */
  ghost predicate Clean(s: State, dirty: set<nat>) {
    forall i: nat :: i < |s.lines| && i !in dirty && s.lines[i].valid ==>
      s.lines[i].tag in s.disk && s.disk[s.lines[i].tag] == s.lines[i].data
  }

  /** No access displaces a line written since the last flush, and every block accessed can be
      transferred. `dirty` is the set of lines written since the last flush. */
  ghost predicate NeverDisplacesWritten(s: State, dirty: set<nat>, ops: seq<Op>)
    requires s.Valid()
    decreases |ops|
  {
    ops == [] || match ops[0]
      case Flush => NeverDisplacesWritten(Step(s, Flush).0, {}, ops[1..])
      case GetByte(sector, offset) =>
        var tag := s.Tag(sector, offset);
        && tag in s.disk
        && (s.lines[tag % |s.lines|].tag == tag || tag % |s.lines| !in dirty)
        && NeverDisplacesWritten(Step(s, ops[0]).0, dirty, ops[1..])
      case PutByte(sector, offset, _) =>
        var tag := s.Tag(sector, offset);
        && tag in s.disk
        && (s.lines[tag % |s.lines|].tag == tag || tag % |s.lines| !in dirty)
        && NeverDisplacesWritten(Step(s, ops[0]).0, dirty + {tag % |s.lines|}, ops[1..])
  }

  lemma {:induction false} WrittenDisciplineIsSafe(s: State, dirty: set<nat>, ops: seq<Op>)
    requires s.Coherent() && Clean(s, dirty) && NeverDisplacesWritten(s, dirty, ops)
    ensures SafeRun(s, ops)
    decreases |ops|
  {
    if ops != [] {
      match ops[0] {
        case GetByte(sector, offset) =>
          StepRefines(s, ops[0]);
          WrittenDisciplineIsSafe(Step(s, ops[0]).0, dirty, ops[1..]);
        case PutByte(sector, offset, value) =>
          StepRefines(s, ops[0]);
          WrittenDisciplineIsSafe(Step(s, ops[0]).0, dirty + {s.Tag(sector, offset) % |s.lines|}, ops[1..]);
        case Flush =>
          FlushPublishes(s);
          WrittenDisciplineIsSafe(Step(s, Flush).0, {}, ops[1..]);
      }
    }
  }

  /** Every cached or accessed block lies in one window of as many blocks as there are lines. */
  predicate Within(s: State, first: u32) {
    forall i :: 0 <= i < |s.lines| && s.lines[i].valid ==> first <= s.lines[i].tag < first + |s.lines|
  }

  ghost predicate AccessesWithin(s: State, first: u32, ops: seq<Op>)
    requires s.Valid()
  {
    forall op :: op in ops && !op.Flush? ==> first <= s.Tag(op.sector, op.offset) < first + |s.lines|
  }

  lemma SameResidueSameBlock(a: nat, b: nat, first: nat, n: nat)
    requires 0 < n && first <= a < first + n && first <= b < first + n && a % n == b % n
    ensures a == b
  {
    var d := a / n - b / n;
    assert a == n * (a / n) + a % n && b == n * (b / n) + b % n;
    assert a - b == d * n;
    if d >= 1 {
      TimesMonotonic(1, d, n);
      assert false;
    } else if d <= -1 {
      TimesMonotonic(d, -1, n);
      assert false;
    }
  }

  lemma WindowFetchIsHit(s: State, first: u32, tag: u32)
    requires s.Coherent() && Within(s, first) && first <= tag < first + |s.lines|
    ensures s.FetchSafe(tag)
    ensures Within(s.Fetch(tag), first)
  {
    var line := s.lines[tag % |s.lines|];
    if line.valid {
      SameResidueSameBlock(line.tag, tag, first, |s.lines|);
    }
  }

  lemma WindowStep(s: State, first: u32, op: Op)
    requires s.Coherent() && Within(s, first)
    requires !op.Flush? ==> first <= s.Tag(op.sector, op.offset) < first + |s.lines|
    ensures SafeStep(s, op)
    ensures var s' := Step(s, op).0; s'.Coherent() && Within(s', first) && s'.blockSize == s.blockSize
  {
    if op.Flush? {
      FlushPublishes(s);
    } else {
      WindowFetchIsHit(s, first, s.Tag(op.sector, op.offset));
      StepRefines(s, op);
    }
  }

  /** A cache with a line for every block that is used never displaces one. */
  lemma {:induction false} WindowIsSafe(s: State, first: u32, ops: seq<Op>)
    requires s.Coherent() && Within(s, first) && AccessesWithin(s, first, ops)
    ensures SafeRun(s, ops)
    decreases |ops|
  {
    if ops != [] {
      assert ops[0] in ops;
      assert forall op :: op in ops[1..] ==> op in ops;
      WindowStep(s, first, ops[0]);
      WindowIsSafe(Step(s, ops[0]).0, first, ops[1..]);
    }
  }
}

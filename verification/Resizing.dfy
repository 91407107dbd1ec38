/** Resizing a block (allocator_realloc, src/libs/allocator.c:134-174), on sequences: when it keeps the
    registry orderly, and when it keeps the block's contents. */
module Resizing {
  import opened Words
  import opened Blocks

  /** Where realloc leaves a block: the registry, the address returned, and how many bytes it copied. */
  datatype Resized = Resized(blocks: seq<Block>, ptr: u32, copied: nat)

  /** The block after position `index`, or for the last one whatever the registry's memory holds
      there (allocator.c:158). */
  function Following(bs: seq<Block>, index: nat, stale: Block): Block {
    if index + 1 < |bs| then bs[index + 1] else stale
  }

  predicate CanEnlarge(heap: Block, bs: seq<Block>, stale: Block, index: nat, m: Block) {
    (index == |bs| - 1 && Enclosed(heap, m)) || !Overlap(m, Following(bs, index, stale))
  }

  /** allocator_realloc. */
  function Realloc(heap: Block, capacity: nat, bs: seq<Block>, stale: Block, ptr: u32, size: u32): Resized {
    var index := Find(bs, ptr);
    if index < 0 then
      var (bs', r) := Alloc(heap, capacity, bs, size);
      Resized(bs', r, 0)
    else if CanEnlarge(heap, bs, stale, index, Block(ptr, size)) then
      Resized(bs[index := Block(bs[index].start, size)], ptr, 0)
    else
      var (bs', r) := Alloc(heap, capacity, bs, size);
      if r == 0 then Resized(bs', 0, 0)
      else
        var n := if index < |bs'| then Min(bs'[index].size, size) else 0;
        Resized(Free(bs', ptr).GetOr(bs'), r, n)
  }

  /** What a resize returns and leaves, for every request: in place, the address passed in, with that block's
      size changed and nothing else; for an unknown address, what an allocation returns; for a block that moves,
      the address of the new one, which takes the old one's place; and NULL, with nothing changed, when the
      allocation is refused. */
  lemma ReallocReturns(heap: Block, capacity: nat, bs: seq<Block>, stale: Block, ptr: u32, size: u32)
    requires HeapOk(heap) && Orderly(heap, bs)
    ensures var r, index := Realloc(heap, capacity, bs, stale, ptr, size), Find(bs, ptr);
            if index >= 0 && CanEnlarge(heap, bs, stale, index, Block(ptr, size)) then
              && r.ptr == ptr && r.copied == 0 && |r.blocks| == |bs|
              && forall i :: 0 <= i < |bs| ==> r.blocks[i] == if bs[i].start == ptr then Block(ptr, size) else bs[i]
            else if !Grants(heap, capacity, bs, size) then r == Resized(bs, 0, 0)
            else
              && r.ptr == Candidate(heap, bs, size) != 0
              && (index < 0 ==> r.copied == 0 && |r.blocks| == |bs| + 1)
              && (index >= 0 ==> |r.blocks| == |bs|)
              && forall b :: b in r.blocks <==> b == Block(r.ptr, size) || (b in bs && b.start != ptr)
  {
    hide Orderly, Alloc, Grants, Candidate, CanEnlarge, Find, Insert, Free;
    var index := Find(bs, ptr);
    AllocGrantsExactly(heap, capacity, bs, size);
    StartsDiffer(heap, bs);
    if index >= 0 && CanEnlarge(heap, bs, stale, index, Block(ptr, size)) {
      assert bs[index].start == ptr;
    } else if Grants(heap, capacity, bs, size) {
      var m := Block(Candidate(heap, bs, size), size);
      if index < 0 {
        InsertAdds(bs, m);
        assert forall b :: b in bs ==> b.start != ptr;
      } else {
        FreeAfterInsert(heap, bs, m, ptr);
        InsertAdds(Remove(bs, index), m);
        RemoveTakes(bs, index);
      }
    }
  }

  /** When a block stays where it is, read off its neighbour: in front of another block, if the gap is at most one
      byte short, or that block is of one byte, or the request is empty or runs past the last address; in last
      place, also if it ends in the heap, and else if the stale cell does not overlap it. */
  lemma StaysInPlaceExactly(heap: Block, bs: seq<Block>, stale: Block, index: nat, size: u32)
    requires HeapOk(heap) && Orderly(heap, bs) && index < |bs|
    ensures var ptr := bs[index].start; var odd := size == 0 || ptr + size > WORD;
            CanEnlarge(heap, bs, stale, index, Block(ptr, size)) <==>
            if index + 1 < |bs| then odd || bs[index + 1].size == 1 || ptr + size - 1 <= bs[index + 1].start
            else odd || ptr + size <= heap.start + heap.size || !Overlap(Block(ptr, size), stale)
  {
    var m := Block(bs[index].start, size);
    assert Inside(heap, bs[index]) && bs[index].size > 0;
    ProperEnd(heap);
    EndOf(m);
    if index + 1 < |bs| {
      assert Inside(heap, bs[index + 1]) && bs[index + 1].size > 0;
      assert bs[index].start + bs[index].size <= bs[index + 1].start;
      ProperEnd(bs[index + 1]);
    }
    hide Orderly;
  }

  lemma EndOf(m: Block)
    requires m.start > 0
    ensures End(m) == if m.start + m.size > WORD then m.start + m.size - 1 - WORD else m.start + m.size - 1
  {}

  lemma StartsDiffer(heap: Block, bs: seq<Block>)
    requires Orderly(heap, bs)
    ensures forall i, j :: 0 <= i < j < |bs| ==> bs[i].start != bs[j].start
  {
    StartsIncrease(heap, bs);
  }

  lemma InsertAdds(bs: seq<Block>, m: Block)
    ensures |Insert(bs, m)| == |bs| + 1 && forall b :: b in Insert(bs, m) <==> b == m || b in bs
  {
    hide Insert;
    InsertedWhere(bs, m);
    var p :| 0 <= p <= |bs| && Insert(bs, m) == bs[..p] + [m] + bs[p..];
    assert bs == bs[..p] + bs[p..];
  }

  lemma RemoveTakes(bs: seq<Block>, i: nat)
    requires i < |bs| && forall j, k :: 0 <= j < k < |bs| ==> bs[j].start != bs[k].start
    ensures |Remove(bs, i)| == |bs| - 1
    ensures forall b :: b in Remove(bs, i) <==> b in bs && b.start != bs[i].start
  {
    assert bs == bs[..i] + [bs[i]] + bs[i + 1..];
  }

  // When a resize keeps the registry orderly, for every request.

  /** Where a block must end when it is resized in place. */
  function Limit(heap: Block, bs: seq<Block>, index: nat): int {
    if index + 1 < |bs| then bs[index + 1].start else heap.start + heap.size
  }

  /** Read off the registry before the call: an unknown address is an allocation; a block resized in place
      must keep a byte and end before the next block or the heap's end; a block that moves must fit at
      its candidate once the old one is gone. */
  predicate ReallocKeeps(heap: Block, capacity: nat, bs: seq<Block>, stale: Block, ptr: u32, size: u32) {
    var index := Find(bs, ptr);
    if index >= 0 && CanEnlarge(heap, bs, stale, index, Block(ptr, size)) then
      size > 0 && ptr + size <= Limit(heap, bs, index)
    else if !Grants(heap, capacity, bs, size) then true
    else if index < 0 then Settles(heap, bs, size)
    else
      var c := Candidate(heap, bs, size);
      0 <= c < WORD && FitsAt(heap, Remove(bs, index), c, size)
  }

  /** For every request on an orderly registry: it stays orderly if and only if that holds. */
  lemma ReallocKeepsExactly(heap: Block, capacity: nat, bs: seq<Block>, stale: Block, ptr: u32, size: u32)
    requires HeapOk(heap) && Orderly(heap, bs)
    ensures Orderly(heap, Realloc(heap, capacity, bs, stale, ptr, size).blocks)
       <==> ReallocKeeps(heap, capacity, bs, stale, ptr, size)
  {
    hide Orderly, Find, Alloc, Free, Grants, Settles, Candidate, FitsAt, Overlap, Enclosed, CanEnlarge;
    var index := Find(bs, ptr);
    AllocGrantsExactly(heap, capacity, bs, size);
    if index >= 0 && CanEnlarge(heap, bs, stale, index, Block(ptr, size)) {
      InPlaceKeepsExactly(heap, bs, index, size);
    } else if Grants(heap, capacity, bs, size) {
      if index < 0 {
        AllocKeepsExactly(heap, capacity, bs, size);
      } else {
        GrantsRoom(heap, capacity, bs, size);
        MovedKeepsExactly(heap, bs, Block(Candidate(heap, bs, size), size), ptr);
      }
    }
  }

  lemma InPlaceKeepsExactly(heap: Block, bs: seq<Block>, index: nat, size: u32)
    requires HeapOk(heap) && Orderly(heap, bs) && index < |bs|
    ensures Orderly(heap, bs[index := Block(bs[index].start, size)])
       <==> size > 0 && bs[index].start + size <= Limit(heap, bs, index)
  {
    var m := Block(bs[index].start, size);
    var r := bs[index := m];
    assert Inside(heap, bs[index]);
    if size > 0 {
      ReplacedOrderly(heap, bs, index, m);
    }
    assert r[index] == m;
    if index + 1 < |bs| && Orderly(heap, r) {
      assert r[index].start + r[index].size <= r[index + 1].start;
    }
  }

  /** Putting a block in and then taking out the one at ptr leaves the registry orderly if and only if
      the block fits without that one. */
  lemma MovedKeepsExactly(heap: Block, bs: seq<Block>, m: Block, ptr: u32)
    requires Orderly(heap, bs) && m.size > 0 && Find(bs, ptr) >= 0
    ensures Free(Insert(bs, m), ptr).Some?
    ensures Orderly(heap, Free(Insert(bs, m), ptr).value) <==> FitsAt(heap, Remove(bs, Find(bs, ptr)), m.start, m.size)
  {
    hide Find, Insert, Free, FitsAt, Remove;
    FreeAfterInsert(heap, bs, m, ptr);
    RemoveOrderly(heap, bs, Find(bs, ptr));
    hide Orderly;
    InsertKeepsExactly(heap, Remove(bs, Find(bs, ptr)), m);
  }

  lemma RemoveOrderly(heap: Block, bs: seq<Block>, i: nat)
    requires Orderly(heap, bs) && i < |bs|
    ensures Orderly(heap, Remove(bs, i))
  {}

  /** It does not matter whether the old block goes first. */
  lemma FreeAfterInsert(heap: Block, bs: seq<Block>, m: Block, ptr: u32)
    requires Orderly(heap, bs) && Find(bs, ptr) >= 0
    ensures Free(Insert(bs, m), ptr) == Some(Insert(Remove(bs, Find(bs, ptr)), m))
  {
    var index, k := Find(bs, ptr), Position(bs, m.start);
    StartsIncrease(heap, bs);
    hide Orderly, Insert, Position, Remove;
    InsertAt(bs, m, k);
    OldStaysAt(bs, m, k, index, bs[..k] + [m] + bs[k..]);
    hide Find;
    WithoutOld(bs, m, k, index, bs[..k] + [m] + bs[k..]);
  }

  /** After the insertion the old block is where it was, or one further up. */
  lemma OldStaysAt(bs: seq<Block>, m: Block, k: nat, index: nat, r: seq<Block>)
    requires k <= |bs| && index < |bs| && r == bs[..k] + [m] + bs[k..]
    requires forall i :: 0 <= i < index ==> bs[i].start != bs[index].start
    requires index >= k ==> m.start < bs[index].start
    ensures Find(r, bs[index].start) == if index < k then index else index + 1
  {
    SplicedAt(bs, m, k);
    FoundFirst(r, bs[index].start, if index < k then index else index + 1);
  }

  lemma WithoutOld(bs: seq<Block>, m: Block, k: nat, index: nat, r: seq<Block>)
    requires k <= |bs| && index < |bs| && r == bs[..k] + [m] + bs[k..]
    requires forall i :: 0 <= i < k ==> bs[i].start <= m.start
    requires forall i :: k <= i < |bs| ==> m.start < bs[i].start
    ensures Remove(r, if index < k then index else index + 1) == Insert(Remove(bs, index), m)
  {
    hide Insert, Remove;
    var rest := Remove(bs, index);
    RestAround(bs, m, k, index, rest);
    InsertAt(rest, m, if index < k then k - 1 else k);
    RemoveSpliced(bs, m, k, index);
  }

  lemma RemovedAt(bs: seq<Block>, index: nat)
    requires index < |bs|
    ensures |Remove(bs, index)| == |bs| - 1
    ensures forall i :: 0 <= i < |bs| - 1 ==> Remove(bs, index)[i] == Left(bs, index, i)
  {}

  /** What is at position i once the block at `index` is gone. */
  function Left(bs: seq<Block>, index: nat, i: nat): Block
    requires index < |bs| && i < |bs| - 1
  {
    if i < index then bs[i] else bs[i + 1]
  }

  lemma RestAround(bs: seq<Block>, m: Block, k: nat, index: nat, rest: seq<Block>)
    requires k <= |bs| && index < |bs| && rest == Remove(bs, index)
    requires forall i :: 0 <= i < k ==> bs[i].start <= m.start
    requires forall i :: k <= i < |bs| ==> m.start < bs[i].start
    ensures |rest| == |bs| - 1
    ensures var p := if index < k then k - 1 else k;
            && (forall i :: 0 <= i < p ==> rest[i].start <= m.start)
            && (forall i :: p <= i < |rest| ==> m.start < rest[i].start)
  {
    hide Remove;
    RemovedAt(bs, index);
    forall i | 0 <= i < |rest|
      ensures rest[i] == Left(bs, index, i)
    {}
  }

  /** It does not matter whether a block is taken out before or after another is put in at position k. */
  lemma RemoveSpliced(bs: seq<Block>, m: Block, k: nat, index: nat)
    requires k <= |bs| && index < |bs| && |Remove(bs, index)| == |bs| - 1
    ensures var at, p := if index < k then index else index + 1, if index < k then k - 1 else k;
            Remove(bs[..k] + [m] + bs[k..], at) == Remove(bs, index)[..p] + [m] + Remove(bs, index)[p..]
  {
    hide Remove;
    var at, p := if index < k then index else index + 1, if index < k then k - 1 else k;
    var r, rest := bs[..k] + [m] + bs[k..], Remove(bs, index);
    SplicedAt(bs, m, k);
    RemovedAt(r, at);
    RemovedAt(bs, index);
    SplicedAt(rest, m, p);
    var s := rest[..p] + [m] + rest[p..];
    forall i | 0 <= i < |bs|
      ensures Remove(r, at)[i] == s[i]
    {
      assert s[i] == Inserted(rest, m, p, i) && Remove(r, at)[i] == Left(r, at, i);
      assert i != p ==> s[i] == Left(bs, index, if i < p then i else i - 1);
      assert r[if i < at then i else i + 1] == Inserted(bs, m, k, if i < at then i else i + 1);
    }
  }

  /** Freeing the address just returned restores the registry exactly, unless a block of another size was
      already there. */
  lemma AllocThenFreeExactly(heap: Block, capacity: nat, bs: seq<Block>, size: u32)
    requires HeapOk(heap) && Orderly(heap, bs) && Grants(heap, capacity, bs, size)
    ensures var (bs', r) := Alloc(heap, capacity, bs, size);
            Free(bs', r) == Some(bs) <==> forall i :: 0 <= i < |bs| && bs[i].start == r ==> bs[i].size == size
  {
    hide Alloc, Grants, Candidate, Free, Insert, Find;
    AllocGrantsExactly(heap, capacity, bs, size);
    var m := Block(Candidate(heap, bs, size), size);
    var i := Find(bs, m.start);
    StartsIncrease(heap, bs);
    if i < 0 {
      hide Orderly;
      FreeOfNew(bs, m);
    } else {
      FreeAfterInsert(heap, bs, m, m.start);
      hide Orderly;
      SwappedIn(bs, m, i);
      OneReplaced(bs, m, i);
    }
  }

  lemma OneReplaced(bs: seq<Block>, m: Block, i: nat)
    requires i < |bs|
    ensures bs[i := m] == bs <==> bs[i] == m
  {
    assert bs[i := m][i] == m;
  }

  lemma FreeOfNew(bs: seq<Block>, m: Block)
    requires forall i, j :: 0 <= i < j < |bs| ==> bs[i].start < bs[j].start
    requires forall i :: 0 <= i < |bs| ==> bs[i].start != m.start
    ensures Free(Insert(bs, m), m.start) == Some(bs)
  {
    hide Insert, Find;
    var k := Position(bs, m.start);
    hide Position;
    InsertAt(bs, m, k);
    SplicedAt(bs, m, k);
    FoundFirst(bs[..k] + [m] + bs[k..], m.start, k);
    RemoveInserted(bs, m, k);
  }

  lemma SwappedIn(bs: seq<Block>, m: Block, i: nat)
    requires i < |bs| && bs[i].start == m.start && forall i, j :: 0 <= i < j < |bs| ==> bs[i].start < bs[j].start
    ensures Insert(Remove(bs, i), m) == bs[i := m]
  {
    hide Insert;
    InsertAt(Remove(bs, i), m, i);
    assert Remove(bs, i)[..i] == bs[..i] && Remove(bs, i)[i..] == bs[i + 1..];
  }

  lemma StartsIncrease(heap: Block, bs: seq<Block>)
    requires Orderly(heap, bs)
    ensures forall i, j :: 0 <= i < j < |bs| ==> bs[i].start < bs[j].start
  {
    forall i, j | 0 <= i < j < |bs|
      ensures bs[i].start < bs[j].start
    {
      assert bs[i].start + bs[i].size <= bs[j].start && bs[i].size > 0;
    }
  }

  /** The gap before the next block is one byte short, and the block grows into it. */
  lemma ShortGapOverlaps(capacity: nat, stale: Block)
    ensures var heap, bs := Block(100, 100), [Block(100, 2), Block(104, 2)];
            && Orderly(heap, bs) && !Escapes(heap, bs, stale, 100, 5)
            && Realloc(heap, capacity, bs, stale, 100, 5).blocks == [Block(100, 5), Block(104, 2)]
            && !Orderly(heap, [Block(100, 5), Block(104, 2)])
  {
    hide Find, Alloc, Scan, Insert, Free;
    var heap, bs := Block(100, 100), [Block(100, 2), Block(104, 2)];
    FoundFirst(bs, 100, 0);
    assert bs[0 := Block(100, 5)] == [Block(100, 5), Block(104, 2)];
    var r := [Block(100, 5), Block(104, 2)];
    assert r[0].start + r[0].size > r[1].start;
  }

  /** A block of one byte is not seen by the scan, and is moved onto itself. */
  lemma MovesOntoItself(capacity: nat, stale: Block)
    requires capacity > 2
    ensures var heap, bs := Block(100, 100), [Block(100, 1), Block(102, 2)];
            && Orderly(heap, bs) && !Escapes(heap, bs, stale, 100, 5)
            && Realloc(heap, capacity, bs, stale, 100, 5).ptr == 100
            && Realloc(heap, capacity, bs, stale, 100, 5).blocks == [Block(100, 5), Block(102, 2)]
            && !Orderly(heap, [Block(100, 5), Block(102, 2)])
  {
    hide Find, Insert, Free, Scan, Alloc;
    var heap, bs, m := Block(100, 100), [Block(100, 1), Block(102, 2)], Block(100, 5);
    FoundFirst(bs, 100, 0);
    TakesTheSamePlace(heap, capacity, bs);
    FreesFirst(bs[0], [m, bs[1]]);
    assert [bs[0]] + [m, bs[1]] == [bs[0], m, bs[1]];
    var r := [m, bs[1]];
    assert r[0].start + r[0].size > r[1].start;
  }

  lemma TakesTheSamePlace(heap: Block, capacity: nat, bs: seq<Block>)
    requires heap == Block(100, 100) && bs == [Block(100, 1), Block(102, 2)] && capacity > 2
    ensures Alloc(heap, capacity, bs, 5) == ([Block(100, 1), Block(100, 5), Block(102, 2)], 100)
  {
    assert Scan(bs, 0, 100, 5) == (0, 100);
    InsertAt(bs, Block(100, 5), 1);
    hide Insert, Scan;
    assert bs[..1] + [Block(100, 5)] + bs[1..] == [Block(100, 1), Block(100, 5), Block(102, 2)];
  }

  /** A block resized to nothing stays in the registry with no byte. */
  lemma EmptiedBlockStays(capacity: nat, stale: Block)
    ensures var heap, bs := Block(100, 100), [Block(100, 2)];
            && Orderly(heap, bs) && Realloc(heap, capacity, bs, stale, 100, 0).blocks == [Block(100, 0)]
            && !Orderly(heap, [Block(100, 0)])
  {
    var heap, bs := Block(100, 100), [Block(100, 2)];
    FoundFirst(bs, 100, 0);
    assert [Block(100, 0)][0].size == 0;
    ReallocKeepsExactly(heap, capacity, bs, stale, 100, 0);
  }

  // On the grid.

  /** The one way such a resize can leave the heap: the block is the last one, the request does not fit,
      and the stale cell does not happen to overlap it. */
  predicate Escapes(heap: Block, bs: seq<Block>, stale: Block, ptr: u32, size: u32) {
    var index := Find(bs, ptr);
    index >= 0 && index == |bs| - 1 && !Enclosed(heap, Block(ptr, size)) && !Overlap(Block(ptr, size), stale)
  }

  /** Resizing to a positive multiple of g that is small enough not to wrap keeps the registry orderly
      exactly when it does not escape, and on the grid in any case. */
  lemma ReallocOnGrid(g: nat, heap: Block, capacity: nat, bs: seq<Block>, stale: Block, ptr: u32, size: u32)
    requires g >= 2 && HeapOk(heap) && Orderly(heap, bs) && OnGrid(g, heap, bs) && |bs| <= capacity
    requires size > 0 && Divides(g, size) && NoWrap(heap, size)
    ensures var r := Realloc(heap, capacity, bs, stale, ptr, size);
            && (Orderly(heap, r.blocks) <==> !Escapes(heap, bs, stale, ptr, size))
            && OnGrid(g, heap, r.blocks) && |r.blocks| <= capacity
  {
    var index := Find(bs, ptr);
    AllocOnGrid(g, heap, capacity, bs, size);
    if index >= 0 {
      assert Inside(heap, bs[index]);
      var m := Block(ptr, size);
      EnclosedExactly(heap, m);
      if CanEnlarge(heap, bs, stale, index, m) {
        ResizedInPlace(g, heap, bs, stale, ptr, size);
      } else {
        MovedKeeps(g, heap, capacity, bs, ptr, size);
      }
    }
  }

  lemma ResizedInPlace(g: nat, heap: Block, bs: seq<Block>, stale: Block, ptr: u32, size: u32)
    requires g >= 2 && HeapOk(heap) && Orderly(heap, bs) && OnGrid(g, heap, bs)
    requires size > 0 && Divides(g, size) && NoWrap(heap, size)
    requires var index := Find(bs, ptr); index >= 0 && CanEnlarge(heap, bs, stale, index, Block(ptr, size))
    ensures var index := Find(bs, ptr); var r := bs[index := Block(ptr, size)];
            OnGrid(g, heap, r) && (Orderly(heap, r) <==> !Escapes(heap, bs, stale, ptr, size))
  {
    hide Find, Divides, OnGrid;
    var index, m := Find(bs, ptr), Block(ptr, size);
    GridReplaced(g, heap, bs, index, size);
    if index < |bs| - 1 {
      GapBefore(g, heap, bs, index, size);
      hide Overlap, Enclosed;
    } else {
      assert Inside(heap, bs[index]);
      EnclosedExactly(heap, m);
      if !Enclosed(heap, m) {
        assert bs[index := m][index] == m && !Inside(heap, m);
      }
      hide Overlap, Enclosed;
    }
    ReplacedOrderly(heap, bs, index, m);
  }

  lemma GridReplaced(g: nat, heap: Block, bs: seq<Block>, index: nat, size: u32)
    requires g > 0 && OnGrid(g, heap, bs) && index < |bs| && Divides(g, size)
    ensures OnGrid(g, heap, bs[index := Block(bs[index].start, size)])
  {}

  /** On the grid, a block that does not overlap the next one by the written test ends before it. */
  lemma GapBefore(g: nat, heap: Block, bs: seq<Block>, index: nat, size: u32)
    requires g >= 2 && HeapOk(heap) && Orderly(heap, bs) && OnGrid(g, heap, bs) && index + 1 < |bs|
    requires size > 0 && Divides(g, size) && NoWrap(heap, size) && !Overlap(Block(bs[index].start, size), bs[index + 1])
    ensures bs[index].start + size <= bs[index + 1].start
  {
    hide Divides;
    assert Inside(heap, bs[index]) && Inside(heap, bs[index + 1]);
    GapNotShort(g, heap, bs[index].start, size, bs[index + 1]);
    StopIsClear(Block(bs[index].start, size), bs[index + 1]);
    OverlapExactly(Block(bs[index].start, size), bs[index + 1]);
    hide OnGrid, Overlap, OverlapAsDocumented;
    assert bs[index].start + bs[index].size <= bs[index + 1].start;
  }

  /** A block replaced by one with the same start keeps the registry orderly if it ends in the heap
      and before the next block. */
  lemma ReplacedOrderly(heap: Block, bs: seq<Block>, index: nat, m: Block)
    requires Orderly(heap, bs) && index < |bs| && m.start == bs[index].start && m.size > 0
    ensures (index == |bs| - 1 || m.start + m.size <= bs[index + 1].start) && Inside(heap, m) ==>
            Orderly(heap, bs[index := m])
    ensures index < |bs| - 1 && m.start + m.size <= bs[index + 1].start ==> Inside(heap, m)
  {
    var r := bs[index := m];
    if index < |bs| - 1 {
      assert Inside(heap, bs[index]) && Inside(heap, bs[index + 1]);
    }
    if (index == |bs| - 1 || m.start + m.size <= bs[index + 1].start) && Inside(heap, m) {
      forall i, j | 0 <= i < j < |r|
        ensures r[i].start + r[i].size <= r[j].start
      {
        assert bs[i].start + bs[i].size <= bs[j].start;
        assert i == index && j > index + 1 ==> bs[index + 1].start + bs[index + 1].size <= bs[j].start;
      }
    }
  }

  /** A block that moves: the new one is put in, then the old one taken out. */
  lemma MovedKeeps(g: nat, heap: Block, capacity: nat, bs: seq<Block>, ptr: u32, size: u32)
    requires g >= 2 && HeapOk(heap) && Orderly(heap, bs) && OnGrid(g, heap, bs) && |bs| <= capacity
    requires size > 0 && Divides(g, size) && NoWrap(heap, size) && Find(bs, ptr) >= 0
    ensures var (bs', r) := Alloc(heap, capacity, bs, size);
            && Orderly(heap, bs') && OnGrid(g, heap, bs') && |bs'| <= capacity
            && (r != 0 ==> Free(bs', ptr).Some?)
            && (Free(bs', ptr).Some? ==> Orderly(heap, Free(bs', ptr).value) && OnGrid(g, heap, Free(bs', ptr).value)
                                         && |Free(bs', ptr).value| < |bs'|)
  {
    hide Alloc, Settles, Scan, Orderly, OnGrid, Find, Free;
    AllocOnGrid(g, heap, capacity, bs, size);
    var bs' := Alloc(heap, capacity, bs, size).0;
    StillThere(heap, capacity, bs, ptr, size);
    if Free(bs', ptr).Some? {
      FreeKeeps(g, heap, bs', ptr);
    }
  }

  /** The old block is still registered once the new one is. */
  lemma StillThere(heap: Block, capacity: nat, bs: seq<Block>, ptr: u32, size: u32)
    requires HeapOk(heap) && Orderly(heap, bs) && Find(bs, ptr) >= 0
    ensures Free(Alloc(heap, capacity, bs, size).0, ptr).Some?
  {
    hide Alloc, Orderly, Find, Insert, Grants, Candidate;
    AllocGrantsExactly(heap, capacity, bs, size);
    if Grants(heap, capacity, bs, size) {
      FreeAfterInsert(heap, bs, Block(Candidate(heap, bs, size), size), ptr);
    }
  }

  /** A block that cannot grow where it is ends up where an allocation would be, and the length of the copy
      is taken from the block then in its position. */
  lemma ReallocIsMove(heap: Block, capacity: nat, bs: seq<Block>, stale: Block, ptr: u32, size: u32)
    requires var index := Find(bs, ptr); index >= 0 && !CanEnlarge(heap, bs, stale, index, Block(ptr, size))
    ensures var r, (bs', at) := Realloc(heap, capacity, bs, stale, ptr, size), Alloc(heap, capacity, bs, size);
            r.ptr == at && (at != 0 && Find(bs, ptr) < |bs'| ==> r.copied == Min(bs'[Find(bs, ptr)].size, size))
  {
    hide Alloc, Find, CanEnlarge, Free;
  }

  /** How many bytes realloc copies when the block moves, for every request: all that both sizes share when
      the new block lands at or above the old one, the whole new size when it lands directly below it;
      otherwise it is cut to the size of the block that is now in the old one's place, its lower neighbour
      (allocator.c:170). */
  lemma CopiedLength(heap: Block, capacity: nat, bs: seq<Block>, stale: Block, ptr: u32, size: u32)
    requires HeapOk(heap) && Orderly(heap, bs) && Grants(heap, capacity, bs, size)
    requires var index := Find(bs, ptr); index >= 0 && !CanEnlarge(heap, bs, stale, index, Block(ptr, size))
    ensures var index, r := Find(bs, ptr), Realloc(heap, capacity, bs, stale, ptr, size);
            && r.ptr == Candidate(heap, bs, size)
            && r.copied == if ptr <= r.ptr then Min(bs[index].size, size)
                           else if index == 0 || bs[index - 1].start <= r.ptr then size
                           else Min(bs[index - 1].size, size)
  {
    hide Realloc, Alloc, Grants, CanEnlarge, Find, Candidate, Insert;
    ReallocIsMove(heap, capacity, bs, stale, ptr, size);
    AllocGrantsExactly(heap, capacity, bs, size);
    var m, index := Block(Candidate(heap, bs, size), size), Find(bs, ptr);
    StartsIncrease(heap, bs);
    hide Orderly;
    AtOldPlace(bs, m, index);
  }

  /** The block in the old one's position once the new one is in. */
  lemma AtOldPlace(bs: seq<Block>, m: Block, index: nat)
    requires index < |bs| && forall i, j :: 0 <= i < j < |bs| ==> bs[i].start < bs[j].start
    ensures Insert(bs, m)[index] == if bs[index].start <= m.start then bs[index]
                                    else if index == 0 || bs[index - 1].start <= m.start then m
                                    else bs[index - 1]
  {
    hide Insert;
    var k := Position(bs, m.start);
    hide Position;
    InsertAt(bs, m, k);
    SplicedAt(bs, m, k);
    assert (bs[..k] + [m] + bs[k..])[index] == Inserted(bs, m, k, index);
  }

  /** A candidate above a block lies past its end. */
  lemma CandidatePast(heap: Block, bs: seq<Block>, size: u32, index: nat)
    requires HeapOk(heap) && Orderly(heap, bs) && index < |bs|
    ensures var c := Candidate(heap, bs, size);
            heap.start <= c && (bs[index].start < c ==> bs[index].start + bs[index].size <= c)
  {
    var k := FirstStop(heap, bs, size, 0);
    hide FirstStop;
    EdgeInHeap(heap, bs, k);
    BeforeEdge(heap, bs, k);
    AfterNext(heap, bs, k, Edge(heap, bs, k));
  }

  /** Pointer arithmetic in 32 bits. */
  function Address(base: u32, i: nat): u32 {
    Wrap(base + i)
  }

  /** memcpy (src/libs/string.c:9-18): byte by byte from the front, by addresses that wrap, whether or not
      the regions overlap. */
  function Copied(mem: seq<byte>, dst: u32, src: u32, n: nat): (r: seq<byte>)
    requires |mem| == WORD
    ensures |r| == WORD
  {
    if n == 0 then mem
    else
      var done := Copied(mem, dst, src, n - 1);
      done[Address(dst, n - 1) := done[Address(src, n - 1)]]
  }

  lemma AddressesDiffer(a: u32, i: nat, b: u32, j: nat)
    requires a + i < b + j < a + i + WORD
    ensures Address(a, i) != Address(b, j)
  {}

  /** Nothing is written outside the destination. */
  lemma {:induction false} CopySpares(mem: seq<byte>, dst: u32, src: u32, n: nat, a: u32)
    requires |mem| == WORD && forall i :: 0 <= i < n ==> Address(dst, i) != a
    ensures Copied(mem, dst, src, n)[a] == mem[a]
  {
    hide Address;
    if n > 0 {
      CopySpares(mem, dst, src, n - 1, a);
    }
  }

  /** A source byte that is not overwritten before it is read arrives. */
  lemma {:induction false} CopyArrives(mem: seq<byte>, dst: u32, src: u32, n: nat, i: nat)
    requires |mem| == WORD && i < n <= WORD && forall j :: 0 <= j < i ==> Address(dst, j) != Address(src, i)
    ensures Copied(mem, dst, src, n)[Address(dst, i)] == mem[Address(src, i)]
  {
    hide Address;
    if i < n - 1 {
      CopyArrives(mem, dst, src, n - 1, i);
      AddressesDiffer(dst, i, dst, n - 1);
    } else {
      CopySpares(mem, dst, src, i, Address(src, i));
    }
  }

  /** The first k bytes at src are what is then found at dst, whatever memory held. */
  ghost predicate SurvivesAlways(dst: u32, src: u32, k: nat, n: nat) {
    forall mem: seq<byte>, i: nat | |mem| == WORD && i < k ::
      Copied(mem, dst, src, n)[Address(dst, i)] == mem[Address(src, i)]
  }

  /** When the new place begins at or below the k bytes, or past them, they survive for every content of memory
      exactly when at least that many are copied. */
  lemma SharedBytesSurviveExactly(dst: u32, src: u32, k: nat, n: nat)
    requires src + k <= WORD && n <= WORD && (dst <= src || src + k <= dst) && (dst == src ==> n >= k)
    ensures SurvivesAlways(dst, src, k, n) <==> n >= k
  {
    hide SurvivesAlways, Copied;
    if n >= k {
      CopiedSurvive(dst, src, k, n);
    } else {
      CutBytesLost(dst, src, k, n);
    }
  }

  lemma CutBytesLost(dst: u32, src: u32, k: nat, n: nat)
    requires src + k <= WORD && n < k && dst != src
    ensures !SurvivesAlways(dst, src, k, n)
  {
    hide Copied, OneMarked, Address;
    var mem := OneMarked(Address(src, n));
    forall i | 0 <= i < n
      ensures Address(dst, i) != Address(dst, n)
    {
      AddressesDiffer(dst, i, dst, n);
    }
    CopySpares(mem, dst, src, n, Address(dst, n));
    NeverSame(dst, src, n);
    assert Copied(mem, dst, src, n)[Address(dst, n)] != mem[Address(src, n)];
  }

  lemma NeverSame(dst: u32, src: u32, n: nat)
    requires dst != src
    ensures Address(dst, n) != Address(src, n)
  {
    if dst < src {
      AddressesDiffer(dst, n, src, n);
    } else {
      AddressesDiffer(src, n, dst, n);
    }
  }

  /** Memory with a one at one address and zeros elsewhere. */
  function OneMarked(at: nat): (mem: seq<byte>)
    ensures |mem| == WORD && forall i :: 0 <= i < WORD ==> mem[i] == if i == at then 1 else 0
  {
    seq(WORD, i => if i == at then 1 else 0)
  }

  lemma CopiedSurvive(dst: u32, src: u32, k: nat, n: nat)
    requires src + k <= WORD && k <= n <= WORD && (dst <= src || src + k <= dst)
    ensures SurvivesAlways(dst, src, k, n)
  {
    hide Copied;
    forall mem: seq<byte>, i: nat | |mem| == WORD && i < k
      ensures Copied(mem, dst, src, n)[Address(dst, i)] == mem[Address(src, i)]
    {
      ReadInTime(dst, src, k, i);
      CopyArrives(mem, dst, src, n, i);
    }
  }

  /** Copying from the front reads each of the k bytes before it writes there. */
  lemma ReadInTime(dst: u32, src: u32, k: nat, i: nat)
    requires src + k <= WORD && i < k && (dst <= src || src + k <= dst)
    ensures forall j :: 0 <= j < i ==> Address(dst, j) != Address(src, i)
  {
    forall j | 0 <= j < i
      ensures Address(dst, j) != Address(src, i)
    {
      if dst <= src {
        AddressesDiffer(dst, j, src, i);
      } else {
        AddressesDiffer(src, i, dst, j);
      }
    }
  }

  /** Where the scan settles, realloc copies into the new block, and the two regions do not overlap; the
      source may run past the last address, if the request is that large. */
  lemma CopyIsSafe(heap: Block, capacity: nat, bs: seq<Block>, stale: Block, ptr: u32, size: u32)
    requires HeapOk(heap) && Orderly(heap, bs) && Grants(heap, capacity, bs, size) && Settles(heap, bs, size)
    requires var index := Find(bs, ptr); index >= 0 && !CanEnlarge(heap, bs, stale, index, Block(ptr, size))
    ensures var r := Realloc(heap, capacity, bs, stale, ptr, size);
            && 0 < r.copied <= size && Inside(heap, Block(r.ptr, size))
            && (r.ptr + r.copied <= ptr || ptr + r.copied <= r.ptr)
            && (NoWrap(heap, size) ==> ptr + r.copied <= WORD)
  {
    hide Realloc, Alloc, CanEnlarge, Settles, Find, Grants, Candidate, FitsAt;
    var index := Find(bs, ptr);
    CopiedLength(heap, capacity, bs, stale, ptr, size);
    GrantedFits(heap, capacity, bs, size);
    assert FitsAt(heap, bs, Candidate(heap, bs, size), size);
    ClearOf(heap, bs, Candidate(heap, bs, size), size, index);
    assert Inside(heap, bs[index]) && bs[index].size > 0;
    if index > 0 {
      assert Inside(heap, bs[index - 1]) && bs[index - 1].size > 0;
    }
    hide Orderly;
  }

  lemma GrantedFits(heap: Block, capacity: nat, bs: seq<Block>, size: u32)
    requires HeapOk(heap) && Orderly(heap, bs) && Grants(heap, capacity, bs, size) && Settles(heap, bs, size)
    ensures size > 0 && 0 <= Candidate(heap, bs, size) < WORD && FitsAt(heap, bs, Candidate(heap, bs, size), size)
    ensures forall a: u32 :: FitsAt(heap, bs, a, size) ==> Candidate(heap, bs, size) <= a
  {
    SettlesWhereFits(heap, bs, size);
    SettledEnds(heap, bs, size);
    NothingBelow(heap, bs, size);
    hide Settles, FitsAt, Candidate, Orderly;
  }

  lemma ClearOf(heap: Block, bs: seq<Block>, a: int, size: u32, index: nat)
    requires 0 <= a < WORD && FitsAt(heap, bs, a, size) && index < |bs|
    ensures Inside(heap, Block(a, size)) && Disjoint(Block(a, size), bs[index])
  {}

  /** The contents of a block that moves survive, up to the smaller size and whatever they are, exactly
      when no block below it, or one at least as large as what must survive, or a new place that is not
      below that block. For every request on an orderly registry. */
  lemma MoveKeepsContentsExactly(heap: Block, capacity: nat, bs: seq<Block>, stale: Block, ptr: u32, size: u32)
    requires HeapOk(heap) && Orderly(heap, bs) && Grants(heap, capacity, bs, size)
    requires var index := Find(bs, ptr); index >= 0 && !CanEnlarge(heap, bs, stale, index, Block(ptr, size))
    ensures var index, r := Find(bs, ptr), Realloc(heap, capacity, bs, stale, ptr, size);
            var shared := Min(bs[index].size, size);
            SurvivesAlways(r.ptr, ptr, shared, r.copied)
            <==> index == 0 || bs[index - 1].size >= shared || bs[index - 1].start <= Candidate(heap, bs, size)
  {
    hide Alloc, CanEnlarge, SurvivesAlways, Realloc, Candidate, Grants, Find;
    var index := Find(bs, ptr);
    var r, shared := Realloc(heap, capacity, bs, stale, ptr, size), Min(bs[index].size, size);
    CopiedLength(heap, capacity, bs, stale, ptr, size);
    CandidatePast(heap, bs, size, index);
    assert Inside(heap, bs[index]);
    if index > 0 {
      assert bs[index - 1].start + bs[index - 1].size <= bs[index].start && bs[index - 1].size > 0;
    }
    hide Orderly;
    SharedBytesSurviveExactly(r.ptr, ptr, shared, r.copied);
  }

  /** Where the scan settles, that new place is the lowest one that fits, so it is not below x exactly when
      nothing fits below x. */
  lemma CandidateIsLowestFit(heap: Block, capacity: nat, bs: seq<Block>, size: u32, x: u32)
    requires HeapOk(heap) && Orderly(heap, bs) && Grants(heap, capacity, bs, size) && Settles(heap, bs, size)
    ensures x <= Candidate(heap, bs, size) <==> forall a: u32 :: FitsAt(heap, bs, a, size) ==> x <= a
  {
    hide Orderly, Grants, Settles, FitsAt, Candidate;
    GrantedFits(heap, capacity, bs, size);
    var c: u32 := Candidate(heap, bs, size);
    assert FitsAt(heap, bs, c, size);
  }

  /** A block of ten bytes at 122, above one of two, is resized to twelve: it moves to 100, and two of its
      ten bytes are copied. */
  lemma MoveLosesBytes(capacity: nat, stale: Block)
    requires capacity > 3
    ensures var bs := [Block(120, 2), Block(122, 10), Block(132, 2)];
            && Orderly(Block(100, 100), bs) && OnGrid(2, Block(100, 100), bs)
            && var r := Realloc(Block(100, 100), capacity, bs, stale, 122, 12); r.ptr == 100 && r.copied == 2
  {
    hide Insert, Find, Scan, Alloc, Free;
    var heap, bs := Block(100, 100), [Block(120, 2), Block(122, 10), Block(132, 2)];
    FoundFirst(bs, 122, 1);
    GrantedInFront(heap, capacity, bs);
    assert Alloc(heap, capacity, bs, 12).0[1] == Block(120, 2);
  }

  lemma GrantedInFront(heap: Block, capacity: nat, bs: seq<Block>)
    requires heap == Block(100, 100) && 0 < |bs| < capacity && bs[0] == Block(120, 2)
    requires forall i :: 0 <= i < |bs| ==> 120 <= bs[i].start
    ensures Alloc(heap, capacity, bs, 12) == ([Block(100, 12)] + bs, 100)
  {
    assert Scan(bs, 0, 100, 12) == (0, 100);
    InsertAt(bs, Block(100, 12), 0);
    hide Insert, Scan;
    assert bs[..0] + [Block(100, 12)] + bs[0..] == [Block(100, 12)] + bs;
  }

  /** The last block of two is resized far past the end of the heap, when the cell behind it holds a
      block that lies below: the registry then leaves the heap. */
  lemma StaleCellLetsEscape(capacity: nat)
    requires capacity >= 2
    ensures var heap, bs := Block(100, 100), [Block(104, 2), Block(106, 6)];
            && Orderly(heap, bs) && OnGrid(2, heap, bs) && Divides(2, 200) && NoWrap(heap, 200)
            && Escapes(heap, bs, Block(104, 2), 106, 200)
            && Realloc(heap, capacity, bs, Block(104, 2), 106, 200).blocks == [Block(104, 2), Block(106, 200)]
            && !Orderly(heap, [Block(104, 2), Block(106, 200)])
  {
    var heap, bs := Block(100, 100), [Block(104, 2), Block(106, 6)];
    hide Find;
    FoundFirst(bs, 106, 1);
    assert !Inside(heap, [Block(104, 2), Block(106, 200)][1]);
  }

  lemma FreesFirst(b: Block, rest: seq<Block>)
    ensures Free([b] + rest, b.start) == Some(rest)
  {
    FoundFirst([b] + rest, b.start, 0);
    assert ([b] + rest)[..0] + ([b] + rest)[1..] == rest;
  }

  /** What six calls on an empty registry do. */
  lemma SixCalls(capacity: nat)
    requires capacity >= 3
    ensures var heap, b0, b1, b2, b3 := Block(100, 100), Block(100, 2), Block(102, 2), Block(104, 2), Block(106, 6);
            && Alloc(heap, capacity, [], 2) == ([b0], 100) && Alloc(heap, capacity, [b0], 2) == ([b0, b1], 102)
            && Alloc(heap, capacity, [b0, b1], 2) == ([b0, b1, b2], 104)
            && Free([b0, b1, b2], 100) == Some([b1, b2]) && Free([b1, b2], 102) == Some([b2])
            && Alloc(heap, capacity, [b2], 6) == ([b2, b3], 106)
  {
    hide Alloc, Insert, Free, Find;
    var heap, b0, b1, b2, b3 := Block(100, 100), Block(100, 2), Block(102, 2), Block(104, 2), Block(106, 6);
    Appends(heap, capacity, [], 2, 100, [b0]);
    Appends(heap, capacity, [b0], 2, 102, [b0, b1]);
    ThirdAppends(capacity);
    FreesFirst(b0, [b1, b2]);
    FreesFirst(b1, [b2]);
    assert [b0] + [b1, b2] == [b0, b1, b2] && [b1] + [b2] == [b1, b2];
    Appends(heap, capacity, [b2], 6, 106, [b2, b3]);
  }

  lemma ThirdAppends(capacity: nat)
    requires capacity >= 3
    ensures Alloc(Block(100, 100), capacity, [Block(100, 2), Block(102, 2)], 2) ==
            ([Block(100, 2), Block(102, 2), Block(104, 2)], 104)
  {
    hide Alloc, Insert;
    var bs := [Block(100, 2), Block(102, 2)];
    assert Scan(bs, 2, 104, 2) == (2, 104);
    assert Scan(bs, 1, 102, 2) == (2, 104);
    assert bs + [Block(104, 2)] == [Block(100, 2), Block(102, 2), Block(104, 2)];
    Appends(Block(100, 100), capacity, bs, 2, 104, bs + [Block(104, 2)]);
  }
}

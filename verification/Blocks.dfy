/** The first-fit heap allocator of src/libs/allocator.c on sequences of blocks: what its tests
    mean, when its registry stays right, and that it is first fit. */
module Blocks {
  import opened Words

  /** struct memspace. */
  datatype Block = Block(start: u32, size: u32)

  /** MEMSPACE_END: the last byte, in 32 bits. */
  function End(b: Block): u32 {
    Wrap(b.start + b.size - 1)
  }

  /** memspace_overlap, as written. */
  predicate Overlap(m: Block, n: Block) {
    Max(m.start, n.start) < Min(End(m), End(n))
  }

  /** What its comment says: no overlap only if the greatest start is strictly bigger than the
      smallest end (allocator.c:12-17). */
  predicate OverlapAsDocumented(m: Block, n: Block) {
    Max(m.start, n.start) <= Min(End(m), End(n))
  }

  predicate Enclosed(big: Block, small: Block) {
    small.start >= big.start && End(small) <= End(big)
  }

  /** A block of at least one byte that does not run past the last address. */
  predicate Proper(b: Block) {
    b.size > 0 && b.start + b.size <= WORD
  }

  predicate Disjoint(m: Block, n: Block) {
    m.start + m.size <= n.start || n.start + n.size <= m.start
  }

  predicate Inside(big: Block, small: Block) {
    big.start <= small.start && small.start + small.size <= big.start + big.size
  }

  lemma ProperEnd(b: Block)
    requires Proper(b)
    ensures End(b) == b.start + b.size - 1
  {
    WrapSmall(b.start + b.size - 1);
  }

  /** The documented test is disjointness; the written one differs exactly where the greatest
      start is the smallest end, that is where the blocks share a single byte. */
  lemma OverlapExactly(m: Block, n: Block)
    requires Proper(m) && Proper(n)
    ensures OverlapAsDocumented(m, n) <==> !Disjoint(m, n)
    ensures Overlap(m, n) <==> !Disjoint(m, n) && Max(m.start, n.start) != Min(End(m), End(n))
  {
    ProperEnd(m);
    ProperEnd(n);
  }

  /** A request that wraps past the last address passes the enclosure test from anywhere in the
      heap; otherwise the test is right. */
  lemma EnclosedExactly(heap: Block, m: Block)
    requires Proper(heap) && m.size > 0 && heap.start <= m.start <= heap.start + heap.size
    ensures Enclosed(heap, m) <==> Inside(heap, m) || m.start + m.size > WORD
  {
    ProperEnd(heap);
    if m.start + m.size <= WORD {
      ProperEnd(m);
    } else {
      assert End(m) == m.start + m.size - 1 - WORD;
    }
  }

  // The registry.

  /** A heap that does not start at NULL and whose end is an address. */
  predicate HeapOk(heap: Block) {
    Proper(heap) && heap.start > 0 && heap.start + heap.size < WORD
  }

  /** Sorted, pairwise disjoint, inside the heap. */
  predicate Orderly(heap: Block, bs: seq<Block>) {
    && (forall i :: 0 <= i < |bs| ==> bs[i].size > 0 && Inside(heap, bs[i]))
    && (forall i, j :: 0 <= i < j < |bs| ==> bs[i].start + bs[i].size <= bs[j].start)
  }

  /** The end of the block before position i, or the start of the heap. */
  function Edge(heap: Block, bs: seq<Block>, i: nat): int
    requires i <= |bs|
  {
    if i == 0 then heap.start else bs[i - 1].start + bs[i - 1].size
  }

  /** The loop of allocator_alloc: the position it stops at and the start it has reached. */
  function Scan(bs: seq<Block>, i: nat, start: u32, size: u32): (r: (nat, u32))
    requires i <= |bs|
    ensures i <= r.0 <= |bs|
    decreases |bs| - i
  {
    if i < |bs| && Overlap(Block(start, size), bs[i]) then Scan(bs, i + 1, Wrap(bs[i].start + bs[i].size), size)
    else (i, start)
  }

  /** allocator_register: shifted in from the end, past every block that starts above it. */
  function Insert(bs: seq<Block>, m: Block): (r: seq<Block>)
    ensures |r| == |bs| + 1
  {
    if bs != [] && bs[|bs| - 1].start > m.start then Insert(bs[..|bs| - 1], m) + [bs[|bs| - 1]] else bs + [m]
  }

  /** allocator_alloc: the registry it leaves, and the address it returns, 0 for NULL. */
  function Alloc(heap: Block, capacity: nat, bs: seq<Block>, size: u32): (seq<Block>, u32) {
    if |bs| >= capacity || size == 0 then (bs, 0)
    else
      var m := Block(Scan(bs, 0, heap.start, size).1, size);
      if !Enclosed(heap, m) then (bs, 0) else (Insert(bs, m), m.start)
  }

  /** allocator_find_in_registry. */
  function Find(bs: seq<Block>, ptr: u32): (r: int)
    ensures -1 <= r < |bs|
    ensures r >= 0 ==> bs[r].start == ptr && forall i :: 0 <= i < r ==> bs[i].start != ptr
    ensures r < 0 ==> forall i :: 0 <= i < |bs| ==> bs[i].start != ptr
  {
    if bs == [] then -1
    else if bs[0].start == ptr then 0
    else
      var r := Find(bs[1..], ptr);
      if r < 0 then -1 else r + 1
  }

  lemma FoundFirst(bs: seq<Block>, ptr: u32, i: nat)
    requires i < |bs| && bs[i].start == ptr && forall k :: 0 <= k < i ==> bs[k].start != ptr
    ensures Find(bs, ptr) == i
  {}

  function Remove(bs: seq<Block>, i: nat): seq<Block>
    requires i < |bs|
  {
    bs[..i] + bs[i + 1..]
  }

  /** allocator_free of an address in the registry; an address that is not there stops the kernel. */
  function Free(bs: seq<Block>, ptr: u32): Option<seq<Block>> {
    var i := Find(bs, ptr);
    if i < 0 then None else Some(Remove(bs, i))
  }

  // First fit.

  /** The request is small enough that no candidate runs past the last address. */
  predicate NoWrap(heap: Block, size: u32) {
    heap.start + heap.size + size <= WORD
  }

  /** The bytes [a, a + size) are in the heap and belong to no block. */
  predicate FitsAt(heap: Block, bs: seq<Block>, a: u32, size: u32) {
    Inside(heap, Block(a, size)) && forall i :: 0 <= i < |bs| ==> Disjoint(Block(a, size), bs[i])
  }

  lemma EdgeInHeap(heap: Block, bs: seq<Block>, i: nat)
    requires HeapOk(heap) && Orderly(heap, bs) && i <= |bs|
    ensures heap.start <= Edge(heap, bs, i) <= heap.start + heap.size
    ensures i < |bs| ==> Edge(heap, bs, i) <= bs[i].start
  {
    if i > 0 {
      assert Inside(heap, bs[i - 1]);
    }
    if i < |bs| {
      assert Inside(heap, bs[i]);
    }
  }

  /** A candidate that would run past the last address never overlaps by the written test. */
  lemma OverlapIsProper(m: Block, n: Block)
    requires m.size > 0 && Proper(n) && Overlap(m, n)
    ensures Proper(m)
  {
    if m.start + m.size > WORD {
      EndWraps(m);
    }
  }

  lemma EndWraps(m: Block)
    requires m.size > 0 && m.start + m.size > WORD
    ensures End(m) == m.start + m.size - 1 - WORD < m.start
  {}

  /** Where the scan stops, read off the registry's gaps: past the last block, where the request would run
      past the last address, before a block of one byte, and where the gap is at most one byte short. */
  predicate StopsAt(heap: Block, bs: seq<Block>, size: u32, k: nat)
    requires k <= |bs|
  {
    || k == |bs|
    || Edge(heap, bs, k) + size > WORD
    || bs[k].size == 1
    || Edge(heap, bs, k) + size - 1 <= bs[k].start
  }

  /** The least such position from i on. */
  function FirstStop(heap: Block, bs: seq<Block>, size: u32, i: nat): (k: nat)
    requires i <= |bs|
    ensures i <= k <= |bs| && StopsAt(heap, bs, size, k)
    ensures forall j :: i <= j < k ==> !StopsAt(heap, bs, size, j)
    decreases |bs| - i
  {
    if StopsAt(heap, bs, size, i) then i else FirstStop(heap, bs, size, i + 1)
  }

  lemma OverlapOnGap(heap: Block, bs: seq<Block>, i: nat, size: u32)
    requires HeapOk(heap) && Orderly(heap, bs) && size > 0 && i < |bs|
    ensures 0 <= Edge(heap, bs, i) < WORD
    ensures Overlap(Block(Edge(heap, bs, i), size), bs[i]) <==> !StopsAt(heap, bs, size, i)
  {
    EdgeInHeap(heap, bs, i);
    assert Inside(heap, bs[i]) && bs[i].size > 0;
    hide Orderly;
    var m := Block(Edge(heap, bs, i), size);
    ProperEnd(bs[i]);
    if m.start + size > WORD {
      EndWraps(m);
    } else {
      ProperEnd(m);
    }
  }

  /** The scan stops at the first such position, at the edge there, and nothing fits below it. */
  lemma {:induction false} ScanStops(heap: Block, bs: seq<Block>, i: nat, start: u32, size: u32)
    requires HeapOk(heap) && Orderly(heap, bs) && size > 0
    requires i <= |bs| && start == Edge(heap, bs, i)
    requires forall a: u32 :: FitsAt(heap, bs, a, size) ==> start <= a
    ensures var (k, s) := Scan(bs, i, start, size);
            && k == FirstStop(heap, bs, size, i) && s == Edge(heap, bs, k)
            && forall a: u32 :: FitsAt(heap, bs, a, size) ==> s <= a
    decreases |bs| - i
  {
    hide Orderly, FitsAt, Overlap, StopsAt;
    EdgeInHeap(heap, bs, i);
    if i < |bs| {
      OverlapOnGap(heap, bs, i, size);
      if Overlap(Block(start, size), bs[i]) {
        EdgeInHeap(heap, bs, i + 1);
        NextEdge(heap, bs, i, start, size);
        ScanStops(heap, bs, i + 1, Wrap(bs[i].start + bs[i].size), size);
      }
    } else {
      AllStop(heap, bs, size);
    }
  }

  lemma AllStop(heap: Block, bs: seq<Block>, size: u32)
    ensures FirstStop(heap, bs, size, |bs|) == |bs|
  {}

  /** Past a block that the candidate overlaps, nothing fits before that block's end. */
  lemma NextEdge(heap: Block, bs: seq<Block>, i: nat, start: u32, size: u32)
    requires HeapOk(heap) && Orderly(heap, bs) && size > 0
    requires i < |bs| && start == Edge(heap, bs, i) && Overlap(Block(start, size), bs[i])
    requires forall a: u32 :: FitsAt(heap, bs, a, size) ==> start <= a
    ensures Wrap(bs[i].start + bs[i].size) == bs[i].start + bs[i].size
    ensures forall a: u32 :: FitsAt(heap, bs, a, size) ==> bs[i].start + bs[i].size <= a
  {
    EdgeInHeap(heap, bs, i);
    assert Inside(heap, bs[i]);
    WrapSmall(bs[i].start + bs[i].size);
    OverlapIsProper(Block(start, size), bs[i]);
    OverlapExactly(Block(start, size), bs[i]);
    hide Orderly, Overlap;
  }

  /** Where a request is put: the end of the gap's left neighbour. */
  function Candidate(heap: Block, bs: seq<Block>, size: u32): int {
    Edge(heap, bs, FirstStop(heap, bs, size, 0))
  }

  /** The gap where the scan stops is large enough. */
  predicate Settles(heap: Block, bs: seq<Block>, size: u32) {
    var k := FirstStop(heap, bs, size, 0);
    Edge(heap, bs, k) + size <= if k < |bs| then bs[k].start else WORD
  }

  /** There is room in the registry, and the candidate ends in the heap or past the last address. */
  predicate Grants(heap: Block, capacity: nat, bs: seq<Block>, size: u32) {
    && |bs| < capacity && size > 0
    && (Candidate(heap, bs, size) + size <= heap.start + heap.size || Candidate(heap, bs, size) + size > WORD)
  }

  lemma ScanFromStart(heap: Block, bs: seq<Block>, size: u32)
    requires HeapOk(heap) && Orderly(heap, bs) && size > 0
    ensures var (k, s) := Scan(bs, 0, heap.start, size);
            && k == FirstStop(heap, bs, size, 0) && s == Candidate(heap, bs, size) == Edge(heap, bs, k)
            && heap.start <= s <= heap.start + heap.size
            && (k < |bs| ==> s <= bs[k].start && Inside(heap, bs[k]) && bs[k].size > 0)
            && (forall a: u32 :: FitsAt(heap, bs, a, size) ==> s <= a)
            && (Enclosed(heap, Block(s, size)) <==> Inside(heap, Block(s, size)) || s + size > WORD)
  {
    ScanStops(heap, bs, 0, heap.start, size);
    var (k, s) := Scan(bs, 0, heap.start, size);
    EdgeInHeap(heap, bs, k);
    EnclosedExactly(heap, Block(s, size));
    hide Enclosed, Overlap, FitsAt, FirstStop, Scan;
  }

  /** What a request is given, for every registry and size: the candidate where there is room for it, as
      the code sees it, and else NULL. */
  lemma AllocGrantsExactly(heap: Block, capacity: nat, bs: seq<Block>, size: u32)
    requires HeapOk(heap) && Orderly(heap, bs)
    ensures Alloc(heap, capacity, bs, size).1 ==
            if Grants(heap, capacity, bs, size) then Candidate(heap, bs, size) else 0
    ensures Grants(heap, capacity, bs, size) ==>
            var c := Candidate(heap, bs, size);
            heap.start <= c < WORD && Alloc(heap, capacity, bs, size).0 == Insert(bs, Block(c, size))
    ensures !Grants(heap, capacity, bs, size) ==> Alloc(heap, capacity, bs, size).0 == bs
  {
    if |bs| < capacity && size > 0 {
      ScanFromStart(heap, bs, size);
      hide Orderly, Scan, FirstStop, Insert, Enclosed, Candidate;
    }
  }

  lemma FrontAndLast(bs: seq<Block>, k: nat)
    requires k < |bs|
    ensures var front := bs[..|bs| - 1]; front[..k] == bs[..k] && front[k..] + [bs[|bs| - 1]] == bs[k..]
  {
    assert bs == bs[..|bs| - 1] + [bs[|bs| - 1]];
  }

  /** Inserting where the neighbours leave room keeps the registry orderly. */
  lemma {:induction false} InsertAt(bs: seq<Block>, m: Block, k: nat)
    requires k <= |bs|
    requires forall i :: 0 <= i < k ==> bs[i].start <= m.start
    requires forall i :: k <= i < |bs| ==> m.start < bs[i].start
    ensures Insert(bs, m) == bs[..k] + [m] + bs[k..]
    decreases |bs|
  {
    if k < |bs| {
      var front := bs[..|bs| - 1];
      InsertAt(front, m, k);
      FrontAndLast(bs, k);
    } else {
      assert bs[..k] == bs && bs[k..] == [];
    }
  }

  lemma InsertOrderly(heap: Block, bs: seq<Block>, m: Block, k: nat)
    requires Orderly(heap, bs) && m.size > 0 && Inside(heap, m) && k <= |bs|
    requires forall i :: 0 <= i < k ==> bs[i].start + bs[i].size <= m.start
    requires forall i :: k <= i < |bs| ==> m.start + m.size <= bs[i].start
    ensures Insert(bs, m) == bs[..k] + [m] + bs[k..]
    ensures Orderly(heap, Insert(bs, m))
  {
    hide Insert, Orderly;
    InsertAt(bs, m, k);
    SplicedAt(bs, m, k);
    SplicedOrderly(heap, bs, m, k, bs[..k] + [m] + bs[k..]);
  }

  lemma SplicedAt(bs: seq<Block>, m: Block, k: nat)
    requires k <= |bs|
    ensures var r := bs[..k] + [m] + bs[k..];
            |r| == |bs| + 1 && forall i :: 0 <= i < |r| ==> r[i] == Inserted(bs, m, k, i)
  {}

  lemma SplicedOrderly(heap: Block, bs: seq<Block>, m: Block, k: nat, r: seq<Block>)
    requires Orderly(heap, bs) && m.size > 0 && Inside(heap, m) && k <= |bs| && |r| == |bs| + 1
    requires forall i :: 0 <= i < k ==> bs[i].start + bs[i].size <= m.start
    requires forall i :: k <= i < |bs| ==> m.start + m.size <= bs[i].start
    requires forall i :: 0 <= i < |r| ==> r[i] == Inserted(bs, m, k, i)
    ensures Orderly(heap, r)
  {
    forall i, j | 0 <= i < j < |r|
      ensures r[i].start + r[i].size <= r[j].start
    {
      assert r[i] == Inserted(bs, m, k, i) && r[j] == Inserted(bs, m, k, j);
    }
  }

  /** A round of the shifting loop: the block before position n goes behind the new one, or the new one
      goes to position n. */
  lemma InsertFrom(bs: seq<Block>, m: Block, n: nat, tail: seq<Block>)
    requires n <= |bs|
    ensures Insert(bs[..n], m) + tail ==
            if n > 0 && bs[n - 1].start > m.start then Insert(bs[..n - 1], m) + ([bs[n - 1]] + tail)
            else bs[..n] + [m] + tail
  {
    if n > 0 {
      assert bs[..n][..n - 1] == bs[..n - 1] && bs[..n][n - 1] == bs[n - 1];
    }
  }

  function Inserted(bs: seq<Block>, m: Block, k: nat, i: nat): Block
    requires k <= |bs| && i <= |bs|
  {
    if i < k then bs[i] else if i == k then m else bs[i - 1]
  }

  lemma BeforeEdge(heap: Block, bs: seq<Block>, k: nat)
    requires Orderly(heap, bs) && k <= |bs|
    ensures forall i :: 0 <= i < k ==> bs[i].start + bs[i].size <= Edge(heap, bs, k)
  {}

  lemma AfterNext(heap: Block, bs: seq<Block>, k: nat, limit: int)
    requires Orderly(heap, bs) && k <= |bs| && (k < |bs| ==> limit <= bs[k].start)
    ensures forall i :: k <= i < |bs| ==> limit <= bs[i].start
  {}

  /** Where the scan settles, the blocks before it end below the candidate and the others begin
      above it. */
  lemma ScanLeavesGap(heap: Block, bs: seq<Block>, size: u32)
    requires HeapOk(heap) && Orderly(heap, bs) && size > 0 && Settles(heap, bs, size)
    ensures var (k, s) := Scan(bs, 0, heap.start, size);
            && s + size <= WORD
            && (forall i :: 0 <= i < k ==> bs[i].start + bs[i].size <= s)
            && (forall i :: k <= i < |bs| ==> s + size <= bs[i].start)
  {
    hide Orderly, Overlap, Enclosed;
    var (k, s) := Scan(bs, 0, heap.start, size);
    ScanFromStart(heap, bs, size);
    BeforeEdge(heap, bs, k);
    AfterNext(heap, bs, k, s + size);
  }

  /** Where a block is inserted: past all that start at or below x. */
  function Position(bs: seq<Block>, x: u32): (k: nat)
    ensures k <= |bs|
    ensures forall i :: k <= i < |bs| ==> x < bs[i].start
    ensures k > 0 ==> bs[k - 1].start <= x
  {
    if bs != [] && bs[|bs| - 1].start > x then Position(bs[..|bs| - 1], x) else |bs|
  }

  /** Inserting a block keeps the registry orderly if and only if it fits. */
  lemma InsertKeepsExactly(heap: Block, bs: seq<Block>, m: Block)
    requires Orderly(heap, bs) && m.size > 0
    ensures Orderly(heap, Insert(bs, m)) <==> FitsAt(heap, bs, m.start, m.size)
  {
    hide Insert, Position;
    if FitsAt(heap, bs, m.start, m.size) {
      var k := Position(bs, m.start);
      FitLeavesGap(heap, bs, m, k);
      hide Orderly;
      InsertOrderly(heap, bs, m, k);
    } else if !Inside(heap, m) {
      OutsiderStays(heap, bs, m);
    } else {
      var i :| 0 <= i < |bs| && !Disjoint(m, bs[i]);
      assert bs[i].size > 0;
      ClashStays(heap, bs, m, i);
    }
  }

  lemma FitLeavesGap(heap: Block, bs: seq<Block>, m: Block, k: nat)
    requires Orderly(heap, bs) && m.size > 0 && FitsAt(heap, bs, m.start, m.size) && k == Position(bs, m.start)
    ensures forall i :: 0 <= i < k ==> bs[i].start + bs[i].size <= m.start
    ensures forall i :: k <= i < |bs| ==> m.start + m.size <= bs[i].start
  {
    hide Position;
    forall i | 0 <= i < |bs|
      ensures if i < k then bs[i].start + bs[i].size <= m.start else m.start + m.size <= bs[i].start
    {
      assert Disjoint(m, bs[i]) && bs[i].size > 0;
      if i < k - 1 {
        assert bs[i].start + bs[i].size <= bs[k - 1].start;
      }
    }
  }

  /** A granted request keeps the registry orderly if and only if the gap where the scan stops is large
      enough. */
  lemma AllocKeepsExactly(heap: Block, capacity: nat, bs: seq<Block>, size: u32)
    requires HeapOk(heap) && Orderly(heap, bs) && Grants(heap, capacity, bs, size)
    ensures Orderly(heap, Alloc(heap, capacity, bs, size).0) <==> Settles(heap, bs, size)
  {
    hide Orderly, Insert, Alloc;
    AllocGrantsExactly(heap, capacity, bs, size);
    SettlesWhereFits(heap, bs, size);
    InsertKeepsExactly(heap, bs, Block(Candidate(heap, bs, size), size));
    hide Settles, FitsAt, Candidate;
  }

  /** The request fits at the candidate exactly if the gap there is large enough and the heap does not
      end before. */
  lemma SettlesWhereFits(heap: Block, bs: seq<Block>, size: u32)
    requires HeapOk(heap) && Orderly(heap, bs) && size > 0
    ensures heap.start <= Candidate(heap, bs, size) <= heap.start + heap.size
    ensures FitsAt(heap, bs, Candidate(heap, bs, size), size) <==>
            Settles(heap, bs, size) && Candidate(heap, bs, size) + size <= heap.start + heap.size
  {
    ScanFromStart(heap, bs, size);
    var k, s := FirstStop(heap, bs, size, 0), Candidate(heap, bs, size);
    hide FirstStop, Scan;
    if k < |bs| {
      assert Disjoint(Block(s, size), bs[k]) <==> s + size <= bs[k].start;
    }
    if Settles(heap, bs, size) {
      ScanLeavesGap(heap, bs, size);
    }
    hide Orderly;
  }

  /** A request so large that it runs past the last address from the heap's start on is granted there
      whenever there is room in the registry, and never fits. */
  lemma HugeRequestIsGranted(heap: Block, capacity: nat, bs: seq<Block>, size: u32)
    requires HeapOk(heap) && Orderly(heap, bs) && |bs| < capacity && heap.start + size > WORD
    ensures var (bs', r) := Alloc(heap, capacity, bs, size);
            r == heap.start && !Orderly(heap, bs') && forall a: u32 :: !FitsAt(heap, bs, a, size)
  {
    assert FirstStop(heap, bs, size, 0) == 0;
    hide Orderly, Insert, Alloc;
    AllocGrantsExactly(heap, capacity, bs, size);
    OutsiderStays(heap, bs, Block(heap.start, size));
  }

  lemma OutsiderStays(heap: Block, bs: seq<Block>, m: Block)
    requires !Inside(heap, m)
    ensures !Orderly(heap, Insert(bs, m))
  {
    hide Insert;
    InsertedWhere(bs, m);
    var r := Insert(bs, m);
    var p :| 0 <= p <= |bs| && r == bs[..p] + [m] + bs[p..];
    assert r[p] == m;
  }

  /** Two blocks that share a byte stay in the registry whatever the insertion does. */
  lemma ClashStays(heap: Block, bs: seq<Block>, m: Block, k: nat)
    requires k < |bs| && m.size > 0 && bs[k].size > 0 && !Disjoint(m, bs[k])
    ensures !Orderly(heap, Insert(bs, m))
  {
    hide Insert;
    InsertedWhere(bs, m);
    var r := Insert(bs, m);
    var p :| 0 <= p <= |bs| && r == bs[..p] + [m] + bs[p..];
    assert r[p] == m && r[if k < p then k else k + 1] == bs[k];
  }

  lemma {:induction false} InsertedWhere(bs: seq<Block>, m: Block)
    ensures exists p :: 0 <= p <= |bs| && Insert(bs, m) == bs[..p] + [m] + bs[p..]
    decreases |bs|
  {
    if bs != [] && bs[|bs| - 1].start > m.start {
      var front, last := bs[..|bs| - 1], bs[|bs| - 1];
      InsertedWhere(front, m);
      var p :| 0 <= p <= |front| && Insert(front, m) == front[..p] + [m] + front[p..];
      FrontAndLast(bs, p);
      assert Insert(bs, m) == bs[..p] + [m] + bs[p..];
    } else {
      assert bs[..|bs|] == bs && bs[|bs|..] == [];
      assert Insert(bs, m) == bs[..|bs|] + [m] + bs[|bs|..];
    }
  }

  /** Exact first fit, where the scan settles: the lowest address where the request fits, and NULL only
      if the registry is full, the request empty, or nothing fits anywhere in the heap. */
  lemma AllocIsFirstFit(heap: Block, capacity: nat, bs: seq<Block>, size: u32)
    requires HeapOk(heap) && Orderly(heap, bs) && (size == 0 || Settles(heap, bs, size))
    ensures var (bs', r) := Alloc(heap, capacity, bs, size);
            && Orderly(heap, bs')
            && (r == 0 ==> bs' == bs && (|bs| >= capacity || size == 0 || forall a: u32 :: !FitsAt(heap, bs, a, size)))
            && (r != 0 ==>
                 && FitsAt(heap, bs, r, size) && (forall a: u32 :: FitsAt(heap, bs, a, size) ==> r <= a)
                 && exists k :: 0 <= k <= |bs| && bs' == bs[..k] + [Block(r, size)] + bs[k..])
  {
    hide Orderly, Insert, Settles, Alloc, Candidate;
    AllocGrantsExactly(heap, capacity, bs, size);
    if size != 0 {
      SettlesWhereFits(heap, bs, size);
      NothingBelow(heap, bs, size);
      var c := Candidate(heap, bs, size);
      SettledEnds(heap, bs, size);
      if Grants(heap, capacity, bs, size) {
        AllocKeepsExactly(heap, capacity, bs, size);
        InsertedWhere(bs, Block(c, size));
        hide FitsAt;
      } else {
        forall a: u32 | FitsAt(heap, bs, a, size)
          ensures c + size <= heap.start + heap.size
        {}
      }
    }
  }

  lemma NothingBelow(heap: Block, bs: seq<Block>, size: u32)
    requires HeapOk(heap) && Orderly(heap, bs) && size > 0
    ensures forall a: u32 :: FitsAt(heap, bs, a, size) ==> Candidate(heap, bs, size) <= a
  {
    ScanFromStart(heap, bs, size);
    hide FitsAt, Candidate;
  }

  lemma SettledEnds(heap: Block, bs: seq<Block>, size: u32)
    requires HeapOk(heap) && Orderly(heap, bs) && size > 0 && Settles(heap, bs, size)
    ensures Candidate(heap, bs, size) + size <= WORD
  {
    ScanLeavesGap(heap, bs, size);
    ScanFromStart(heap, bs, size);
    hide Settles, Candidate;
  }

  /** Where a granted block goes: between the blocks below it and the blocks above it. */
  lemma AllocPlaces(heap: Block, capacity: nat, bs: seq<Block>, size: u32)
    requires HeapOk(heap) && Orderly(heap, bs) && Settles(heap, bs, size)
    requires Alloc(heap, capacity, bs, size).1 != 0
    ensures var (bs', r) := Alloc(heap, capacity, bs, size); var k := Scan(bs, 0, heap.start, size).0;
            && bs' == bs[..k] + [Block(r, size)] + bs[k..]
            && (forall i :: 0 <= i < |bs'| ==> bs'[i] == Inserted(bs, Block(r, size), k, i))
            && (forall i :: 0 <= i < k ==> bs[i].start + bs[i].size <= r)
            && (forall i :: k <= i < |bs| ==> r + size <= bs[i].start)
  {
    ScanLeavesGap(heap, bs, size);
    hide Orderly, Settles, Enclosed, Insert, FirstStop;
    var (k, s) := Scan(bs, 0, heap.start, size);
    InsertAt(bs, Block(s, size), k);
  }

  // A discipline on sizes that makes every run right.

  predicate Divides(g: nat, x: int)
    requires g > 0
  {
    x % g == 0
  }

  /** Every block's size and distance from the start of the heap is a multiple of g. */
  predicate OnGrid(g: nat, heap: Block, bs: seq<Block>)
    requires g > 0
  {
    forall i :: 0 <= i < |bs| ==> Divides(g, bs[i].size) && Divides(g, bs[i].start - heap.start)
  }

  lemma MultipleDivides(g: nat, x: int, k: int)
    requires g > 0 && x == g * k
    ensures x % g == 0
  {
    var q, r := x / g, x % g;
    assert g * (k - q) == r by { assert g * (k - q) == g * k - g * q; }
    if k - q >= 1 {
      TimesMonotonic(1, k - q, g);
      assert false;
    } else if k - q <= -1 {
      TimesMonotonic(k - q, -1, g);
      assert false;
    }
  }

  lemma DividesSums(g: nat, x: int, y: int)
    requires g > 0 && Divides(g, x) && Divides(g, y)
    ensures Divides(g, x + y) && Divides(g, x - y)
  {
    var a, b := x / g, y / g;
    assert x == g * a && y == g * b;
    assert x + y == g * (a + b) && x - y == g * (a - b);
    MultipleDivides(g, x + y, a + b);
    MultipleDivides(g, x - y, a - b);
  }

  /** Multiples of g are at least g apart, so none is one less than another. */
  lemma NotOneShort(g: nat, x: int, y: int)
    requires g >= 2 && Divides(g, x) && Divides(g, y)
    ensures x != y - 1
  {
    DividesSums(g, y, x);
    if y - x == 1 {
      SmallModulus(1, g);
    }
  }

  lemma SmallModulus(x: nat, g: nat)
    requires x < g
    ensures x % g == x
  {}

  lemma EdgeOnGrid(g: nat, heap: Block, bs: seq<Block>, k: nat)
    requires g > 0 && OnGrid(g, heap, bs) && k <= |bs|
    ensures Divides(g, Edge(heap, bs, k) - heap.start)
  {
    if k > 0 {
      DividesSums(g, bs[k - 1].start - heap.start, bs[k - 1].size);
    } else {
      SmallModulus(0, g);
    }
  }

  /** On the grid the scan settles exactly if the candidate does not run past the last address, which a
      small enough request never does. */
  lemma GridSettles(g: nat, heap: Block, bs: seq<Block>, size: u32)
    requires g >= 2 && HeapOk(heap) && Orderly(heap, bs) && OnGrid(g, heap, bs)
    requires size > 0 && Divides(g, size)
    ensures Settles(heap, bs, size) <==> Candidate(heap, bs, size) + size <= WORD
    ensures NoWrap(heap, size) ==> Settles(heap, bs, size)
    ensures Divides(g, Candidate(heap, bs, size) - heap.start)
  {
    hide Divides, FirstStop, Scan, Orderly, OnGrid, StopsAt, FitsAt, Enclosed;
    ScanFromStart(heap, bs, size);
    var k := FirstStop(heap, bs, size, 0);
    EdgeOnGrid(g, heap, bs, k);
    if k < |bs| {
      StopOnGrid(g, heap, bs, size, k);
    }
  }

  /** On the grid the scan stops before a block only if the gap there is large enough, or the request would
      run past the last address. */
  lemma StopOnGrid(g: nat, heap: Block, bs: seq<Block>, size: u32, k: nat)
    requires g >= 2 && OnGrid(g, heap, bs) && k < |bs| && StopsAt(heap, bs, size, k) && Divides(g, size)
    requires 0 <= Edge(heap, bs, k) < WORD && Divides(g, Edge(heap, bs, k) - heap.start)
    ensures Edge(heap, bs, k) + size <= bs[k].start || Edge(heap, bs, k) + size > WORD
  {
    hide Divides;
    GapNotShort(g, heap, Edge(heap, bs, k), size, bs[k]);
  }

  /** Where the written test sees no overlap, the documented one does not either, unless the gap is
      one byte short or the next block is a single byte. */
  lemma StopIsClear(m: Block, n: Block)
    requires Proper(m) && Proper(n) && m.start <= n.start && !Overlap(m, n)
    requires n.start - m.start != m.size - 1 && n.size != 1
    ensures !OverlapAsDocumented(m, n) && m.start + m.size <= n.start
  {
    ProperEnd(m);
    ProperEnd(n);
  }

  lemma GapNotShort(g: nat, heap: Block, s: u32, size: u32, b: Block)
    requires g >= 2 && Divides(g, size) && Divides(g, s - heap.start)
    requires Divides(g, b.size) && Divides(g, b.start - heap.start)
    ensures b.start - s != size - 1 && b.size != 1
  {
    DividesSums(g, b.start - heap.start, s - heap.start);
    NotOneShort(g, b.start - s, size);
    SmallModulus(0, g);
    NotOneShort(g, 0, b.size);
  }

  lemma InsertOnGrid(g: nat, heap: Block, bs: seq<Block>, m: Block)
    requires g > 0 && OnGrid(g, heap, bs) && Divides(g, m.size) && Divides(g, m.start - heap.start)
    ensures OnGrid(g, heap, Insert(bs, m))
  {
    InsertedWhere(bs, m);
  }

  /** Removing a block keeps everything. */
  lemma RemoveKeeps(g: nat, heap: Block, bs: seq<Block>, i: nat)
    requires g > 0 && Orderly(heap, bs) && OnGrid(g, heap, bs) && i < |bs|
    ensures Orderly(heap, Remove(bs, i)) && OnGrid(g, heap, Remove(bs, i)) && |Remove(bs, i)| == |bs| - 1
  {}

  /** Freeing what was just allocated restores the registry. */
  lemma AllocThenFree(heap: Block, capacity: nat, bs: seq<Block>, size: u32)
    requires HeapOk(heap) && Orderly(heap, bs) && Settles(heap, bs, size)
    requires Alloc(heap, capacity, bs, size).1 != 0
    ensures var (bs', r) := Alloc(heap, capacity, bs, size); Free(bs', r) == Some(bs)
  {
    AllocPlaces(heap, capacity, bs, size);
    var (bs', r) := Alloc(heap, capacity, bs, size);
    var k := Scan(bs, 0, heap.start, size).0;
    hide Alloc, Scan, Settles;
    RemoveInserted(bs, Block(r, size), k);
    FindInserted(bs, bs', Block(r, size), k);
  }

  lemma FindInserted(bs: seq<Block>, bs': seq<Block>, m: Block, k: nat)
    requires k <= |bs| && |bs'| == |bs| + 1 && m.size > 0
    requires forall i :: 0 <= i < |bs'| ==> bs'[i] == Inserted(bs, m, k, i)
    requires forall i :: 0 <= i < k ==> bs[i].size > 0 && bs[i].start + bs[i].size <= m.start
    ensures Find(bs', m.start) == k
  {
    assert bs'[k] == m;
  }

  lemma RemoveInserted(bs: seq<Block>, m: Block, k: nat)
    requires k <= |bs|
    ensures Remove(bs[..k] + [m] + bs[k..], k) == bs
  {
    var r := bs[..k] + [m] + bs[k..];
    assert r[..k] == bs[..k] && r[k + 1..] == bs[k..];
    assert bs[..k] + bs[k..] == bs;
  }

  lemma AllocOnGrid(g: nat, heap: Block, capacity: nat, bs: seq<Block>, size: u32)
    requires g >= 2 && HeapOk(heap) && Orderly(heap, bs) && OnGrid(g, heap, bs) && |bs| <= capacity
    requires Divides(g, size) && NoWrap(heap, size)
    ensures var bs' := Alloc(heap, capacity, bs, size).0;
            Orderly(heap, bs') && OnGrid(g, heap, bs') && |bs'| <= capacity
  {
    hide Orderly, OnGrid, Divides, Alloc, Insert, Settles, Grants, NoWrap;
    AllocGrantsExactly(heap, capacity, bs, size);
    if Grants(heap, capacity, bs, size) {
      GrantsRoom(heap, capacity, bs, size);
      GridSettles(g, heap, bs, size);
      AllocKeepsExactly(heap, capacity, bs, size);
      InsertOnGrid(g, heap, bs, Block(Candidate(heap, bs, size), size));
    }
  }

  lemma GrantsRoom(heap: Block, capacity: nat, bs: seq<Block>, size: u32)
    requires Grants(heap, capacity, bs, size)
    ensures |bs| < capacity && size > 0
  {}

  lemma FreeKeeps(g: nat, heap: Block, bs: seq<Block>, ptr: u32)
    requires g > 0 && Orderly(heap, bs) && OnGrid(g, heap, bs) && Free(bs, ptr).Some?
    ensures var bs' := Free(bs, ptr).value; Orderly(heap, bs') && OnGrid(g, heap, bs') && |bs'| == |bs| - 1
  {
    RemoveKeeps(g, heap, bs, Find(bs, ptr));
  }

  lemma Appends(heap: Block, capacity: nat, bs: seq<Block>, size: u32, s: u32, bs': seq<Block>)
    requires |bs| < capacity && size > 0 && Scan(bs, 0, heap.start, size) == (|bs|, s) && Enclosed(heap, Block(s, size))
    requires (bs == [] || bs[|bs| - 1].start <= s) && bs' == bs + [Block(s, size)]
    ensures Alloc(heap, capacity, bs, size) == (bs', s)
  {}

  /** A request of one byte is given the heap's first byte, taken or not. */
  lemma TakesOneByte(heap: Block, capacity: nat)
    requires HeapOk(heap) && capacity >= 2
    ensures var b := Block(heap.start, 1);
            Alloc(heap, capacity, [], 1) == ([b], heap.start) && Alloc(heap, capacity, [b], 1) == ([b, b], heap.start)
  {
    var b := Block(heap.start, 1);
    ProperEnd(heap);
    ProperEnd(b);
    Appends(heap, capacity, [], 1, heap.start, [b]);
    assert Insert([b], b) == [b, b];
    hide Insert, Enclosed, Overlap;
    assert !Overlap(b, b) && Enclosed(heap, b);
  }
}

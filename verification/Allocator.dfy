/** struct allocator and its functions (src/libs/allocator.c): the registry is shifted in place, and
    a block that cannot grow where it is has its bytes copied. */
module Allocator {
  import opened Words
  import opened Blocks
  import opened Resizing
  import opened HeapRuns

  class Allocator {
    const heap: Block
    const capacity: nat
    /** The registry, and the cell of memory behind it, which is only ever read. */
    const registry: array<Block>
    var size: nat
    /** All of memory. */
    var memory: seq<byte>

    constructor (heap: Block, registry: array<Block>, memory: seq<byte>)
      requires registry.Length >= 1 && |memory| == WORD
      ensures this.heap == heap && this.registry == registry && capacity == registry.Length - 1
      ensures this.memory == memory && Valid() && Live() == []
    {
      this.heap, this.registry, this.memory := heap, registry, memory;
      capacity := registry.Length - 1;
      size := 0;
    }

    ghost predicate Valid()
      reads this, registry
    {
      registry.Length == capacity + 1 && size <= capacity && |memory| == WORD
    }

    /** The live blocks. */
    ghost function Live(): seq<Block>
      reads this, registry
      requires Valid()
    {
      registry[..size]
    }

    /** The registry with the cells behind the live blocks. */
    ghost function Snapshot(): (r: Registry)
      reads this, registry
      requires Valid()
      ensures r.Valid() && r.Capacity() == capacity && r.Live() == Live()
    {
      Registry(registry[..], size)
    }

    /** allocator_register. */
    method Register(m: Block)
      requires Valid() && size < capacity
      modifies `size, registry
      ensures Valid() && Live() == Insert(old(Live()), m)
      ensures Snapshot() == old(Snapshot()).With(Live())
    {
      hide Insert, Shifted;
      ghost var bs, was, tail: seq<Block> := registry[..size], registry[..], [];
      size := size + 1;
      var n := size;
      assert bs[..n - 1] == bs;
      NotShifted(was, bs);
      while n > 0
        invariant 0 < n <= size == |bs| + 1
        invariant Shifted(registry[..], was, bs, n, tail)
        invariant Insert(bs, m) == Insert(bs[..n - 1], m) + tail
        decreases n
      {
        n := n - 1;
        InsertFrom(bs, m, n, tail);
        ShiftNext(registry[..], was, bs, n, tail);
        ghost var cells := registry[..];
        if n > 0 && registry[n - 1].start > m.start {
          registry[n] := registry[n - 1];
          assert registry[..] == cells[n := bs[n - 1]];
          tail := [bs[n - 1]] + tail;
        } else {
          registry[n] := m;
          assert registry[..] == cells[n := m];
          ShiftDone(cells, was, bs, n, tail, m);
          assert Live() == registry[..][..size];
          return;
        }
      }
    }

    /** allocator_unregister. */
    method Unregister(index: nat)
      requires Valid() && index < size
      modifies `size, registry
      ensures Valid() && Live() == Remove(old(Live()), index)
      ensures Snapshot() == old(Snapshot()).With(Live())
    {
      hide Closed, Remove;
      ghost var was := Snapshot();
      NothingClosed(was.cells, index);
      var i := index;
      while i < size - 1
        invariant index <= i <= size - 1 < registry.Length && size == was.size
        invariant registry[..] == Closed(was.cells, index, i)
      {
        ClosedNext(was.cells, index, i);
        registry[i] := registry[i + 1];
        i := i + 1;
      }
      AllClosed(was, index);
      size := size - 1;
      assert Live() == registry[..][..size];
    }

    method AllocBlock(request: u32) returns (r: u32)
      requires Valid()
      modifies `size, registry
      ensures Valid() && (Live(), r) == Alloc(heap, capacity, old(Live()), request)
      ensures Some(Snapshot()) == Step(heap, old(Snapshot()), AllocCall(request))
    {
      ghost var bs := Live();
      WithSame(Snapshot());
      if size >= capacity || request == 0 {
        return 0;
      }
      var start: u32 := heap.start;
      var i := 0;
      while i < size && Overlap(Block(start, request), registry[i])
        invariant 0 <= i <= size && Live() == bs
        invariant Scan(bs, i, start, request) == Scan(bs, 0, heap.start, request)
      {
        start := Wrap(registry[i].start + registry[i].size);
        i := i + 1;
      }
      var m := Block(start, request);
      if !Enclosed(heap, m) {
        return 0;
      }
      Register(m);
      r := m.start;
    }

    method FindInRegistry(ptr: u32) returns (r: int)
      requires Valid()
      ensures r == Find(Live(), ptr)
    {
      var i := 0;
      while i < size
        invariant 0 <= i <= size
        invariant forall k :: 0 <= k < i ==> registry[k].start != ptr
      {
        if registry[i].start == ptr {
          FoundFirst(Live(), ptr, i);
          return i;
        }
        i := i + 1;
      }
      r := -1;
    }

    /** allocator_free; false when the address is unknown, which stops the kernel. */
    method FreeBlock(ptr: u32) returns (ok: bool)
      requires Valid()
      modifies `size, registry
      ensures Valid() && ok == Free(old(Live()), ptr).Some?
      ensures Live() == Free(old(Live()), ptr).GetOr(old(Live()))
      ensures Snapshot() == Step(heap, old(Snapshot()), FreeCall(ptr)).GetOr(old(Snapshot()))
    {
      hide Find, Remove, Registry.With;
      var index := FindInRegistry(ptr);
      if index < 0 {
        return false;
      }
      Unregister(index);
      ok := true;
    }

    /** memcpy, which copies from the front. */
    method MemCopy(dst: u32, src: u32, n: nat)
      requires |memory| == WORD
      modifies `memory
      ensures |memory| == WORD && memory == Copied(old(memory), dst, src, n)
    {
      ghost var before := memory;
      var i := 0;
      while i < n
        invariant 0 <= i <= n && |memory| == WORD
        invariant memory == Copied(before, dst, src, i)
      {
        memory := memory[Address(dst, i) := memory[Address(src, i)]];
        i := i + 1;
      }
    }

    /** allocator_realloc. */
    method ReallocBlock(ptr: u32, request: u32) returns (r: u32)
      requires Valid()
      modifies this, registry
      ensures Valid()
      ensures Some(Snapshot()) == Step(heap, old(Snapshot()), ReallocCall(ptr, request))
      ensures var res := Realloc(heap, capacity, old(Live()), old(registry[size]), ptr, request);
              Live() == res.blocks && r == res.ptr && memory == Copied(old(memory), r, ptr, res.copied)
    {
      hide Step, Alloc, Free, Find, Overlap, Enclosed;
      ghost var was := Snapshot();
      var index := FindInRegistry(ptr);
      if index < 0 {
        ResizeOfUnknown(heap, was, ptr, request);
        r := AllocBlock(request);
        return;
      }
      var m := Block(ptr, request);
      if (index == size - 1 && Enclosed(heap, m)) || !Overlap(m, registry[index + 1]) {
        ResizeInPlace(heap, was, ptr, request);
        registry[index] := Block(registry[index].start, request);
        return m.start;
      }
      ResizeMoves(heap, was, ptr, request);
      r := AllocBlock(request);
      if r == 0 {
        return;
      }
      AllocFits(heap, capacity, was.Live(), request);
      assert Live()[index] == registry[index];
      MemCopy(r, ptr, Min(registry[index].size, request));
      var freed := FreeBlock(ptr);
    }
  }

  /** The registry's cells while a place is made: the first n - 1 blocks are where they were, those that
      start above the new one are one further up, and behind them nothing has changed. */
  predicate Shifted(cells: seq<Block>, was: seq<Block>, bs: seq<Block>, n: nat, tail: seq<Block>) {
    && |bs| + 1 < |was| == |cells| && 0 < n <= |bs| + 1 == n + |tail|
    && (forall k :: 0 <= k < n - 1 ==> cells[k] == bs[k])
    && (forall k :: n <= k <= |bs| ==> cells[k] == tail[k - n])
    && (forall k :: |bs| < k < |was| ==> cells[k] == was[k])
  }

  lemma NotShifted(was: seq<Block>, bs: seq<Block>)
    requires |bs| + 1 < |was| && bs == was[..|bs|]
    ensures Shifted(was, was, bs, |bs| + 1, [])
  {}

  lemma ShiftNext(cells: seq<Block>, was: seq<Block>, bs: seq<Block>, n: nat, tail: seq<Block>)
    requires Shifted(cells, was, bs, n + 1, tail)
    ensures |cells| == |was| > |bs| >= n
    ensures n > 0 ==> cells[n - 1] == bs[n - 1] && Shifted(cells[n := bs[n - 1]], was, bs, n, [bs[n - 1]] + tail)
  {}

  lemma ShiftDone(cells: seq<Block>, was: seq<Block>, bs: seq<Block>, n: nat, tail: seq<Block>, m: Block)
    requires Shifted(cells, was, bs, n + 1, tail)
    ensures |cells| == |was| > |bs| + 1 && |bs| >= n
    ensures cells[n := m][..|bs| + 1] == bs[..n] + [m] + tail
    ensures Registry(cells[n := m], |bs| + 1) == Registry(was, |bs|).With(bs[..n] + [m] + tail)
  {
    var live := bs[..n] + [m] + tail;
    assert cells[n := m][..|bs| + 1] == live;
    assert cells[n := m][|bs| + 1..] == was[|bs| + 1..];
    hide Shifted;
    assert cells[n := m] == live + was[|bs| + 1..];
  }

  /** The registry's cells while a gap is closed: those between the gap and position i have moved down. */
  function Closed(was: seq<Block>, index: nat, i: nat): (cells: seq<Block>)
    requires index <= i < |was|
    ensures |cells| == |was|
  {
    seq(|was|, k requires 0 <= k < |was| => if index <= k < i then was[k + 1] else was[k])
  }

  lemma NothingClosed(was: seq<Block>, index: nat)
    requires index < |was|
    ensures Closed(was, index, index) == was
  {}

  lemma ClosedNext(was: seq<Block>, index: nat, i: nat)
    requires index <= i && i + 1 < |was|
    ensures Closed(was, index, i)[i := Closed(was, index, i)[i + 1]] == Closed(was, index, i + 1)
  {}

  lemma AllClosed(r: Registry, index: nat)
    requires r.Valid() && index < r.size
    ensures Closed(r.cells, index, r.size - 1)[..r.size - 1] == Remove(r.Live(), index)
    ensures Registry(Closed(r.cells, index, r.size - 1), r.size - 1) == r.With(Remove(r.Live(), index))
  {
    var cells := Closed(r.cells, index, r.size - 1);
    assert cells[..r.size - 1] == Remove(r.Live(), index);
    hide Remove;
    assert cells[r.size - 1..] == r.cells[r.size - 1..];
    assert cells == cells[..r.size - 1] + cells[r.size - 1..];
  }

  /** Three requests of two bytes, two frees and a request of six: the cell behind the last block still
      holds the block below it. Resizing the last block to 200 then leaves the heap. */
  method EscapeFromEmpty(a: Allocator)
    requires a.Valid() && a.heap == Block(100, 100) && a.size == 0 && a.capacity >= 3
    modifies a, a.registry
    ensures a.Valid() && a.Live() == [Block(104, 2), Block(106, 200)] && !Orderly(a.heap, a.Live())
  {
    hide Alloc, Free, Orderly, Realloc, Step, Find;
    SixCalls(a.capacity);
    assert a.Live() == [];
    var p := a.AllocBlock(2);
    p := a.AllocBlock(2);
    p := a.AllocBlock(2);
    assert a.Live()[2] == a.registry[2];
    CellsBehind(a.heap, a.Snapshot(), FreeCall(100));
    var ok := a.FreeBlock(100);
    CellsBehind(a.heap, a.Snapshot(), FreeCall(102));
    ok := a.FreeBlock(102);
    CellsBehind(a.heap, a.Snapshot(), AllocCall(6));
    p := a.AllocBlock(6);
    StaleCellLetsEscape(a.capacity);
    p := a.ReallocBlock(106, 200);
  }
}

/** Runs of the heap allocator's calls, on the registry with all its cells: realloc reads the one behind the
    last block (allocator.c:158), so what calls leave there matters to later ones. */
module HeapRuns {
  import opened Words
  import opened Blocks
  import opened Resizing

  /** The registry's memory and the number of its live blocks; one cell behind the capacity belongs to it. */
  datatype Registry = Registry(cells: seq<Block>, size: nat) {
    predicate Valid() {
      size < |cells|
    }

    function Capacity(): nat
      requires Valid()
    {
      |cells| - 1
    }

    function Live(): seq<Block>
      requires Valid()
    {
      cells[..size]
    }

    function Stale(): Block
      requires Valid()
    {
      cells[size]
    }

    /** Other live blocks written from the front; the cells behind them keep what they hold. */
    function With(live: seq<Block>): (r: Registry)
      requires |live| < |cells|
      ensures r.Valid() && |r.cells| == |cells| && r.Live() == live
    {
      var r := Registry(live + cells[|live|..], |live|);
      assert r.cells[..|live|] == live;
      r
    }
  }

  datatype Call = AllocCall(size: u32) | FreeCall(ptr: u32) | ReallocCall(ptr: u32, size: u32)

  lemma AllocFits(heap: Block, capacity: nat, bs: seq<Block>, size: u32)
    requires |bs| <= capacity
    ensures |bs| <= |Alloc(heap, capacity, bs, size).0| <= capacity
  {}

  lemma ReallocFits(heap: Block, capacity: nat, bs: seq<Block>, stale: Block, ptr: u32, size: u32)
    requires |bs| <= capacity
    ensures |Realloc(heap, capacity, bs, stale, ptr, size).blocks| <= capacity
  {
    hide Alloc, Find, CanEnlarge;
    AllocFits(heap, capacity, bs, size);
  }

  /** One call; a free of an unknown address stops the kernel. A block that moves is first put in, then the
      old one is taken out, and the cell behind the last block then still holds that block. */
  function Step(heap: Block, r: Registry, call: Call): (next: Option<Registry>)
    requires r.Valid()
    ensures next.Some? ==> next.value.Valid() && next.value.Capacity() == r.Capacity()
  {
    match call
    case AllocCall(size) =>
      AllocFits(heap, r.Capacity(), r.Live(), size);
      Some(r.With(Alloc(heap, r.Capacity(), r.Live(), size).0))
    case FreeCall(ptr) =>
      var bs := Free(r.Live(), ptr);
      if bs.Some? then Some(r.With(bs.value)) else None
    case ReallocCall(ptr, size) =>
      AllocFits(heap, r.Capacity(), r.Live(), size);
      ReallocFits(heap, r.Capacity(), r.Live(), r.Stale(), ptr, size);
      var index, bs := Find(r.Live(), ptr), Realloc(heap, r.Capacity(), r.Live(), r.Stale(), ptr, size).blocks;
      if index >= 0 && CanEnlarge(heap, r.Live(), r.Stale(), index, Block(ptr, size)) then Some(r.With(bs))
      else Some(r.With(Alloc(heap, r.Capacity(), r.Live(), size).0).With(bs))
  }

  /** The live blocks after a call. */
  lemma StepIsCall(heap: Block, r: Registry, call: Call)
    requires r.Valid()
    ensures var next := Step(heap, r, call);
            match call
            case AllocCall(size) => next.Some? && next.value.Live() == Alloc(heap, r.Capacity(), r.Live(), size).0
            case FreeCall(ptr) => next.Some? == Free(r.Live(), ptr).Some?
                                  && (next.Some? ==> next.value.Live() == Free(r.Live(), ptr).value)
            case ReallocCall(ptr, size) => next.Some? && next.value.Live() ==
                                           Realloc(heap, r.Capacity(), r.Live(), r.Stale(), ptr, size).blocks
  {
    hide Alloc, Free, Find, CanEnlarge, Realloc, Registry.Live, Registry.With, Registry.Stale;
  }

  /** The cells behind the live blocks keep what they hold in an allocation or a free. */
  lemma CellsBehind(heap: Block, r: Registry, call: Call)
    requires r.Valid() && !call.ReallocCall?
    ensures var next := Step(heap, r, call).GetOr(r);
            |next.cells| == |r.cells| && forall k :: next.size <= k < |next.cells| ==> next.cells[k] == r.cells[k]
  {
    hide Alloc, Free;
    AllocFits(heap, r.Capacity(), r.Live(), if call.AllocCall? then call.size else 0);
  }

  lemma WithSame(r: Registry)
    requires r.Valid()
    ensures r.With(r.Live()) == r
  {}

  /** An unknown address makes a resize an allocation. */
  lemma ResizeOfUnknown(heap: Block, r: Registry, ptr: u32, size: u32)
    requires r.Valid() && Find(r.Live(), ptr) < 0
    ensures Step(heap, r, ReallocCall(ptr, size)) == Step(heap, r, AllocCall(size))
  {
    hide Alloc, Find;
    AllocFits(heap, r.Capacity(), r.Live(), size);
    WithSame(r.With(Alloc(heap, r.Capacity(), r.Live(), size).0));
    hide Registry.With;
  }

  /** A block resized in place has its cell written and nothing else. */
  lemma ResizeInPlace(heap: Block, r: Registry, ptr: u32, size: u32)
    requires r.Valid()
    requires var index := Find(r.Live(), ptr);
             index >= 0 && CanEnlarge(heap, r.Live(), r.Stale(), index, Block(ptr, size))
    ensures var index := Find(r.Live(), ptr);
            Step(heap, r, ReallocCall(ptr, size)) == Some(Registry(r.cells[index := Block(ptr, size)], r.size))
  {
    hide Alloc, Find, CanEnlarge;
    var index := Find(r.Live(), ptr);
    ReplacedWith(r, index, Block(ptr, size));
    hide Registry.With;
  }

  lemma ReplacedWith(r: Registry, index: nat, b: Block)
    requires r.Valid() && index < r.size
    ensures r.With(r.Live()[index := b]) == Registry(r.cells[index := b], r.size)
  {}

  /** Any other resize is an allocation and, if that is granted, a free of the old address. */
  lemma ResizeMoves(heap: Block, r: Registry, ptr: u32, size: u32)
    requires r.Valid()
    requires var index := Find(r.Live(), ptr);
             index >= 0 && !CanEnlarge(heap, r.Live(), r.Stale(), index, Block(ptr, size))
    ensures var got := Step(heap, r, AllocCall(size));
            && got.Some?
            && Step(heap, r, ReallocCall(ptr, size)) ==
               if Alloc(heap, r.Capacity(), r.Live(), size).1 == 0 then got
               else Some(Step(heap, got.value, FreeCall(ptr)).GetOr(got.value))
  {
    hide Alloc, Find, CanEnlarge, Free;
    AllocFits(heap, r.Capacity(), r.Live(), size);
    WithSame(r.With(Alloc(heap, r.Capacity(), r.Live(), size).0));
    hide Registry.With;
  }

  function Run(heap: Block, r: Registry, calls: seq<Call>): (last: Option<Registry>)
    requires r.Valid()
    ensures last.Some? ==> last.value.Valid() && last.value.Capacity() == r.Capacity()
    decreases |calls|
  {
    if calls == [] then Some(r)
    else
      var next := Step(heap, r, calls[0]);
      if next.None? then None else Run(heap, next.value, calls[1..])
  }

  /** The registry is orderly before, between and after the calls. */
  ghost predicate AlwaysOrderly(heap: Block, r: Registry, calls: seq<Call>)
    requires r.Valid()
  {
    forall n :: 0 <= n <= |calls| ==>
      var last := Run(heap, r, calls[..n]); last.Some? ==> Orderly(heap, last.value.Live())
  }

  lemma RunOfMore(heap: Block, r: Registry, calls: seq<Call>, n: nat)
    requires r.Valid() && 0 < n <= |calls|
    ensures var next := Step(heap, r, calls[0]);
            Run(heap, r, calls[..n]) == if next.None? then None else Run(heap, next.value, calls[1..][..n - 1])
  {
    hide Step;
    assert calls[..n][1..] == calls[1..][..n - 1];
  }

  /** AlwaysOrderly, call by call. */
  lemma OrderlyStepwise(heap: Block, r: Registry, calls: seq<Call>)
    requires r.Valid() && calls != []
    ensures var next := Step(heap, r, calls[0]);
            AlwaysOrderly(heap, r, calls) <==>
            Orderly(heap, r.Live()) && (next.Some? ==> AlwaysOrderly(heap, next.value, calls[1..]))
  {
    hide Step, Orderly, Registry.Live;
    var next := Step(heap, r, calls[0]);
    assert Run(heap, r, calls[..0]) == Some(r);
    forall n | 0 < n <= |calls|
      ensures Run(heap, r, calls[..n]) == if next.None? then None else Run(heap, next.value, calls[1..][..n - 1])
    {
      RunOfMore(heap, r, calls, n);
    }
    hide Run;
    if next.Some? && AlwaysOrderly(heap, r, calls) {
      forall n | 0 <= n <= |calls[1..]|
        ensures var last := Run(heap, next.value, calls[1..][..n]); last.Some? ==> Orderly(heap, last.value.Live())
      {
        assert calls[1..][..n + 1 - 1] == calls[1..][..n];
        assert Run(heap, r, calls[..n + 1]) == Run(heap, next.value, calls[1..][..n]);
      }
    }
  }

  lemma OrderlyAtRest(heap: Block, r: Registry)
    requires r.Valid()
    ensures AlwaysOrderly(heap, r, []) <==> Orderly(heap, r.Live())
  {
    hide Orderly, Registry.Live;
    var none: seq<Call> := [];
    assert none[..0] == none && Run(heap, r, none) == Some(r);
  }

  /** The condition for one call, read off the registry before it. */
  predicate StepKeeps(heap: Block, r: Registry, call: Call)
    requires r.Valid()
  {
    match call
    case AllocCall(size) => Grants(heap, r.Capacity(), r.Live(), size) ==> Settles(heap, r.Live(), size)
    case FreeCall(ptr) => true
    case ReallocCall(ptr, size) => ReallocKeeps(heap, r.Capacity(), r.Live(), r.Stale(), ptr, size)
  }

  predicate EveryStepKeeps(heap: Block, r: Registry, calls: seq<Call>)
    requires r.Valid()
    decreases |calls|
  {
    calls == [] ||
    (StepKeeps(heap, r, calls[0]) &&
     (var next := Step(heap, r, calls[0]); next.Some? ==> EveryStepKeeps(heap, next.value, calls[1..])))
  }

  lemma StepKeepsExactly(heap: Block, r: Registry, call: Call)
    requires HeapOk(heap) && r.Valid() && Orderly(heap, r.Live())
    ensures var next := Step(heap, r, call);
            next.Some? ==> (Orderly(heap, next.value.Live()) <==> StepKeeps(heap, r, call))
    ensures Step(heap, r, call).None? ==> StepKeeps(heap, r, call)
  {
    hide Orderly, Step, Grants, Settles, ReallocKeeps, Alloc, Realloc, Registry.Live, Registry.Stale;
    StepIsCall(heap, r, call);
    match call
    case AllocCall(size) =>
      AllocGrantsExactly(heap, r.Capacity(), r.Live(), size);
      if Grants(heap, r.Capacity(), r.Live(), size) {
        AllocKeepsExactly(heap, r.Capacity(), r.Live(), size);
      }
    case FreeCall(ptr) =>
      if Free(r.Live(), ptr).Some? {
        RemoveOrderly(heap, r.Live(), Find(r.Live(), ptr));
      }
    case ReallocCall(ptr, size) =>
      ReallocKeepsExactly(heap, r.Capacity(), r.Live(), r.Stale(), ptr, size);
  }

  /** Over every run of allocations, frees and resizes of any size, an orderly registry stays so if and only
      if each call meets the condition that can be read off the registry before it. */
  lemma {:induction false} RunKeepsExactly(heap: Block, r: Registry, calls: seq<Call>)
    requires HeapOk(heap) && r.Valid() && Orderly(heap, r.Live())
    ensures AlwaysOrderly(heap, r, calls) <==> EveryStepKeeps(heap, r, calls)
    decreases |calls|
  {
    hide Orderly, Step, StepKeeps, AlwaysOrderly, Registry.Live;
    if calls == [] {
      OrderlyAtRest(heap, r);
    } else {
      OrderlyStepwise(heap, r, calls);
      StepKeepsExactly(heap, r, calls[0]);
      var next := Step(heap, r, calls[0]);
      if next.Some? {
        if StepKeeps(heap, r, calls[0]) {
          RunKeepsExactly(heap, next.value, calls[1..]);
        } else {
          StaysDisorderly(heap, next.value, calls[1..]);
        }
      }
    }
  }

  lemma StaysDisorderly(heap: Block, r: Registry, calls: seq<Call>)
    requires r.Valid() && !Orderly(heap, r.Live())
    ensures !AlwaysOrderly(heap, r, calls)
  {
    hide Orderly, Step, Registry.Live;
    assert calls[..0] == [] && Run(heap, r, calls[..0]) == Some(r);
  }

  // Sizes that are multiples of g.

  /** Every size is a multiple of g and small enough not to run past the last address, and nothing is
      resized to zero. */
  predicate SizesOn(g: nat, heap: Block, calls: seq<Call>)
    requires g > 0
  {
    forall i :: 0 <= i < |calls| ==> SizeOn(g, heap, calls[i])
  }

  predicate SizeOn(g: nat, heap: Block, call: Call)
    requires g > 0
  {
    match call
    case AllocCall(size) => Divides(g, size) && NoWrap(heap, size)
    case FreeCall(ptr) => true
    case ReallocCall(ptr, size) => size > 0 && Divides(g, size) && NoWrap(heap, size)
  }

  predicate StepEscapes(heap: Block, r: Registry, call: Call)
    requires r.Valid()
  {
    call.ReallocCall? && Escapes(heap, r.Live(), r.Stale(), call.ptr, call.size)
  }

  /** No resize in the run takes the last block out of the heap. */
  predicate NoEscape(heap: Block, r: Registry, calls: seq<Call>)
    requires r.Valid()
    decreases |calls|
  {
    calls == [] ||
    (!StepEscapes(heap, r, calls[0]) &&
     (var next := Step(heap, r, calls[0]); next.Some? ==> NoEscape(heap, next.value, calls[1..])))
  }

  lemma StepOnGrid(g: nat, heap: Block, r: Registry, call: Call)
    requires g >= 2 && HeapOk(heap) && r.Valid() && Orderly(heap, r.Live()) && OnGrid(g, heap, r.Live())
    requires SizeOn(g, heap, call)
    ensures var next := Step(heap, r, call);
            next.Some? ==> && OnGrid(g, heap, next.value.Live())
                           && (Orderly(heap, next.value.Live()) <==> !StepEscapes(heap, r, call))
    ensures Step(heap, r, call).None? ==> !StepEscapes(heap, r, call)
  {
    hide Orderly, OnGrid, Step, Divides, NoWrap, Escapes, Alloc, Realloc, Free;
    StepIsCall(heap, r, call);
    match call
    case AllocCall(size) => AllocOnGrid(g, heap, r.Capacity(), r.Live(), size);
    case FreeCall(ptr) =>
      if Free(r.Live(), ptr).Some? {
        FreeKeeps(g, heap, r.Live(), ptr);
      }
    case ReallocCall(ptr, size) => ReallocOnGrid(g, heap, r.Capacity(), r.Live(), r.Stale(), ptr, size);
  }

  /** Over every run whose sizes are small multiples of some g of at least two, the registry stays sorted,
      disjoint and inside the heap if and only if no resize escapes, and then it also stays on the grid. */
  lemma {:induction false} RunKeepsOrder(g: nat, heap: Block, r: Registry, calls: seq<Call>)
    requires g >= 2 && HeapOk(heap) && r.Valid() && Orderly(heap, r.Live()) && OnGrid(g, heap, r.Live())
    requires SizesOn(g, heap, calls)
    ensures AlwaysOrderly(heap, r, calls) <==> NoEscape(heap, r, calls)
    ensures var last := Run(heap, r, calls);
            NoEscape(heap, r, calls) && last.Some? ==> OnGrid(g, heap, last.value.Live())
    decreases |calls|
  {
    hide Orderly, OnGrid, Step, SizeOn, AlwaysOrderly, StepEscapes, Registry.Live;
    if calls == [] {
      OrderlyAtRest(heap, r);
    } else {
      OrderlyStepwise(heap, r, calls);
      StepOnGrid(g, heap, r, calls[0]);
      var next := Step(heap, r, calls[0]);
      if next.Some? {
        if !StepEscapes(heap, r, calls[0]) {
          RunKeepsOrder(g, heap, next.value, calls[1..]);
        } else {
          StaysDisorderly(heap, next.value, calls[1..]);
        }
      }
    }
  }

  /** The bound on g is exact: with sizes free to be any small multiple of g, every run without an escape
      keeps the registry orderly if and only if g is at least two. One-byte requests are all given the same
      byte. */
  lemma GridBoundExact(g: nat, heap: Block, r: Registry)
    requires g > 0 && HeapOk(heap) && r.Valid() && r.size == 0 && r.Capacity() >= 2
    ensures (forall calls :: SizesOn(g, heap, calls) && NoEscape(heap, r, calls) ==> AlwaysOrderly(heap, r, calls))
       <==> g >= 2
  {
    hide AlwaysOrderly, NoEscape, SizesOn;
    if g >= 2 {
      forall calls | SizesOn(g, heap, calls) && NoEscape(heap, r, calls)
        ensures AlwaysOrderly(heap, r, calls)
      {
        RunKeepsOrder(g, heap, r, calls);
      }
    } else {
      TwoOneByteBlocks(heap, r);
    }
  }

  lemma TwoOneByteBlocks(heap: Block, r: Registry)
    requires HeapOk(heap) && r.Valid() && r.size == 0 && r.Capacity() >= 2
    ensures var calls := [AllocCall(1), AllocCall(1)];
            && SizesOn(1, heap, calls) && NoEscape(heap, r, calls) && Run(heap, r, calls).Some?
            && Run(heap, r, calls).value.Live() == [Block(heap.start, 1), Block(heap.start, 1)]
            && !AlwaysOrderly(heap, r, calls)
  {
    assert r.Live() == [];
    hide Alloc, Registry.Live;
    var b, calls := Block(heap.start, 1), [AllocCall(1), AllocCall(1)];
    StepIsCall(heap, r, calls[0]);
    TakesOneByte(heap, r.Capacity());
    var next := Step(heap, r, calls[0]).value;
    StepIsCall(heap, next, calls[0]);
    hide Step;
    var last := Step(heap, next, calls[0]).value;
    assert calls[1..] == [AllocCall(1)] && calls[1..][1..] == [];
    assert Run(heap, next, calls[1..]) == Some(last) && NoEscape(heap, next, calls[1..]);
    assert [b, b][0].start + [b, b][0].size > [b, b][1].start;
    assert calls[..2] == calls;
  }
}

/** The FAT as an array of words: allocation, free-space bookkeeping and cluster chains of
    src/fs/fat32/table.c, and the chain growth of src/fs/fat32/file.c. */
module FatArray {
  import opened Words

  const READ_ERROR: u32 := 0xFFFF_FFFF
  const CLUSTER_ALLOC_ERR: u32 := 1
  const EOC1: u32 := 0x0FFF_FFF8
  const EOC2: u32 := 0x0FFF_FFFF

  type Fat = seq<u32>

  /** The byte offset of an entry is a 32-bit product, so cluster numbers act modulo 2^30. */
  function Slot(cluster: u32): nat {
    cluster % 0x4000_0000
  }

  function Get(fat: Fat, cluster: u32): u32 {
    if Slot(cluster) < |fat| then fat[Slot(cluster)] else READ_ERROR
  }

  function Put(fat: Fat, cluster: u32, content: u32): (r: Fat)
    ensures |r| == |fat|
  {
    if Slot(cluster) < |fat| then fat[Slot(cluster) := content] else fat
  }

  lemma GetAfterPut(fat: Fat, c: u32, content: u32, d: u32)
    requires c < 0x4000_0000 && d < 0x4000_0000
    ensures Get(Put(fat, c, content), d) == if c == d && c < |fat| then content else Get(fat, d)
  {}

  predicate EndOfChain(entry: u32) {
    entry == EOC1 || entry == EOC2
  }

  // Free space.

  /** The free clusters of [from, to), in increasing order. */
  function FreeList(fat: Fat, from: u32, to: u32): (r: seq<u32>)
    decreases if from < to then to - from else 0
  {
    if from >= to then []
    else if Get(fat, from) == 0 then [from] + FreeList(fat, from + 1, to)
    else FreeList(fat, from + 1, to)
  }

  /** The list holds exactly the zero entries of the range, each once and in order. */
  lemma {:induction false} FreeListExact(fat: Fat, from: u32, to: u32)
    ensures forall c: u32 :: c in FreeList(fat, from, to) <==> from <= c < to && Get(fat, c) == 0
    ensures forall i, j :: 0 <= i < j < |FreeList(fat, from, to)| ==>
            FreeList(fat, from, to)[i] < FreeList(fat, from, to)[j]
    ensures forall c: u32 :: c in FreeList(fat, from, to) ==> FreeList(fat, from, to)[0] <= c
    ensures |FreeList(fat, from, to)| <= if from < to then to - from else 0
    decreases if from < to then to - from else 0
  {
    if from < to {
      FreeListExact(fat, from + 1, to);
      var l, rest := FreeList(fat, from, to), FreeList(fat, from + 1, to);
      if Get(fat, from) == 0 {
        forall i, j | 0 <= i < j < |l|
          ensures l[i] < l[j]
        {
          assert l[j] == rest[j - 1] && rest[j - 1] in rest;
        }
      }
    }
  }

  /** Skipping a stretch without free clusters does not change the list. */
  lemma {:induction false} FreeListFrom(fat: Fat, from: u32, mid: u32, to: u32)
    requires from <= mid
    requires forall c: u32 :: from <= c < mid && c < to ==> Get(fat, c) != 0
    ensures FreeList(fat, from, to) == FreeList(fat, mid, to)
    decreases if from < mid then mid - from else 0
  {
    if from < mid && from < to {
      FreeListFrom(fat, from + 1, mid, to);
    }
  }

  /** The list depends on the entries of the range only. */
  lemma {:induction false} FreeListSame(fat: Fat, fat': Fat, from: u32, to: u32)
    requires forall c: u32 :: from <= c < to ==> (Get(fat, c) == 0 <==> Get(fat', c) == 0)
    ensures FreeList(fat, from, to) == FreeList(fat', from, to)
    decreases if from < to then to - from else 0
  {
    if from < to {
      FreeListSame(fat, fat', from + 1, to);
    }
  }

  /** Taking the least free cluster leaves the others. */
  lemma TakeFirst(fat: Fat, from: u32, to: u32, content: u32)
    requires to <= 0x0FFF_FFF7 && content != 0 && FreeList(fat, from, to) != []
    ensures var r, fat' := FreeList(fat, from, to)[0], Put(fat, FreeList(fat, from, to)[0], content);
            && from <= r < to && Get(fat, r) == 0 && Get(fat', r) == content
            && (forall c: u32 :: from <= c < r ==> Get(fat, c) != 0)
            && FreeList(fat', from, to) == FreeList(fat, from, to)[1..]
            && FreeList(fat', r, to) == FreeList(fat, from, to)[1..]
  {
    var l := FreeList(fat, from, to);
    var r := l[0];
    var fat' := Put(fat, r, content);
    FreeListExact(fat, from, to);
    assert r in l;
    FreeListFrom(fat, from, r, to);
    assert FreeList(fat, r, to) == [r] + FreeList(fat, r + 1, to);
    forall c: u32 | from <= c < to
      ensures Get(fat', c) == if c == r then content else Get(fat, c)
    {
      GetAfterPut(fat, r, content, c);
    }
    FreeListSame(fat, fat', r + 1, to);
    assert FreeList(fat', r, to) == FreeList(fat', r + 1, to);
    FreeListFrom(fat', from, r, to);
  }

  /** fs->info: the count and the search hint kept in memory. */
  datatype Info = Info(freeCount: u32, hint: u32)

  /** fat_table_alloc_cluster: the first free cluster at or above the hint, unless the
      count says there is none. */
  function Alloc(fat: Fat, info: Info, clusters: u32, content: u32): (Fat, Info, u32) {
    var free := FreeList(fat, info.hint, clusters);
    if info.freeCount == 0 || free == [] then (fat, info, CLUSTER_ALLOC_ERR)
    else (Put(fat, free[0], content), Info(info.freeCount - 1, free[0]), free[0])
  }

  /** No cluster between the root and the hint is free. */
  predicate HintTight(fat: Fat, info: Info, root: u32, clusters: u32) {
    root <= info.hint && forall c: u32 :: root <= c < info.hint && c < clusters ==> Get(fat, c) != 0
  }

  /** What `runs` of the allocator keep: a tight hint and a count that is the number of free
      clusters plus a fixed excess. */
  ghost predicate Accounted(fat: Fat, info: Info, root: u32, clusters: u32, excess: nat) {
    && 2 <= root && clusters <= 0x0FFF_FFF7
    && HintTight(fat, info, root, clusters)
    && info.freeCount == |FreeList(fat, root, clusters)| + excess
  }

  /** One allocation: the least free cluster of the volume, or the error exactly when
      none is free; the bookkeeping stays exact. */
  lemma AllocTakesLeast(fat: Fat, info: Info, root: u32, clusters: u32, content: u32, excess: nat)
    requires Accounted(fat, info, root, clusters, excess) && content != 0
    ensures var (fat', info', r) := Alloc(fat, info, clusters, content);
            var free := FreeList(fat, root, clusters);
            && Accounted(fat', info', root, clusters, excess)
            && (r == CLUSTER_ALLOC_ERR <==> free == [])
            && (free == [] ==> fat' == fat && info' == info)
            && (free != [] ==>
                 && r == free[0] && fat' == Put(fat, r, content)
                 && FreeList(fat', root, clusters) == free[1..])
  {
    FreeListFrom(fat, root, info.hint, clusters);
    var free := FreeList(fat, root, clusters);
    FreeListExact(fat, root, clusters);
    if free != [] {
      assert free[0] in free;
      TakeFirst(fat, root, clusters, content);
      forall c: u32 | root <= c < free[0]
        ensures Get(Put(fat, free[0], content), c) != 0
      {
        GetAfterPut(fat, free[0], content, c);
      }
    }
  }

  /** A sequence of allocations, and what each returned. */
  function AllocRun(fat: Fat, info: Info, clusters: u32, contents: seq<u32>): (Fat, Info, seq<u32>)
    decreases |contents|
  {
    if contents == [] then (fat, info, [])
    else
      var (fat', info', r) := Alloc(fat, info, clusters, contents[0]);
      var (end, last, rest) := AllocRun(fat', info', clusters, contents[1..]);
      (end, last, [r] + rest)
  }

  /** The count follows the list, one for each cluster taken. */
  lemma CountFollows(fat: Fat, info: Info, root: u32, clusters: u32, content: u32, excess: nat)
    requires Accounted(fat, info, root, clusters, excess) && content != 0
    ensures var free := FreeList(fat, root, clusters);
            Alloc(fat, info, clusters, content).1.freeCount == info.freeCount - if free == [] then 0 else 1
  {
    AllocTakesLeast(fat, info, root, clusters, content, excess);
    hide FreeList, HintTight;
  }

  lemma TakenIsMarked(fat: Fat, root: u32, clusters: u32, content: u32)
    requires clusters <= 0x0FFF_FFF7 && content != 0 && FreeList(fat, root, clusters) != []
    ensures var r := FreeList(fat, root, clusters)[0];
            root <= r < clusters && Get(Put(fat, r, content), r) == content
  {
    TakeFirst(fat, root, clusters, content);
  }

  /** Over every run: the free clusters are handed out in increasing order, each once, then only
      errors; what is left of them and the count agree with what was handed out. */
  lemma {:induction false} AllocRunHandsOutInOrder(
    fat: Fat, info: Info, root: u32, clusters: u32, contents: seq<u32>, excess: nat)
    requires Accounted(fat, info, root, clusters, excess) && forall i :: 0 <= i < |contents| ==> contents[i] != 0
    ensures var (fat', info', out) := AllocRun(fat, info, clusters, contents);
            var free := FreeList(fat, root, clusters);
            var k := Min(|free|, |contents|);
            && Accounted(fat', info', root, clusters, excess)
            && |out| == |contents| && out[..k] == free[..k]
            && (forall i :: k <= i < |out| ==> out[i] == CLUSTER_ALLOC_ERR)
            && FreeList(fat', root, clusters) == free[k..]
            && info'.freeCount == info.freeCount - k
            && (forall i :: 0 <= i < k ==> Get(fat', free[i]) == contents[i])
    decreases |contents|
  {
    hide Accounted, FreeList, Get, Put;
    if contents != [] {
      var (fat', info', r) := Alloc(fat, info, clusters, contents[0]);
      var free := FreeList(fat, root, clusters);
      AllocTakesLeast(fat, info, root, clusters, contents[0], excess);
      CountFollows(fat, info, root, clusters, contents[0], excess);
      hide Alloc;
      AllocRunHandsOutInOrder(fat', info', root, clusters, contents[1..], excess);
      var (end, last, rest) := AllocRun(fat', info', clusters, contents[1..]);
      var k := Min(|free|, |contents|);
      if free != [] {
        PrefixCons(free, k);
        TakenIsMarked(fat, root, clusters, contents[0]);
        TakenKeeps(fat', info', root, clusters, contents[1..], r, excess);
        forall i | 0 <= i < k
          ensures Get(end, free[i]) == contents[i]
        {
          if i == 0 {
            assert free[0] == r;
          } else {
            assert free[i] == free[1..][i - 1];
          }
        }
      }
    }
  }

  /** A run never touches a cluster that is in use. */
  lemma {:induction false} TakenKeeps(
    fat: Fat, info: Info, root: u32, clusters: u32, contents: seq<u32>, c: u32, excess: nat)
    requires Accounted(fat, info, root, clusters, excess) && forall i :: 0 <= i < |contents| ==> contents[i] != 0
    requires c < 0x0FFF_FFF7 && Get(fat, c) != 0
    ensures Get(AllocRun(fat, info, clusters, contents).0, c) == Get(fat, c)
    decreases |contents|
  {
    if contents != [] {
      AllocTakesLeast(fat, info, root, clusters, contents[0], excess);
      FreeListExact(fat, root, clusters);
      var (fat', info', r) := Alloc(fat, info, clusters, contents[0]);
      var free := FreeList(fat, root, clusters);
      if free != [] {
        assert free[0] in free;
      }
      TakenKeeps(fat', info', root, clusters, contents[1..], c, excess);
    }
  }

  // Mounting without FSInfo counts, creating and deleting.

  /** free_cluster_count_read starts counting at the root cluster's number (table.c:61), so the
      count it gives is exact only for a root cluster numbered zero. */
  function CountedFree(fat: Fat, root: u32, clusters: u32): u32
    requires root < 0x0FFF_FFF7 && clusters < 0x0FFF_FFF7
  {
    FreeListExact(fat, root, clusters);
    root + |FreeList(fat, root, clusters)|
  }

  /** first_free_cluster_read: the scan runs one cluster past the last (table.c:74). */
  function RootScan(fat: Fat, root: u32, clusters: u32): u32
    requires root < 0x0FFF_FFF7 && clusters < 0x0FFF_FFF7
  {
    var end := if root <= clusters then clusters + 1 else root + 1;
    var free := FreeList(fat, root, end);
    if free == [] then end else free[0]
  }

  lemma {:induction false} FreeListAppend(fat: Fat, from: u32, mid: u32, to: u32)
    requires from <= mid <= to
    ensures FreeList(fat, from, to) == FreeList(fat, from, mid) + FreeList(fat, mid, to)
    decreases if from < mid then mid - from else 0
  {
    if from < mid {
      FreeListAppend(fat, from + 1, mid, to);
    }
  }

  /** Mounting a volume whose FSInfo sector knows neither number gives a tight hint, and a count
      with the root cluster's number as its excess: never exact for a root numbered from two. */
  lemma MountedAccount(fat: Fat, root: u32, clusters: u32)
    requires 2 <= root <= clusters < 0x0FFF_FFF7
    ensures Accounted(fat, Info(CountedFree(fat, root, clusters), RootScan(fat, root, clusters)), root, clusters, root)
  {
    FreeListExact(fat, root, clusters);
    FreeListExact(fat, root, clusters + 1);
    var free := FreeList(fat, root, clusters + 1);
    var hint := RootScan(fat, root, clusters);
    forall c: u32 | root <= c < hint && c < clusters
      ensures Get(fat, c) != 0
    {
      assert c in free <==> Get(fat, c) == 0;
    }
    if free != [] {
      assert free[0] in free;
    }
  }

  /** file_create names the cluster found by the root scan in the new entry, then marks the one
      found by the hint scan and ignores which it was (file.c:194-211). The two are the same
      cluster exactly when the count is not exhausted, the root scan stays on the volume, and
      neither scan sees a free cluster the other starts above. */
  lemma CreateNamesMarkedExactly(fat: Fat, info: Info, root: u32, clusters: u32)
    requires 2 <= root < 0x0FFF_FFF7 && clusters < 0x0FFF_FFF7 && 2 <= info.hint
    ensures var (fat', info', marked) := Alloc(fat, info, clusters, EOC1);
            var named := RootScan(fat, root, clusters);
            (marked == named && Get(fat, named) == 0 && Get(fat', named) == EOC1)
            <==> info.freeCount != 0 && info.hint <= named < clusters && FreeList(fat, info.hint, root) == []
  {
    var (fat', info', marked) := Alloc(fat, info, clusters, EOC1);
    var named := RootScan(fat, root, clusters);
    var end := if root <= clusters then clusters + 1 else root + 1;
    FreeListExact(fat, root, end);
    FreeListExact(fat, info.hint, clusters);
    FreeListExact(fat, info.hint, root);
    var rootFree, hintFree := FreeList(fat, root, end), FreeList(fat, info.hint, clusters);
    var between := FreeList(fat, info.hint, root);
    assert rootFree != [] ==> rootFree[0] in rootFree;
    assert hintFree != [] ==> hintFree[0] in hintFree;
    assert between != [] ==> between[0] in between && (between[0] in hintFree <==> between[0] < clusters);
    if info.freeCount != 0 && info.hint <= named < clusters && between == [] {
      assert rootFree != [];
      assert named in hintFree;
      TakeFirst(fat, info.hint, clusters, EOC1);
      assert marked !in between;
      assert marked in rootFree;
    } else if info.freeCount != 0 && hintFree != [] && marked == named {
      assert false;
    }
  }

  /** While the account is kept, every creation that finds a free cluster names the marked one. */
  lemma CreateNamesMarked(fat: Fat, info: Info, root: u32, clusters: u32, excess: nat)
    requires Accounted(fat, info, root, clusters, excess) && clusters < 0x0FFF_FFF7
    requires FreeList(fat, root, clusters) != []
    ensures root < clusters
    ensures RootScan(fat, root, clusters) == Alloc(fat, info, clusters, EOC1).2 == FreeList(fat, root, clusters)[0]
    ensures Get(Alloc(fat, info, clusters, EOC1).0, FreeList(fat, root, clusters)[0]) == EOC1
  {
    TakeFirst(fat, root, clusters, EOC1);
    FreeListExact(fat, root, clusters);
    FreeListFrom(fat, root, info.hint, clusters);
    FreeListAppend(fat, root, clusters, clusters + 1);
  }

  /** The two halves of the cluster number in an entry (file.c:166-167, fat.h:51) rebuild it. */
  function LowWord(cluster: u32): u32 { cluster % 0x1_0000 }

  function HighWord(cluster: u32): u32 { cluster / 0x1_0000 % 0x1_0000 }

  lemma EntryNamesCluster(cluster: u32)
    ensures Wrap(LowWord(cluster) + Wrap(HighWord(cluster) * 0x1_0000)) == cluster
  {}

  /** file_delete frees the cluster without telling the count or the hint (file.c:246). After
      deleting below the hint the next file_create names a cluster that it does not mark. */
  lemma DeletionMisleadsCreate(fat: Fat, info: Info, root: u32, clusters: u32, deleted: u32)
    requires 2 <= root < 0x0FFF_FFF7 && clusters < 0x0FFF_FFF7 && root <= deleted < info.hint
    requires Slot(deleted) < |fat| && deleted <= clusters
    ensures var freed := Put(fat, deleted, 0);
            var named := RootScan(freed, root, clusters);
            var (fat', info', marked) := Alloc(freed, info, clusters, EOC1);
            named <= deleted && marked != named && Get(fat', named) == 0
  {
    hide FreeList;
    var freed := Put(fat, deleted, 0);
    var named := RootScan(freed, root, clusters);
    var (fat', info', marked) := Alloc(freed, info, clusters, EOC1);
    FreeListExact(freed, root, clusters + 1);
    FreeListExact(freed, info.hint, clusters);
    var free := FreeList(freed, root, clusters + 1);
    assert deleted in free && free[0] in free;
    var hintFree := FreeList(freed, info.hint, clusters);
    if info.freeCount != 0 && hintFree != [] {
      assert hintFree[0] in hintFree;
    }
  }

  /** And the account is lost: the count is one short of what it was for, and the hint stays
      tight exactly when the deleted cluster is not below it. */
  lemma {:induction false} DeletionBreaksAccount(fat: Fat, info: Info, root: u32, clusters: u32, deleted: u32)
    requires 2 <= root <= deleted < clusters <= 0x0FFF_FFF7 && Slot(deleted) < |fat| && Get(fat, deleted) != 0
    requires HintTight(fat, info, root, clusters)
    ensures |FreeList(Put(fat, deleted, 0), root, clusters)| == |FreeList(fat, root, clusters)| + 1
    ensures HintTight(Put(fat, deleted, 0), info, root, clusters) <==> info.hint <= deleted
  {
    var freed := Put(fat, deleted, 0);
    forall c: u32 | root <= c < clusters
      ensures Get(freed, c) == if c == deleted then 0 else Get(fat, c)
    {
      GetAfterPut(fat, deleted, 0, c);
    }
    OneMoreFree(fat, freed, root, clusters, deleted);
    hide FreeList, Put, Get;
    assert info.hint > deleted ==> Get(freed, deleted) == 0;
  }

  lemma OneMoreFree(fat: Fat, freed: Fat, root: u32, clusters: u32, deleted: u32)
    requires root <= deleted < clusters <= 0x0FFF_FFF7 && Get(fat, deleted) != 0
    requires forall c: u32 :: root <= c < clusters ==> Get(freed, c) == if c == deleted then 0 else Get(fat, c)
    ensures |FreeList(freed, root, clusters)| == |FreeList(fat, root, clusters)| + 1
  {
    FreeListAppend(fat, root, deleted, clusters);
    FreeListAppend(freed, root, deleted, clusters);
    FreeListSame(fat, freed, root, deleted);
    FreeListSame(fat, freed, deleted + 1, clusters);
    hide Get;
  }

  // Chains.

  /** A sequence of clusters linked in order and ended by a mark. */
  predicate IsChain(fat: Fat, path: seq<u32>) {
    && |path| > 0
    && (forall i :: 0 <= i < |path| ==> path[i] < EOC1)
    && (forall i :: 0 <= i < |path| - 1 ==> Get(fat, path[i]) == path[i + 1])
    && EndOfChain(Get(fat, path[|path| - 1]))
  }

  /** cluster_chain_read: at most index links are followed, on any table at all. */
  function ChainRead(fat: Fat, curr: u32, index: u32): u32
    decreases index
  {
    var next := Get(fat, curr);
    if index != 0 && !EndOfChain(next) then ChainRead(fat, next, index - 1) else curr
  }

  /** On a chain it gives the element with that index, or the last one. */
  lemma {:induction false} ChainReadIsElement(fat: Fat, path: seq<u32>, index: u32)
    requires IsChain(fat, path)
    ensures ChainRead(fat, path[0], index) == path[Min(index, |path| - 1)]
    decreases index
  {
    if index != 0 && |path| > 1 {
      assert Get(fat, path[0]) == path[1];
      ChainReadIsElement(fat, path[1..], index - 1);
    }
  }

  /** On any table at all: links are followed, whatever they lead to, up to the index or up to an end mark. */
  lemma {:induction false} ChainReadFollows(fat: Fat, path: seq<u32>, index: u32)
    requires path != [] && |path| - 1 <= index
    requires forall i :: 0 <= i < |path| - 1 ==> Get(fat, path[i]) == path[i + 1]
    requires forall i :: 0 < i < |path| ==> !EndOfChain(path[i])
    requires |path| - 1 == index || EndOfChain(Get(fat, path[|path| - 1]))
    ensures ChainRead(fat, path[0], index) == path[|path| - 1]
    decreases |path|
  {
    hide Get, EndOfChain;
    if |path| > 1 {
      assert Get(fat, path[0]) == path[1];
      ChainReadFollows(fat, path[1..], index - 1);
    }
  }

  /** A chain is determined by its first cluster, so it has no repeated cluster. */
  lemma {:induction false} ChainIsAcyclic(fat: Fat, path: seq<u32>, i: nat, j: nat)
    requires IsChain(fat, path) && i < j < |path|
    ensures path[i] != path[j]
    decreases |path| - j
  {
    if j == |path| - 1 {
      assert Get(fat, path[i]) == path[i + 1];
    } else if path[i] == path[j] {
      assert Get(fat, path[i]) == path[i + 1] && Get(fat, path[j]) == path[j + 1];
      ChainIsAcyclic(fat, path, i + 1, j + 1);
    }
  }

  /** The loop of cluster_chain_get_len, cut off after `fuel` rounds: it reads the entry of the
      first cluster again every time (table.c:102-105). */
  function ChainLenLoop(fat: Fat, start: u32, len: nat, fuel: nat): Option<nat>
    decreases fuel
  {
    if fuel == 0 then None
    else
      var curr := Get(fat, start);
      if curr != EOC1 && curr != EOC2 && curr != READ_ERROR then ChainLenLoop(fat, start, len + 1, fuel - 1)
      else Some(len + 1)
  }

  predicate LengthKnown(fat: Fat, start: u32) {
    EndOfChain(Get(fat, start)) || Get(fat, start) == READ_ERROR
  }

  /** It returns at all exactly for a chain of one cluster or an unreadable start, and then gives one. */
  lemma ChainLenHaltsExactly(fat: Fat, start: u32)
    ensures (exists fuel :: ChainLenLoop(fat, start, 0, fuel).Some?) <==> LengthKnown(fat, start)
    ensures forall fuel :: ChainLenLoop(fat, start, 0, fuel).Some? ==> ChainLenLoop(fat, start, 0, fuel) == Some(1)
  {
    if LengthKnown(fat, start) {
      assert ChainLenLoop(fat, start, 0, 1) == Some(1);
    }
    forall fuel: nat | !LengthKnown(fat, start)
      ensures ChainLenLoop(fat, start, 0, fuel).None?
    {
      ChainLenRuns(fat, start, 0, fuel);
    }
  }

  lemma {:induction false} ChainLenRuns(fat: Fat, start: u32, len: nat, fuel: nat)
    requires !LengthKnown(fat, start)
    ensures ChainLenLoop(fat, start, len, fuel).None?
    decreases fuel
  {
    if fuel > 0 {
      ChainLenRuns(fat, start, len + 1, fuel - 1);
    }
  }

  /** The growth loop of file_writeb: allocate, link from the current end, move on; the
      result of the allocation is not checked (file.c:77-81). */
  function Grow(fat: Fat, info: Info, clusters: u32, curr: u32, k: nat): (Fat, Info)
    decreases k
  {
    if k == 0 then (fat, info)
    else
      var (fat', info', new_) := Alloc(fat, info, clusters, EOC1);
      Grow(Put(fat', curr, new_), info', clusters, new_, k - 1)
  }

  /** Growing writes nothing but the old end and the clusters it takes. */
  lemma {:induction false} GrowFrame(fat: Fat, info: Info, clusters: u32, curr: u32, k: nat, c: u32)
    requires Growable(fat, info, clusters, curr, k)
    requires c < 0x4000_0000 && c != curr && c !in FreeList(fat, info.hint, clusters)[..k]
    ensures Get(Grow(fat, info, clusters, curr, k).0, c) == Get(fat, c)
    decreases k
  {
    if k > 0 {
      var free := FreeList(fat, info.hint, clusters);
      LinkStep(fat, info, clusters, curr);
      PrefixCons(free, k);
      var fat2 := Put(Put(fat, free[0], EOC1), curr, free[0]);
      GetAfterPut(fat, free[0], EOC1, c);
      GetAfterPut(Put(fat, free[0], EOC1), curr, free[0], c);
      GrowUnfolds(fat, info, clusters, curr, k);
      hide FreeList, Put, Get, Grow, Alloc;
      GrowFrame(fat2, Info(info.freeCount - 1, free[0]), clusters, free[0], k - 1, c);
    }
  }

  /** Enough free clusters, and a count that knows of them, to grow a chain that ends at curr. */
  predicate Growable(fat: Fat, info: Info, clusters: u32, curr: u32, k: nat) {
    && clusters < 0x0FFF_FFF7 && curr < EOC1 && 2 <= info.hint
    && EndOfChain(Get(fat, curr))
    && k <= |FreeList(fat, info.hint, clusters)| && k <= info.freeCount
  }

  /** With enough free clusters above the hint, growing a chain's last cluster appends the next
      k free clusters, in increasing order, and marks the last. */
  lemma {:induction false} GrowAppends(fat: Fat, info: Info, clusters: u32, curr: u32, k: nat)
    requires Growable(fat, info, clusters, curr, k)
    ensures IsChain(Grow(fat, info, clusters, curr, k).0, [curr] + FreeList(fat, info.hint, clusters)[..k])
    decreases k
  {
    if k > 0 {
      var free := FreeList(fat, info.hint, clusters);
      var new_, rest := free[0], free[1..][..k - 1];
      var fat2, info2 := Put(Put(fat, new_, EOC1), curr, new_), Info(info.freeCount - 1, new_);
      LinkStep(fat, info, clusters, curr);
      GrowUnfolds(fat, info, clusters, curr, k);
      hide FreeList, IsChain, Grow, Alloc, Put;
      GrowAppends(fat2, info2, clusters, new_, k - 1);
      NotTaken(fat2, info2, clusters, new_, k - 1, curr);
      var fat' := Grow(fat2, info2, clusters, new_, k - 1).0;
      PrefixCons(free, k);
      ChainCons(fat', curr, [new_] + rest);
    }
  }

  lemma GrowUnfolds(fat: Fat, info: Info, clusters: u32, curr: u32, k: nat)
    requires k > 0 && FreeList(fat, info.hint, clusters) != [] && info.freeCount > 0
    ensures var new_ := FreeList(fat, info.hint, clusters)[0];
            Grow(fat, info, clusters, curr, k)
            == Grow(Put(Put(fat, new_, EOC1), curr, new_), Info(info.freeCount - 1, new_), clusters, new_, k - 1)
  {
    hide FreeList, Put;
  }

  lemma PrefixCons(l: seq<u32>, k: nat)
    requires 0 < k <= |l|
    ensures l[..k] == [l[0]] + l[1..][..k - 1]
    ensures l[k..] == l[1..][k - 1..]
  {}

  lemma NotTaken(fat: Fat, info: Info, clusters: u32, end: u32, k: nat, c: u32)
    requires Growable(fat, info, clusters, end, k)
    requires c < 0x4000_0000 && c != end && Get(fat, c) != 0
    ensures Get(Grow(fat, info, clusters, end, k).0, c) == Get(fat, c)
  {
    FreeListExact(fat, info.hint, clusters);
    assert forall d :: d in FreeList(fat, info.hint, clusters)[..k] ==> d in FreeList(fat, info.hint, clusters);
    GrowFrame(fat, info, clusters, end, k, c);
  }

  /** The cluster that growth by m ends with. */
  function GrownEnd(fat: Fat, info: Info, clusters: u32, curr: u32, m: nat): u32
    requires m <= |FreeList(fat, info.hint, clusters)|
  {
    if m == 0 then curr else FreeList(fat, info.hint, clusters)[m - 1]
  }

  /** Growing by k is growing by m and then, from the end that has, by the rest. */
  lemma {:induction false} GrowSplit(fat: Fat, info: Info, clusters: u32, curr: u32, k: nat, m: nat)
    requires Growable(fat, info, clusters, curr, m) && m <= k
    ensures var (fat', info') := Grow(fat, info, clusters, curr, m);
            var end := GrownEnd(fat, info, clusters, curr, m);
            && Grow(fat, info, clusters, curr, k) == Grow(fat', info', clusters, end, k - m)
            && info'.hint == if m > 0 then end else info.hint
    decreases m
  {
    hide FreeList, Put, Get, Grow, Alloc, EndOfChain;
    NoGrowth(fat, info, clusters, curr);
    if m > 0 {
      var new_ := FreeList(fat, info.hint, clusters)[0];
      var fat2, info2 := Put(Put(fat, new_, EOC1), curr, new_), Info(info.freeCount - 1, new_);
      LinkStep(fat, info, clusters, curr);
      GrowUnfolds(fat, info, clusters, curr, k);
      GrowUnfolds(fat, info, clusters, curr, m);
      assert EndOfChain(Get(fat2, new_)) by { MarkEnds(); }
      GrowSplit(fat2, info2, clusters, new_, k - 1, m - 1);
    }
  }

  lemma NoGrowth(fat: Fat, info: Info, clusters: u32, curr: u32)
    ensures Grow(fat, info, clusters, curr, 0) == (fat, info)
  {}

  lemma MarkEnds()
    ensures EndOfChain(EOC1)
  {}

  /** With no cluster to be had, the end of the chain is linked to cluster 1, which is the error that the loop
      does not check (file.c:78-79), and in a further round cluster 1 to itself. */
  lemma {:induction false} GrowExhausted(fat: Fat, info: Info, clusters: u32, curr: u32, k: nat)
    requires (curr == 1 || Get(fat, curr) != 0) && 1 <= curr < 0x4000_0000 && curr < |fat| && 1 < |fat| && k > 0
    requires info.freeCount == 0 || FreeList(fat, info.hint, clusters) == []
    requires 2 <= info.hint && clusters < 0x4000_0000
    ensures var (fat', info') := Grow(fat, info, clusters, curr, k);
            && info' == info && Get(fat', curr) == 1
            && Get(fat', 1) == (if k > 1 || curr == 1 then 1 else Get(fat, 1))
            && forall c: u32 :: c < 0x4000_0000 && c != curr && c != 1 ==> Get(fat', c) == Get(fat, c)
    decreases k
  {
    var fat2 := Put(fat, curr, CLUSTER_ALLOC_ERR);
    forall c: u32 | c < 0x4000_0000
      ensures Get(fat2, c) == if c == curr then 1 else Get(fat, c)
    {
      GetAfterPut(fat, curr, CLUSTER_ALLOC_ERR, c);
    }
    FreeListSame(fat, fat2, info.hint, clusters);
    hide FreeList, Put, Get;
    if k > 1 {
      GrowExhausted(fat2, info, clusters, 1, k - 1);
    }
  }

  /** When the free clusters or the count run out after m of k rounds: the m clusters are linked as before, but
      the last is linked to cluster 1 instead of ended, and with more than one round too many cluster 1 is
      linked to itself. The count and the hint are those after m rounds. */
  lemma GrowRunsOut(fat: Fat, info: Info, clusters: u32, curr: u32, k: nat, m: nat)
    requires Growable(fat, info, clusters, curr, m) && 2 <= curr && 1 < |fat| && m < k
    requires m == |FreeList(fat, info.hint, clusters)| || m == info.freeCount
    ensures var (fat', info') := Grow(fat, info, clusters, curr, k);
            var path := [curr] + FreeList(fat, info.hint, clusters)[..m];
            && (forall i :: 0 <= i < m ==> Get(fat', path[i]) == path[i + 1])
            && Get(fat', path[m]) == 1 && Get(fat', 1) == (if k > m + 1 then 1 else Get(fat, 1))
            && info' == Info(info.freeCount - m, if m > 0 then path[m] else info.hint)
  {
    hide FreeList, Grow, Alloc, Put, Get, IsChain;
    var path, end := [curr] + FreeList(fat, info.hint, clusters)[..m], GrownEnd(fat, info, clusters, curr, m);
    var (fat1, info1) := Grow(fat, info, clusters, curr, m);
    GrowSplit(fat, info, clusters, curr, k, m);
    GrowSpends(fat, info, clusters, curr, m);
    GrownPath(fat, info, clusters, curr, m);
    InTheTable(fat1, end);
    GrowSize(fat, info, clusters, curr, m);
    GrowExhausted(fat1, info1, clusters, end, k - m);
  }

  /** With m clusters to be had, and cluster 1, which is reserved, marked as an end: the grown chain still ends if
      and only if at most one round is too many; it then ends in cluster 1, and else never. */
  lemma GrowEndsExactly(fat: Fat, info: Info, clusters: u32, curr: u32, k: nat, m: nat)
    requires Growable(fat, info, clusters, curr, m) && 2 <= curr && EndOfChain(Get(fat, 1))
    requires m == |FreeList(fat, info.hint, clusters)| || m == info.freeCount
    ensures (exists p :: IsChain(Grow(fat, info, clusters, curr, k).0, p) && p[0] == curr) <==> k <= m + 1
  {
    hide FreeList, Grow, Get, IsChain, EndOfChain;
    var fat' := Grow(fat, info, clusters, curr, k).0;
    InTheTable(fat, 1);
    if k <= m {
      GrowAppends(fat, info, clusters, curr, k);
    } else {
      var path := [curr] + FreeList(fat, info.hint, clusters)[..m];
      GrowRunsOut(fat, info, clusters, curr, k, m);
      FreeFrom(fat, info.hint, clusters);
      if k == m + 1 {
        EndsInOne(fat', path);
        assert (path + [1])[0] == curr;
      } else {
        NoChainFrom(fat', path);
      }
    }
  }

  lemma EndsInOne(fat: Fat, path: seq<u32>)
    requires path != [] && forall i :: 0 <= i < |path| ==> path[i] < EOC1
    requires forall i :: 0 <= i < |path| - 1 ==> Get(fat, path[i]) == path[i + 1]
    requires Get(fat, path[|path| - 1]) == 1 && EndOfChain(Get(fat, 1))
    ensures IsChain(fat, path + [1])
  {}

  /** No chain starts where the links lead to a cluster that is linked to itself. */
  lemma {:induction false} LeadsToLoop(fat: Fat, path: seq<u32>, i: nat, p: seq<u32>)
    requires i < |path| && forall j :: 0 <= j < |path| ==> path[j] < EOC1
    requires forall j :: 0 <= j < |path| - 1 ==> Get(fat, path[j]) == path[j + 1]
    requires Get(fat, path[|path| - 1]) == 1 && Get(fat, 1) == 1
    requires IsChain(fat, p) && p[0] == path[i]
    ensures false
    decreases |path| - i
  {
    hide Get;
    assert i < |path| - 1 ==> Get(fat, path[i]) == path[i + 1] < EOC1;
    if |p| > 1 {
      assert p[1] == Get(fat, p[0]);
      if i < |path| - 1 {
        LeadsToLoop(fat, path, i + 1, p[1..]);
      } else if |p| > 2 {
        assert p[2] == Get(fat, p[1]);
        ChainIsAcyclic(fat, p, 1, 2);
      }
    }
  }

  lemma NoChainFrom(fat: Fat, path: seq<u32>)
    requires path != [] && forall j :: 0 <= j < |path| ==> path[j] < EOC1
    requires forall j :: 0 <= j < |path| - 1 ==> Get(fat, path[j]) == path[j + 1]
    requires Get(fat, path[|path| - 1]) == 1 && Get(fat, 1) == 1
    ensures !exists p :: IsChain(fat, p) && p[0] == path[0]
  {
    forall p | IsChain(fat, p) && p[0] == path[0]
      ensures false
    {
      LeadsToLoop(fat, path, 0, p);
    }
  }

  lemma {:induction false} GrowSize(fat: Fat, info: Info, clusters: u32, curr: u32, k: nat)
    ensures |Grow(fat, info, clusters, curr, k).0| == |fat|
    decreases k
  {
    hide FreeList;
    if k > 0 {
      var (fat', info', new_) := Alloc(fat, info, clusters, EOC1);
      GrowSize(Put(fat', curr, new_), info', clusters, new_, k - 1);
    }
  }

  /** The chain after m rounds, its end, and the reserved entry. */
  lemma GrownPath(fat: Fat, info: Info, clusters: u32, curr: u32, m: nat)
    requires Growable(fat, info, clusters, curr, m) && 2 <= curr
    ensures var fat1, end := Grow(fat, info, clusters, curr, m).0, GrownEnd(fat, info, clusters, curr, m);
            var path := [curr] + FreeList(fat, info.hint, clusters)[..m];
            && path[m] == end && EndOfChain(Get(fat1, end)) && 2 <= end < EOC1 && Get(fat1, 1) == Get(fat, 1)
            && (forall i :: 0 <= i < m ==> Get(fat1, path[i]) == path[i + 1] && path[i] != end && 2 <= path[i] < EOC1)
            && clusters < 0x0FFF_FFF7 && 2 <= info.hint
  {
    hide FreeList, Grow, Get, IsChain, EndOfChain;
    var path := [curr] + FreeList(fat, info.hint, clusters)[..m];
    GrowAppends(fat, info, clusters, curr, m);
    FreeFrom(fat, info.hint, clusters);
    NotFree(fat, info.hint, clusters, m, 1);
    GrowFrame(fat, info, clusters, curr, m, 1);
    EndsApart(Grow(fat, info, clusters, curr, m).0, path);
  }

  lemma FreeFrom(fat: Fat, from: u32, to: u32)
    ensures forall i :: 0 <= i < |FreeList(fat, from, to)| ==> from <= FreeList(fat, from, to)[i] < to
  {
    FreeListExact(fat, from, to);
    assert forall i :: 0 <= i < |FreeList(fat, from, to)| ==> FreeList(fat, from, to)[i] in FreeList(fat, from, to);
  }

  lemma NotFree(fat: Fat, from: u32, to: u32, m: nat, c: u32)
    requires m <= |FreeList(fat, from, to)| && c < from
    ensures c !in FreeList(fat, from, to)[..m]
  {
    FreeFrom(fat, from, to);
  }

  lemma EndsApart(fat: Fat, path: seq<u32>)
    requires IsChain(fat, path)
    ensures var m := |path| - 1;
            && EndOfChain(Get(fat, path[m])) && path[m] < EOC1
            && forall i :: 0 <= i < m ==> Get(fat, path[i]) == path[i + 1] && path[i] != path[m] && path[i] < EOC1
  {
    forall i | 0 <= i < |path| - 1
      ensures path[i] != path[|path| - 1]
    {
      ChainIsAcyclic(fat, path, i, |path| - 1);
    }
  }

  /** An end mark can only have been read inside the table. */
  lemma InTheTable(fat: Fat, c: u32)
    requires EndOfChain(Get(fat, c)) && c < EOC1
    ensures c < |fat| && Get(fat, c) != 0
  {}

  /** Conservation: k fewer are counted, and the same k fewer are free above the new hint. */
  lemma {:induction false} GrowSpends(fat: Fat, info: Info, clusters: u32, curr: u32, k: nat)
    requires Growable(fat, info, clusters, curr, k)
    ensures var (fat', info') := Grow(fat, info, clusters, curr, k);
            && info'.freeCount == info.freeCount - k
            && FreeList(fat', info'.hint, clusters) == FreeList(fat, info.hint, clusters)[k..]
    decreases k
  {
    if k > 0 {
      var free := FreeList(fat, info.hint, clusters);
      LinkStep(fat, info, clusters, curr);
      hide FreeList;
      var fat' := Put(Put(fat, free[0], EOC1), curr, free[0]);
      GrowSpends(fat', Info(info.freeCount - 1, free[0]), clusters, free[0], k - 1);
      PrefixCons(free, k);
    }
  }

  lemma ChainCons(fat: Fat, c: u32, path: seq<u32>)
    requires IsChain(fat, path) && c < EOC1 && Get(fat, c) == path[0]
    ensures IsChain(fat, [c] + path)
  {}

  /** One round of the loop: the first free cluster becomes the end, linked from the old end,
      and the free clusters that remain are the others. */
  lemma LinkStep(fat: Fat, info: Info, clusters: u32, curr: u32)
    requires Growable(fat, info, clusters, curr, 1)
    ensures var new_ := FreeList(fat, info.hint, clusters)[0];
            var fat2 := Put(Put(fat, new_, EOC1), curr, new_);
            && info.hint <= new_ < clusters && new_ != curr && Get(fat2, curr) == new_ && Get(fat2, new_) == EOC1
            && FreeList(fat2, new_, clusters) == FreeList(fat, info.hint, clusters)[1..]
  {
    FreeListExact(fat, info.hint, clusters);
    var new_ := FreeList(fat, info.hint, clusters)[0];
    assert new_ in FreeList(fat, info.hint, clusters);
    var fat1 := Put(fat, new_, EOC1);
    TakeFirst(fat, info.hint, clusters, EOC1);
    GetAfterPut(fat, new_, EOC1, curr);
    forall c: u32 | new_ <= c < clusters
      ensures Get(Put(fat1, curr, new_), c) == 0 <==> Get(fat1, c) == 0
    {
      GetAfterPut(fat1, curr, new_, c);
    }
    FreeListSame(fat1, Put(fat1, curr, new_), new_, clusters);
  }

  /** Chains of data clusters, numbered from two, that are pairwise disjoint. */
  ghost predicate Family(fat: Fat, chains: seq<seq<u32>>) {
    && (forall i :: 0 <= i < |chains| ==> IsChain(fat, chains[i]))
    && (forall i, c :: 0 <= i < |chains| && c in chains[i] ==> 2 <= c)
    && (forall i, j, c :: 0 <= i < j < |chains| && c in chains[i] ==> c !in chains[j])
  }

  lemma OthersUntouched(fat: Fat, info: Info, clusters: u32, chains: seq<seq<u32>>, m: nat, i: nat, k: nat)
    requires Family(fat, chains)
    requires m < |chains| && i < |chains| && i != m && |chains[m]| == 1
    requires Growable(fat, info, clusters, chains[m][0], k)
    ensures IsChain(Grow(fat, info, clusters, chains[m][0], k).0, chains[i])
    ensures forall c :: c in chains[i] ==> c != chains[m][0] && c !in FreeList(fat, info.hint, clusters)[..k]
  {
    var curr, path := chains[m][0], chains[i];
    var free := FreeList(fat, info.hint, clusters);
    assert chains[m] == [curr] && IsChain(fat, chains[m]) && IsChain(fat, path);
    assert curr in chains[m];
    FreeListExact(fat, info.hint, clusters);
    forall j | 0 <= j < |path|
      ensures path[j] != curr && path[j] !in free[..k]
      ensures Get(Grow(fat, info, clusters, curr, k).0, path[j]) == Get(fat, path[j])
    {
      assert path[j] in path;
      assert j + 1 < |path| ==> path[j + 1] in path;
      assert path[j] !in free;
      GrowFrame(fat, info, clusters, curr, k, path[j]);
    }
  }

  /** Growing a one-cluster chain of the family leaves a family: every other chain as it was,
      the grown one longer, all still ended and disjoint. */
  lemma GrowKeepsFamily(fat: Fat, info: Info, clusters: u32, chains: seq<seq<u32>>, m: nat, k: nat)
    requires Family(fat, chains)
    requires m < |chains| && |chains[m]| == 1
    requires Growable(fat, info, clusters, chains[m][0], k)
    ensures var added := FreeList(fat, info.hint, clusters)[..k];
            Family(Grow(fat, info, clusters, chains[m][0], k).0, chains[m := chains[m] + added])
  {
    var curr := chains[m][0];
    var free := FreeList(fat, info.hint, clusters);
    var added := free[..k];
    var fat' := Grow(fat, info, clusters, curr, k).0;
    assert chains[m] == [curr];
    GrowAppends(fat, info, clusters, curr, k);
    FreeListExact(fat, info.hint, clusters);
    forall i | 0 <= i < |chains| && i != m
      ensures IsChain(fat', chains[i]) && forall c :: c in chains[i] ==> c != curr && c !in added
    {
      OthersUntouched(fat, info, clusters, chains, m, i, k);
    }
    var grown := chains[m := chains[m] + added];
    forall i, c | 0 <= i < |grown| && c in grown[i]
      ensures 2 <= c && if i == m then c == curr || c in added else c in chains[i]
    {
      assert i == m ==> c in chains[m] || c in added;
      assert c in added ==> c in free;
    }
  }
}

/** MemPoolT (server/tinyxml2.h): slots carved out of blocks, handed out from and
    returned to a free list linked through the slots themselves. */
module MemPools {
  import opened Lists

  /** A slot; `next` means something only while the slot is free. */
  class Item {
    var next: Item?
  }

  class Block {
    const items: seq<Item>

    constructor (items: seq<Item>)
      ensures this.items == items
    {
      this.items := items;
    }
  }

  /** Null outside the list. */
  function At(list: seq<Item>, k: int): Item? {
    if 0 <= k < |list| then list[k] else null
  }

  predicate Disjoint(a: seq<Item>, b: seq<Item>) {
    forall i, j :: 0 <= i < |a| && 0 <= j < |b| ==> a[i] != b[j]
  }

  function Slots(blocks: seq<Block>): seq<Item> {
    if blocks == [] then [] else Slots(blocks[..|blocks| - 1]) + blocks[|blocks| - 1].items
  }

  ghost predicate Chained(list: seq<Item>)
    reads list`next
  {
    forall k :: 0 <= k < |list| ==> list[k].next == At(list, k + 1)
  }

  lemma ChainedTail(list: seq<Item>)
    requires Chained(list) && list != []
    ensures Chained(list[1..]) && list[0].next == At(list[1..], 0)
  {
  }

  lemma ChainedPush(item: Item, list: seq<Item>)
    requires Chained(list) && item.next == At(list, 0)
    ensures Chained([item] + list)
  {
  }

  function Peak(usage: seq<nat>): nat {
    if usage == [] then 0
    else
      var before := Peak(usage[..|usage| - 1]);
      if usage[|usage| - 1] > before then usage[|usage| - 1] else before
  }

  /** Every slot is either on the free list or live, and only once. */
  predicate Partition(slots: seq<Item>, free: seq<Item>, live: set<Item>) {
    && NoDuplicates(slots) && NoDuplicates(free)
    && (forall x :: x in slots ==> x in free || x in live)
    && (forall x :: x in free ==> x in slots && x !in live)
    && (forall x :: x in live ==> x in slots)
  }

  lemma {:induction false} CountDistinct(list: seq<Item>, members: set<Item>)
    requires NoDuplicates(list) && forall x :: x in list <==> x in members
    ensures |list| == |members|
  {
    if list == [] {
      assert members == {};
    } else {
      var n := |list| - 1;
      assert forall x :: x in list[..n] <==> x in members - {list[n]};
      CountDistinct(list[..n], members - {list[n]});
    }
  }

  /** So the live and the free slots add up to all of them. */
  lemma PartitionCounts(slots: seq<Item>, free: seq<Item>, live: set<Item>)
    requires Partition(slots, free, live)
    ensures |live| + |free| == |slots|
  {
    var all := set x | x in slots;
    var unused := set x | x in free;
    CountDistinct(slots, all);
    CountDistinct(free, unused);
    assert all == unused + live && unused !! live;
  }

  lemma {:induction false} SlotsCount(blocks: seq<Block>, n: nat)
    requires forall b :: b in blocks ==> |b.items| == n
    ensures |Slots(blocks)| == |blocks| * n
  {
    if blocks == [] {
    } else {
      SlotsCount(blocks[..|blocks| - 1], n);
      assert |blocks| * n == (|blocks| - 1) * n + n;
    }
  }

  lemma SlotsAppend(blocks: seq<Block>, b: Block)
    ensures Slots(blocks + [b]) == Slots(blocks) + b.items
  {
    assert (blocks + [b])[..|blocks|] == blocks;
  }

  /** The high-water mark: no usage is above it, and it was reached. */
  lemma {:induction false} PeakIsHighest(usage: seq<nat>)
    ensures forall k :: 0 <= k < |usage| ==> usage[k] <= Peak(usage)
    ensures Peak(usage) == 0 || Peak(usage) in usage
  {
    if usage != [] {
      var front := usage[..|usage| - 1];
      PeakIsHighest(front);
      assert forall x :: x in front ==> x in usage;
      assert forall k :: 0 <= k < |front| ==> usage[k] == front[k];
    }
  }

  lemma PeakAppend(usage: seq<nat>, x: nat)
    ensures Peak(usage + [x]) == if x > Peak(usage) then x else Peak(usage)
  {
    assert (usage + [x])[..|usage|] == usage;
  }

  lemma LastBelowPeak(usage: seq<nat>)
    ensures usage != [] ==> usage[|usage| - 1] <= Peak(usage)
  {
  }

  lemma TakeHead(slots: seq<Item>, free: seq<Item>, live: set<Item>)
    requires Partition(slots, free, live) && free != []
    ensures Partition(slots, free[1..], live + {free[0]}) && free[0] !in live && free[0] in slots
  {
    assert forall x :: x in free <==> x == free[0] || x in free[1..];
  }

  lemma GiveBack(slots: seq<Item>, free: seq<Item>, live: set<Item>, item: Item)
    requires Partition(slots, free, live) && item in live
    ensures Partition(slots, [item] + free, live - {item}) && item !in free
  {
  }

  lemma BlockKeepsPartition(slots: seq<Item>, live: set<Item>, items: seq<Item>)
    requires Partition(slots, [], live) && NoDuplicates(items) && Disjoint(slots, items)
    ensures Partition(slots + items, items, live)
  {
    assert forall x :: x in slots + items <==> x in slots || x in items;
    forall x | x in items
      ensures x !in slots
    {
    }
  }

  class MemPool {
    const itemsPerBlock: nat
    var blockPtrs: seq<Block>
    var root: Item?
    var currentAllocs: int
    var nAllocs: int
    var maxAllocs: int
    var nUntracked: int

    // The free slots in list order, the live ones, all of them, and how many were
    // live after each call since the pool was last cleared.
    ghost var free: seq<Item>
    ghost var live: set<Item>
    ghost var slots: seq<Item>
    ghost var usage: seq<nat>

    ghost predicate ListValid()
      reads `root, `free, free`next
    {
      root == At(free, 0) && Chained(free)
    }

    ghost predicate SlotsValid()
      reads `blockPtrs, `free, `live, `slots
    {
      && (forall b :: b in blockPtrs ==> |b.items| == itemsPerBlock)
      && slots == Slots(blockPtrs) && Partition(slots, free, live)
    }

    ghost predicate CountsValid(inUse: nat)
      reads `currentAllocs, `maxAllocs, `usage
    {
      && currentAllocs == inUse
      && currentAllocs == (if usage == [] then 0 else usage[|usage| - 1])
      && maxAllocs == Peak(usage)
    }

    ghost predicate Valid()
      reads this, free`next
    {
      itemsPerBlock > 0 && ListValid() && SlotsValid() && CountsValid(|live|)
    }

    /** The blocks are used up exactly by the live and the free slots. */
    lemma AllSlotsAccountedFor()
      requires Valid()
      ensures currentAllocs + |free| == |blockPtrs| * itemsPerBlock
    {
      PartitionCounts(slots, free, live);
      SlotsCount(blockPtrs, itemsPerBlock);
    }

    constructor (itemSize: nat)
      requires 0 < itemSize <= 4096
      ensures Valid() && live == {} && blockPtrs == [] && usage == []
      ensures nAllocs == nUntracked == 0 && itemsPerBlock == 4096 / itemSize
    {
      itemsPerBlock := 4096 / itemSize;
      blockPtrs, root := [], null;
      currentAllocs, nAllocs, maxAllocs, nUntracked := 0, 0, 0, 0;
      free, live, slots, usage := [], {}, [], [];
    }

    /** A block whose items are linked in order. */
    method NewBlock() returns (block: Block)
      requires itemsPerBlock > 0
      ensures fresh(block) && fresh(block.items) && |block.items| == itemsPerBlock
      ensures NoDuplicates(block.items) && Chained(block.items)
    {
      var items: seq<Item> := [];
      while |items| < itemsPerBlock
        invariant |items| <= itemsPerBlock && fresh(items) && NoDuplicates(items)
      {
        var item := new Item;
        items := items + [item];
      }
      block := new Block(items);
      var i := 0;
      while i < itemsPerBlock - 1
        invariant 0 <= i <= itemsPerBlock - 1 && fresh(items) && NoDuplicates(items)
        invariant forall k :: 0 <= k < i ==> items[k].next == items[k + 1]
      {
        items[i].next := items[i + 1];
        i := i + 1;
      }
      items[itemsPerBlock - 1].next := null;
    }

    /** With no slot free, links those of a new block. */
    method AddBlock()
      requires Valid() && free == []
      modifies `blockPtrs, `root, `free, `slots
      ensures Valid() && free != [] && fresh(free)
      ensures old(blockPtrs) < blockPtrs && |blockPtrs| == |old(blockPtrs)| + 1
    {
      hide Partition, NoDuplicates, Slots, Chained, CountsValid;
      var block := NewBlock();
      SlotsAppend(blockPtrs, block);
      BlockKeepsPartition(slots, live, block.items);
      blockPtrs, slots := blockPtrs + [block], slots + block.items;
      root := block.items[0];
      free := block.items;
    }

    lemma InUse()
      requires CountsValid(|live|)
      ensures currentAllocs == |live|
    {
    }

    lemma RootIsFirstFree()
      requires ListValid()
      ensures root == null <==> free == []
    {
    }

    method PopRoot() returns (result: Item)
      requires ListValid() && SlotsValid() && free != []
      modifies `root, `free, `live
      ensures ListValid() && SlotsValid() && result !in old(live)
      ensures result == old(free)[0] && free == old(free)[1..] && live == old(live) + {result}
    {
      hide Partition, NoDuplicates, Slots, Chained;
      result := root;
      ChainedTail(free);
      TakeHead(slots, free, live);
      root := root.next;
      free, live := free[1..], live + {result};
    }

    /** Hands out a slot that is not live, from a new block if no slot is free. */
    method Alloc() returns (result: Item)
      requires Valid()
      modifies this
      ensures Valid() && result !in old(live) && live == old(live) + {result}
      ensures |blockPtrs| == |old(blockPtrs)| + (if old(free) == [] then 1 else 0)
      ensures currentAllocs == old(currentAllocs) + 1 && usage == old(usage) + [currentAllocs]
      ensures nAllocs == old(nAllocs) + 1 && nUntracked == old(nUntracked) + 1
      ensures old(free) != [] ==> result == old(free)[0] && free == old(free)[1..] && blockPtrs == old(blockPtrs)
      ensures old(free) == [] ==> fresh(result) && fresh(free) && old(blockPtrs) <= blockPtrs
    {
      hide ListValid, SlotsValid, CountsValid, At;
      InUse();
      RootIsFirstFree();
      if root == null {
        AddBlock();
      }
      result := PopRoot();
      assert |live| == |old(live)| + 1;
      CountAlloc(|old(live)|);
    }

    method CountAlloc(ghost inUse: nat)
      requires CountsValid(inUse)
      modifies `currentAllocs, `maxAllocs, `nAllocs, `nUntracked, `usage
      ensures CountsValid(inUse + 1) && currentAllocs == inUse + 1 && usage == old(usage) + [currentAllocs]
      ensures nAllocs == old(nAllocs) + 1 && nUntracked == old(nUntracked) + 1
    {
      hide Peak;
      currentAllocs := currentAllocs + 1;
      usage := usage + [currentAllocs];
      PeakAppend(old(usage), currentAllocs);
      if currentAllocs > maxAllocs {
        maxAllocs := currentAllocs;
      }
      nAllocs := nAllocs + 1;
      nUntracked := nUntracked + 1;
    }

    /** Takes back a live slot, which is handed out again first. */
    method Free(mem: Item?)
      requires Valid() && (mem != null ==> mem in live)
      modifies this, mem
      ensures Valid() && blockPtrs == old(blockPtrs) && maxAllocs == old(maxAllocs)
      ensures nAllocs == old(nAllocs) && nUntracked == old(nUntracked)
      ensures mem == null ==> live == old(live) && free == old(free) && usage == old(usage)
      ensures mem != null ==>
        live == old(live) - {mem} && free == [mem] + old(free) && usage == old(usage) + [|live|]
    {
      hide Partition, NoDuplicates, Peak, Slots, Chained;
      if mem == null {
        return;
      }
      GiveBack(slots, free, live, mem);
      currentAllocs := currentAllocs - 1;
      live := live - {mem};
      usage := usage + [currentAllocs];
      PeakAppend(old(usage), currentAllocs);
      LastBelowPeak(old(usage));
      mem.next := root;
      ChainedPush(mem, free);
      root := mem;
      free := [mem] + free;
    }

    method SetTracked()
      requires Valid()
      modifies `nUntracked
      ensures Valid() && nUntracked == old(nUntracked) - 1
    {
      nUntracked := nUntracked - 1;
    }

    method Clear()
      requires Valid()
      modifies this
      ensures Valid() && live == {} && free == [] && blockPtrs == [] && usage == []
      ensures currentAllocs == nAllocs == maxAllocs == nUntracked == 0
    {
      while blockPtrs != []
        decreases |blockPtrs|
      {
        blockPtrs := blockPtrs[..|blockPtrs| - 1];
      }
      root := null;
      currentAllocs, nAllocs, maxAllocs, nUntracked := 0, 0, 0, 0;
      free, live, slots, usage := [], {}, [], [];
    }
  }
}

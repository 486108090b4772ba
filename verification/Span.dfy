/** A span of the allocator and its heap's free list for the size class, changed in place: one method per step
    of the owning thread or of a thread that frees a block from outside. */
module Spans {
  import opened SpanBlocks

  const SPAN_HEADER_SIZE: nat := 128

  /** The offset of block `k` from the start of the span. */
  function BlockOffset(k: nat, size: nat): nat { SPAN_HEADER_SIZE + k * size }

  /** Up to where blocks are initialised: all of them, or to the end of the page if several fit a page. */
  function InitEnd(first: nat, pageStart: nat, remaining: nat, size: nat, page: nat): nat {
    var end := BlockOffset(first + remaining, size);
    if size < page / 2 && pageStart + page < end then pageStart + page else end
  }

  /** The start of the page that contains the offset. */
  function PageOf(offset: nat, page: nat): nat { if page == 0 then offset else offset - offset % page }

  lemma OffsetOrder(j: nat, k: nat, size: nat)
    requires size > 0
    ensures j < k <==> BlockOffset(j, size) < BlockOffset(k, size)
  {
    if j < k {
      OffsetGrows(j, k, size);
    } else if k < j {
      OffsetGrows(k, j, size);
    }
  }

  lemma OffsetGrows(j: nat, k: nat, size: nat)
    requires size > 0 && j < k
    ensures j * size < k * size
  {
    assert k * size == j * size + (k - j) * size;
    assert (k - j) * size >= size by {
      assert (k - j) * size == size + (k - j - 1) * size;
    }
  }

  lemma NextOffset(k: nat, size: nat)
    ensures BlockOffset(k + 1, size) == BlockOffset(k, size) + size
  {}

  /** The blocks after the second start before the end, and no further block does. */
  ghost predicate StopsAtPage(first: nat, n: nat, pageStart: nat, remaining: nat, size: nat, page: nat) {
    var end := InitEnd(first, pageStart, remaining, size, page);
    && (forall k :: first + 2 <= k < first + n ==> BlockOffset(k, size) < end)
    && (n == remaining || BlockOffset(first + n, size) >= end)
  }

  /** Reserves block `first` and links the following ones into a list, as many as start before the end of the
      page, and at least one if there is one. */
  method FreeListPartialInit(memory: seq<Pointer>, first: nat, pageStart: nat, remaining: nat, size: nat, page: nat)
    returns (link: seq<Pointer>, list: Pointer, n: nat)
    requires 0 < remaining && first + remaining <= |memory| && 0 < size
    ensures 0 < n <= remaining && (remaining > 1 ==> n > 1)
    ensures list == (if n == 1 then Null else At(first + 1)) && ChainsRange(memory, link, first + 1, first + n)
    ensures StopsAtPage(first, n, pageStart, remaining, size, page)
  {
    hide BlockOffset;
    link, list, n := memory, Null, remaining;
    if remaining > 1 {
      var freeBlock := first + 1;
      var blockEnd := BlockOffset(first + remaining, size);
      if size < page / 2 {
        var pageEnd := pageStart + page;
        if pageEnd < blockEnd {
          blockEnd := pageEnd;
        }
      }
      list, n := At(freeBlock), 2;
      var nextBlock := BlockOffset(freeBlock, size) + size;
      NextOffset(freeBlock, size);
      while nextBlock < blockEnd
        invariant 2 <= n <= remaining && freeBlock == first + n - 1 && nextBlock == BlockOffset(first + n, size)
        invariant blockEnd == InitEnd(first, pageStart, remaining, size, page)
        invariant |link| == |memory|
        invariant forall b :: 0 <= b < |link| && !(first + 1 <= b < freeBlock) ==> link[b] == memory[b]
        invariant forall b :: first + 1 <= b < freeBlock ==> link[b] == At(b + 1)
        invariant forall k :: first + 2 <= k < first + n ==> BlockOffset(k, size) < blockEnd
        decreases remaining - n
      {
        OffsetOrder(first + n, first + remaining, size);
        NextOffset(first + n, size);
        link := link[freeBlock := At(freeBlock + 1)];
        freeBlock, n, nextBlock := freeBlock + 1, n + 1, nextBlock + size;
      }
      link := link[freeBlock := Null];
    }
  }

  /** For each free list the blocks on it, in order, and the allocated blocks. */
  datatype Lists = Lists(heapList: seq<nat>, spanList: seq<nat>, deferredList: seq<nat>, live: set<nat>)

  class Span {
    const pageSize: nat
    var blockSize: nat
    var blockCount: nat
    var freeListLimit: nat
    var usedCount: int
    var listSize: nat
    var freeList: Pointer
    var heapFreeList: Pointer
    var freeListDeferred: Pointer
    var link: seq<Pointer>
    var status: Status
    var owner: Owner
    var remotes: seq<Remote>
    ghost var lists: Lists

    ghost function Now(): State
      reads this
    {
      State(blockCount, freeListLimit, usedCount, listSize, freeList, heapFreeList, freeListDeferred, link,
            status, owner, remotes, lists.heapList, lists.spanList, lists.deferredList, lists.live)
    }

    ghost predicate Valid()
      reads this
    {
      blockSize > 0 && Inv(Now())
    }

    ghost predicate InUse()
      reads this
    {
      blockSize > 0 && Active(Now())
    }

    /** What the lists and counters promise between any two steps. */
    lemma Promise()
      requires Valid()
      ensures freeListLimit <= blockCount
      ensures Divides(lists.heapList, lists.spanList, lists.deferredList, lists.live, freeListLimit)
      ensures usedCount == |lists.live| + |lists.heapList| + |lists.deferredList| && listSize == |lists.deferredList|
      ensures status == Released ==>
        lists.live == {} && lists.heapList == [] && forall i :: 0 <= i < |remotes| ==> remotes[i] == Away
    {
      UsedCounts(Now());
    }

    /** A span as it comes from the system: one block's worth of nothing, in a cache. */
    constructor (pageSize: nat, threads: nat)
      ensures Valid() && status == Released && this.pageSize == pageSize && |remotes| == threads
    {
      this.pageSize := pageSize;
      blockSize, blockCount, freeListLimit, usedCount, listSize := 1, 1, 0, 0, 0;
      freeList, heapFreeList, freeListDeferred, link := Null, Null, Null, [Null];
      status, owner, remotes := Released, Resting, seq(threads, _ => Away);
      lists := Lists([], [], [], {});
    }

    lemma NotActive()
      requires Inv(Now()) && status == Released
      ensures Idle(Now())
    {}

    /** Gives an idle span to a size class and allocates its first block; the heap's list of the class is empty. */
    method InitializeNew(size: nat, count: nat, memory: seq<Pointer>)
      requires Valid() && status == Released && 0 < size && 0 < count == |memory|
      modifies this
      ensures InUse() && blockCount == count && blockSize == size && lists.live == {0} && owner == Resting
      ensures 0 < freeListLimit <= count && Now() == Initialized(old(Now()), count, freeListLimit, link)
      ensures lists == Lists(From(1, freeListLimit), [], [], {0}) && usedCount == freeListLimit && listSize == 0
      ensures freeList == freeListDeferred == Null && status == if freeListLimit < count then Partial else Full
      ensures StopsAtPage(0, freeListLimit, 0, count, size, pageSize)
    {
      hide Active, Idle, Inv, ChainsRange, StopsAtPage, From, BlockOffset, InitEnd;
      NotActive();
      var links, list, n := FreeListPartialInit(memory, 0, 0, count, size, pageSize);
      InitializeKeeps(Now(), count, n, memory, links);
      ResetHeader(size, count);
      link, heapFreeList, freeListLimit := links, list, n;
      status, usedCount := if n < count then Partial else Full, if n < count then n else count;
      lists := Lists(From(1, n), [], [], {0});
    }

    method ResetHeader(size: nat, count: nat)
      modifies this`blockSize, this`blockCount, this`freeList, this`listSize, this`freeListDeferred
      ensures blockSize == size && blockCount == count && freeList == Null && listSize == 0 && freeListDeferred == Null
    {
      blockSize, blockCount, freeList, listSize, freeListDeferred := size, count, Null, 0, Null;
    }

    // ---------------------------------------------------------------- the owning thread

    /** The fast path: the heap's list is not empty. */
    method AllocateFast() returns (block: nat)
      requires InUse() && owner == Resting && heapFreeList != Null
      modifies this
      ensures InUse() && block !in old(lists).live && lists.live == old(lists).live + {block} && !InFlight(Now(), block)
      ensures old(lists).heapList != [] && block == old(lists).heapList[0] < |link| && Now() == Popped(old(Now()))
      ensures lists == old(lists).(heapList := old(lists).heapList[1..], live := old(lists).live + {block})
      ensures usedCount == old(usedCount) && listSize == old(listSize) && status == old(status)
      ensures freeList == old(freeList) && freeListDeferred == old(freeListDeferred)
    {
      hide Active, InFlight;
      PopKeeps(Now());
      block := heapFreeList.block;
      heapFreeList := link[block];
      lists := lists.(heapList := lists.heapList[1..], live := lists.live + {block});
    }

    /** The fallback up to the look at the deferred list: the span's own list, or fresh blocks, go to the heap. */
    method FallbackBegin()
      requires InUse() && owner == Resting && status == Partial && heapFreeList == Null
      modifies this
      ensures InUse() && owner.Looking? && owner.block !in old(lists).live
      ensures freeListDeferred == old(freeListDeferred) && listSize == old(listSize) && lists.spanList == []
      ensures blockCount == old(blockCount) && blockSize == old(blockSize) && usedCount == freeListLimit
      ensures freeList == Null && status == old(status)
      ensures old(lists).spanList != [] ==>
        && owner.block == old(lists).spanList[0] && freeListLimit == old(freeListLimit)
        && lists == old(lists).(heapList := old(lists).spanList[1..], spanList := [],
                                live := old(lists).live + {owner.block})
      ensures old(lists).spanList == [] ==>
        && owner.block == old(freeListLimit) && NewPage(old(freeListLimit), old(blockSize), old(blockCount))
        && lists == old(lists).(heapList := From(old(freeListLimit) + 1, freeListLimit),
                                live := old(lists).live + {owner.block})
    {
      hide Active, StopsAtPage, BlockOffset, PageOf, From;
      OwnLists(Now());
      if freeList != Null {
        SwapLists();
      } else {
        LinkUpBlocks();
      }
    }

    /** Blocks from `first` on were initialised, up to the end of the page that holds the first of them. */
    ghost predicate NewPage(first: nat, size: nat, count: nat)
      reads this
    {
      && first < freeListLimit <= count
      && StopsAtPage(first, freeListLimit - first, PageOf(BlockOffset(first, size), pageSize), count - first, size,
                     pageSize)
    }

    method SwapLists()
      requires InUse() && owner == Resting && status == Partial && heapFreeList == Null && freeList != Null
      modifies this
      ensures old(lists).spanList != [] && old(lists).spanList[0] < |link| && Now() == Swapped(old(Now()))
      ensures blockSize == old(blockSize)
      ensures InUse() && owner.Looking? && owner.block !in old(lists).live
      ensures lists.live == old(lists).live + {owner.block}
    {
      hide Active;
      SwapKeeps(Now());
      var block := freeList.block;
      freeList := link[block];
      heapFreeList, freeList := freeList, Null;
      usedCount := freeListLimit;
      owner := Looking(block);
      lists := lists.(heapList := lists.spanList[1..], spanList := [], live := lists.live + {block});
    }

    /** Another page's worth of blocks, from the page that holds the first of them. */
    method LinkUpBlocks()
      requires InUse() && owner == Resting && status == Partial && heapFreeList == Null && freeList == Null
      modifies this
      ensures old(freeListLimit) < freeListLimit <= blockCount && blockSize == old(blockSize)
      ensures Now() == Extended(old(Now()), freeListLimit - old(freeListLimit), link)
      ensures InUse() && owner.Looking? && owner.block !in old(lists).live
      ensures lists.live == old(lists).live + {owner.block}
      ensures var start := BlockOffset(old(freeListLimit), blockSize);
        StopsAtPage(old(freeListLimit), freeListLimit - old(freeListLimit), PageOf(start, pageSize),
                    blockCount - old(freeListLimit), blockSize, pageSize)
    {
      hide Active, ChainsRange, StopsAtPage, BlockOffset, PageOf, From;
      RoomLeft(Now());
      var links, list, n := NextPage();
      ExtendKeeps(Now(), n, links);
      lists := lists.(heapList := From(freeListLimit + 1, freeListLimit + n), live := lists.live + {freeListLimit});
      owner := Looking(freeListLimit);
      link, heapFreeList, freeListLimit := links, list, freeListLimit + n;
      usedCount := freeListLimit;
    }

    method NextPage() returns (links: seq<Pointer>, list: Pointer, n: nat)
      requires blockSize > 0 && freeListLimit < blockCount == |link|
      ensures 0 < n && freeListLimit + n <= blockCount && list == (if n == 1 then Null else At(freeListLimit + 1))
      ensures ChainsRange(link, links, freeListLimit + 1, freeListLimit + n)
      ensures StopsAtPage(freeListLimit, n, PageOf(BlockOffset(freeListLimit, blockSize), pageSize),
                          blockCount - freeListLimit, blockSize, pageSize)
    {
      var blockStart := BlockOffset(freeListLimit, blockSize);
      links, list, n :=
        FreeListPartialInit(link, freeListLimit, PageOf(blockStart, pageSize), blockCount - freeListLimit, blockSize,
            pageSize);
    }

    method LookAtDeferred()
      requires InUse() && owner.Looking?
      modifies this`owner
      ensures InUse() && Now() == Looked(old(Now()))
      ensures owner == if freeListDeferred == Null then Finishing(old(owner).block) else Extracting(old(owner).block)
    {
      hide Active, InFlight;
      LookKeeps(Now());
      owner := if freeListDeferred == Null then Finishing(owner.block) else Extracting(owner.block);
    }

    method TryExtract()
      requires InUse() && owner.Extracting?
      modifies this`freeList, this`freeListDeferred, this`owner
      ensures InUse() && Now() == Tried(old(Now()))
      ensures freeList == old(freeListDeferred) && freeListDeferred == Invalid
      ensures owner == if old(freeListDeferred) == Invalid then old(owner) else Extracted(old(owner).block)
    {
      hide Active, InFlight;
      TryKeeps(Now());
      freeList, freeListDeferred := freeListDeferred, Invalid;
      if freeList != Invalid {
        owner := Extracted(owner.block);
      }
    }

    method CollectDeferred()
      requires InUse() && owner.Extracted?
      modifies this
      ensures InUse() && Now() == Collected(old(Now())) && owner == Finishing(old(owner).block)
      ensures usedCount == old(usedCount) - |old(lists).deferredList| && listSize == 0 && freeListDeferred == Null
      ensures lists == old(lists).(spanList := old(lists).deferredList, deferredList := [])
    {
      hide Active, InFlight;
      CollectKeeps(Now());
      DeferredSize(Now());
      usedCount := usedCount - listSize;
      listSize, freeListDeferred := 0, Null;
      lists := lists.(spanList := lists.deferredList, deferredList := []);
      owner := Finishing(owner.block);
    }

    /** Moves the span to the full list if nothing is left in it, and returns the block. */
    method FinishAllocation() returns (block: nat)
      requires InUse() && owner.Finishing?
      modifies this`status, this`owner
      ensures InUse() && Now() == Finished(old(Now())) && block == old(owner.block)
      ensures block in lists.live && !InFlight(Now(), block) && owner == Resting
      ensures status == if lists.spanList == [] && freeListLimit == blockCount then Full else old(status)
    {
      hide Active, InFlight;
      FinishKeeps(Now());
      OwnLists(Now());
      block := owner.block;
      if freeList == Null && freeListLimit >= blockCount {
        status := Full;
      }
      owner := Resting;
    }

    /** An allocation that nobody interrupts: the first block of the heap's list if there is one, else of the span's
        list, else a fresh one. The second and the third way take over all deferred blocks. */
    method Allocate() returns (block: nat)
      requires InUse() && owner == Resting && (heapFreeList != Null || status == Partial) && freeListDeferred != Invalid
      modifies this
      ensures InUse() && owner == Resting && !InFlight(Now(), block) && block !in old(lists).live
      ensures blockCount == old(blockCount) && lists.live == old(lists).live + {block}
      ensures old(heapFreeList) != Null ==>
        && old(lists).heapList != [] && block == old(lists).heapList[0]
        && lists == old(lists).(heapList := old(lists).heapList[1..], live := lists.live)
        && usedCount == old(usedCount) && freeListLimit == old(freeListLimit)
        && freeListDeferred == old(freeListDeferred) && status == old(status)
      ensures old(heapFreeList) == Null ==>
        && lists.spanList == old(lists).deferredList && lists.deferredList == []
        && listSize == 0 && freeListDeferred == Null && usedCount == freeListLimit - |old(lists).deferredList|
        && status == if lists.spanList == [] && freeListLimit == blockCount then Full else Partial
      ensures old(heapFreeList) == Null && old(lists).spanList != [] ==>
        && block == old(lists).spanList[0] && lists.heapList == old(lists).spanList[1..]
        && freeListLimit == old(freeListLimit)
      ensures old(heapFreeList) == Null && old(lists).spanList == [] ==>
        && block == old(freeListLimit) && NewPage(old(freeListLimit), old(blockSize), old(blockCount))
        && lists.heapList == From(old(freeListLimit) + 1, freeListLimit)
    {
      hide Active, InFlight, StopsAtPage, BlockOffset, PageOf, From;
      DeferredSize(Now());
      if heapFreeList != Null {
        block := AllocateFast();
      } else {
        FallbackBegin();
        DeferredSize(Now());
        LookAtDeferred();
        if owner.Extracting? {
          TryExtract();
          CollectDeferred();
        }
        block := FinishAllocation();
      }
    }

    /** A free by the owning thread. If every block still in use turns out to be deferred the span is on its way
        to the cache. */
    method FreeDirect(b: nat)
      requires InUse() && owner == Resting && b in lists.live && !InFlight(Now(), b)
      modifies this
      ensures b < |old(link)| && Now() == Freed(old(Now()), b) && InUse()
      ensures lists == old(lists).(spanList := [b] + old(lists).spanList, live := old(lists).live - {b})
      ensures usedCount == old(usedCount) - 1 && listSize == old(listSize) && status == Partial
      ensures blockCount == old(blockCount) && freeListLimit == old(freeListLimit)
      ensures freeListDeferred == old(freeListDeferred) && heapFreeList == old(heapFreeList)
      ensures owner == if usedCount != listSize then Resting else if usedCount != 0 then Syncing else Releasing
    {
      hide Active, InFlight;
      FreeKeeps(Now(), b);
      InPartial(Now());
      var full := freeList == Null && freeListLimit >= blockCount;
      usedCount := if full then blockCount else usedCount;
      status := if full then Partial else status;
      link := link[b := freeList];
      usedCount := usedCount - 1;
      freeList := At(b);
      lists := lists.(spanList := [b] + lists.spanList, live := lists.live - {b});
      owner := if usedCount != listSize then Resting else if usedCount != 0 then Syncing else Releasing;
    }

    method SyncTry()
      requires InUse() && owner.Syncing?
      modifies this`freeListDeferred, this`owner
      ensures InUse() && Now() == SyncTried(old(Now())) && freeListDeferred == Invalid
      ensures owner == if old(freeListDeferred) == Invalid then Syncing else Synced(old(freeListDeferred))
    {
      hide Active, InFlight;
      SyncKeeps(Now());
      var list := freeListDeferred;
      freeListDeferred := Invalid;
      if list != Invalid {
        owner := Synced(list);
      }
    }

    method SyncStore()
      requires InUse() && owner.Synced?
      modifies this`freeListDeferred, this`owner
      ensures InUse() && Now() == SyncDone(old(Now())) && freeListDeferred == old(owner).list && owner == Releasing
    {
      hide Active, InFlight;
      SyncDoneKeeps(Now());
      freeListDeferred := owner.list;
      owner := Releasing;
    }

    method ReleaseToCache()
      requires InUse() && owner.Releasing?
      modifies this`status, this`owner
      ensures Valid() && status == Released && owner == Resting && lists.live == {} && lists.heapList == []
      ensures |lists.spanList| + |lists.deferredList| == freeListLimit
    {
      ReleaseKeeps(Now());
      PartitionSizes(Now());
      status, owner := Released, Resting;
    }

    /** A free by the owning thread that nobody interrupts: the block goes to the front of the span's list, and the
        span to the cache exactly if then no block is live or on the heap's list. */
    method Free(b: nat)
      requires InUse() && owner == Resting && b in lists.live && !InFlight(Now(), b) && freeListDeferred != Invalid
      modifies this
      ensures Valid() && owner == Resting && usedCount == old(usedCount) - 1 && listSize == old(listSize)
      ensures lists == old(lists).(spanList := [b] + old(lists).spanList, live := old(lists).live - {b})
      ensures freeListDeferred == old(freeListDeferred)
      ensures status == if lists.live == {} && lists.heapList == [] then Released else Partial
    {
      hide Active, InFlight, Idle;
      FreeDirect(b);
      UsedByNobody(Now());
      if owner.Syncing? {
        SyncTry();
        SyncStore();
      }
      if owner.Releasing? {
        ReleaseToCache();
      }
    }

    /** The program writes to a block it has allocated. */
    method WriteBlock(b: nat, p: Pointer)
      requires InUse() && b in lists.live
      modifies this`link
      ensures b < |link| && InUse() && link == old(link)[b := p]
    {
      hide Active, InFlight;
      WriteKeeps(Now(), b, p);
      link := link[b := p];
    }

    // ------------------------------------------------------------------- other threads

    method DeferBegin(i: nat, b: nat)
      requires InUse() && i < |remotes| && remotes[i] == Away && b in lists.live && !InFlight(Now(), b)
      modifies this`remotes
      ensures InUse() && remotes == old(remotes)[i := Wants(b)]
    {
      hide Active, InFlight;
      BeginKeeps(Now(), i, b);
      remotes := remotes[i := Wants(b)];
    }

    /** One turn of the spin loop. */
    method DeferLock(i: nat)
      requires InUse() && i < |remotes| && remotes[i].Wants?
      modifies this`remotes, this`freeListDeferred
      ensures InUse() && freeListDeferred == Invalid
      ensures remotes == if old(freeListDeferred) == Invalid then old(remotes)
                         else old(remotes)[i := Locked(old(remotes)[i].block, old(freeListDeferred))]
    {
      hide Active, InFlight;
      if freeListDeferred != Invalid {
        LockKeeps(Now(), i);
        remotes := remotes[i := Locked(remotes[i].block, freeListDeferred)];
      }
      freeListDeferred := Invalid;
    }

    method DeferCount(i: nat)
      requires InUse() && i < |remotes| && remotes[i].Locked?
      modifies this
      ensures old(remotes)[i].block < |old(link)| && InUse() && Now() == Counted(old(Now()), i)
      ensures var b := old(remotes)[i].block;
        && listSize == old(listSize) + 1 && remotes == old(remotes)[i := Linked(b, listSize == blockCount)]
        && lists == old(lists).(deferredList := [b] + old(lists).deferredList, live := old(lists).live - {b})
    {
      hide Active, InFlight;
      CountKeeps(Now(), i);
      var b := remotes[i].block;
      link := link[b := remotes[i].list];
      listSize := listSize + 1;
      remotes := remotes[i := Linked(b, listSize == blockCount)];
      lists := lists.(deferredList := [b] + lists.deferredList, live := lists.live - {b});
    }

    method DeferStore(i: nat)
      requires InUse() && i < |remotes| && remotes[i].Linked?
      modifies this`remotes, this`freeListDeferred
      ensures InUse() && Now() == Stored(old(Now()), i)
      ensures freeListDeferred == At(old(remotes)[i].block)
      ensures remotes == old(remotes)[i := if listSize == blockCount then Passing else Away]
    {
      hide Active, InFlight;
      StoreKeeps(Now(), i);
      LastIsLast(Now(), i);
      freeListDeferred := At(remotes[i].block);
      remotes := remotes[i := if remotes[i].last then Passing else Away];
    }

    /** The thread that deferred the last block passes the span to its heap; `next` heads the heap's list of
        such spans. */
    method DeferSpan(i: nat, next: Pointer)
      requires InUse() && i < |remotes| && remotes[i] == Passing
      modifies this`remotes, this`status, this`freeList
      ensures Valid() && status == Released && lists.live == {} && |lists.deferredList| == blockCount
      ensures remotes == old(remotes)[i := Away]
    {
      PassKeeps(Now(), i, next);
      NobodyElse(Now());
      freeList, status := next, Released;
      remotes := remotes[i := Away];
    }

    /** A free by another thread that nobody interrupts: the block goes to the front of the deferred list, and the
        thread that defers the last block of the span passes the span to its heap. */
    method Defer(i: nat, b: nat, next: Pointer)
      requires InUse() && i < |remotes| && remotes[i] == Away && b in lists.live && !InFlight(Now(), b)
      requires freeListDeferred != Invalid
      modifies this
      ensures Valid() && remotes == old(remotes) && listSize == old(listSize) + 1 && usedCount == old(usedCount)
      ensures lists == old(lists).(deferredList := [b] + old(lists).deferredList, live := old(lists).live - {b})
      ensures freeListDeferred == At(b) && owner == old(owner) && blockCount == old(blockCount)
      ensures status == if listSize == blockCount then Released else old(status)
    {
      hide Active, InFlight, Idle;
      DeferBegin(i, b);
      DeferLock(i);
      DeferCount(i);
      DeferStore(i);
      if remotes[i].Passing? {
        DeferSpan(i, next);
      }
    }
  }

  lemma OwnLists(s: State)
    requires Active(s) && !s.owner.Extracting? && !s.owner.Extracted?
    ensures s.freeList == Null <==> s.spanList == []
    ensures s.limit <= s.count
  {
    ChainHead(s.link, s.freeList, s.spanList);
  }

  lemma DeferredSize(s: State)
    requires Active(s)
    ensures s.listSize == |s.deferredList| && (s.deferred == Null ==> s.deferredList == [])
  {}

  lemma LastIsLast(s: State, i: nat)
    requires Active(s) && i < |s.remotes| && s.remotes[i].Linked?
    ensures s.remotes[i].last <==> s.listSize == s.count
  {
    assert RemoteList(s, s.remotes[i]);
  }

  lemma UsedByNobody(s: State)
    requires Active(s)
    ensures s.used == s.listSize <==> s.live == {} && s.heapList == []
  {
    UsedCounts(s);
  }

  lemma RoomLeft(s: State)
    requires Active(s) && s.status == Partial && s.owner == Resting && s.freeList == Null
    ensures s.limit < s.count == |s.link|
  {}

  lemma InPartial(s: State)
    requires Active(s) && s.owner == Resting
    ensures s.status == Full ==> FullyUtilized(s)
    ensures s.status != Released
  {}
}

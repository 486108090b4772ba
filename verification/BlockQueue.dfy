/** The queue's producer with its consumers: the steps on the blocks and on the block index, in place. */
module BlockQueues {
  import opened WordArith
  import opened BlockIndexes

  class ExplicitProducer<T> {
    const blockSize: nat
    var blocks: seq<Block<T>>
    var headers: seq<Header>
    var tailIndex: nat
    var headIndex: nat
    var tailBlock: Pointer
    var slotsUsed: nat
    var indexSize: nat
    var indexFront: nat
    var phase: Phase
    var consumers: seq<Consumer>
    ghost var home: seq<nat>
    ghost var views: seq<View>
    ghost var items: seq<T>
    ghost var processed: set<nat>

    ghost function Now(): State<T>
      reads this
    {
      State(blockSize, blocks, headers, tailIndex, headIndex, tailBlock, slotsUsed, indexSize, indexFront, phase,
          consumers,
            home, views, items, processed)
    }

    ghost predicate Valid()
      reads this
    {
      Inv(Now())
    }

    /** The first index has twice `half` entries of whatever the memory held. */
    constructor (blockSize: nat, half: nat, threads: nat, memory: seq<Entry>)
      requires blockSize > 0 && PowerOfTwo(blockSize) && half > 0 && PowerOfTwo(half)
      requires 2 * half == |memory| && Spans(blockSize, |memory|)
      ensures Valid() && Now() == NewStorage(blockSize, memory, threads)
    {
      this.blockSize := blockSize;
      blocks, tailIndex, headIndex, tailBlock, slotsUsed, phase := [], 0, 0, Null, 0, Ready;
      headers, indexSize, indexFront := [Header(2 * half, Wrap(-1), memory)], 2 * half, 0;
      consumers := seq(threads, _ => Free);
      home, views, items, processed := [], [View(0, 0, 0, 2 * half)], [], {};
      new;
      DoubledPower(half);
      NewStorageInv<T>(blockSize, memory, threads);
    }

    // -------------------------------------------------------------------- the producer

    /** Doubles the index. `memory` is what the allocator returned. */
    method NewBlockIndex(memory: seq<Entry>)
      requires Valid() && phase.Ready? && 2 * indexSize == |memory| && Spans(blockSize, |memory|)
      modifies this
      ensures Valid() && headers != [] && slotsUsed <= |home|
      ensures Now() == Expanded(old(Now()), headers[|headers| - 1].entries)
      ensures old(headers) != [] &&
        Unrolled(old(headers)[|old(headers)| - 1].entries, old(indexFront), slotsUsed, headers[|headers| - 1].entries)
    {
      hide Inv, PowerOfTwo, Unrolled;
      LastHeader(Now());
      var copy, j := CopyEntries(headers[|headers| - 1].entries, indexFront, slotsUsed, indexSize, memory);
      ExpandKeeps(Now(), copy);
      headers := headers + [Header(2 * indexSize, Wrap(slotsUsed - 1), copy)];
      views := views + [View(slotsUsed - |home|, |home| - slotsUsed, |home|, 2 * indexSize)];
      indexSize, indexFront := 2 * indexSize, j;
    }

    /** The loop that copies the old entries, oldest first, until it comes back to the front. */
    static method CopyEntries(entries: seq<Entry>, front: nat, used: nat, size: nat, memory: seq<Entry>)
      returns (copy: seq<Entry>, j: nat)
      requires |entries| == size <= WORD && PowerOfTwo(size) && front < size && used <= size && |memory| == 2 * size
      ensures j == used && |copy| == |memory| && Unrolled(entries, front, used, copy)
    {
      hide PowerOfTwo, Masked, Wrap, Unrolled, UnrolledTo;
      copy, j := memory, 0;
      NothingUnrolled(entries, front, used, copy);
      if used != 0 {
        var i := Masked(Wrap(front - used), size);
        FirstSlot(front, used, size);
        CopyStep(front, used, size, 0);
        OneMoreUnrolled(entries, front, used, copy, 0, i);
        copy, j := copy[0 := entries[i]], 1;
        i := Masked(i + 1, size);
        while i != front
          invariant 1 <= j <= used && |copy| == |memory| && 0 <= i < size
          invariant i == (front - used + j) % size
          invariant i == front <==> j == used
          invariant UnrolledTo(entries, front, used, copy, j)
          decreases used - j
        {
          CopyStep(front, used, size, j);
          OneMoreUnrolled(entries, front, used, copy, j, i);
          copy, j := copy[j := entries[i]], j + 1;
          i := Masked(i + 1, size);
        }
      }
      AllUnrolled(entries, front, used, copy);
    }

    /** The first half of `enqueue_begin_alloc`: the next block of the ring if it is empty, else a new block,
        whose slots hold whatever the memory held. */
    method PickBlock(memory: seq<Entry>, slots: seq<T>)
      requires Valid() && phase.Ready? && OffsetOf(tailIndex, blockSize) == 0
      requires |slots| == blockSize
      requires slotsUsed == indexSize ==> 2 * indexSize == |memory| && Spans(blockSize, |memory|)
      modifies this
      ensures Valid() && phase.Picked?
      ensures if CanReuse(old(Now())) then old(views) != [] && Now() == Reused(old(Now()))
              else Grown(old(Now()), slots, Now())
      ensures |blocks| == |old(blocks)| + if OldestDone(old(Now())) then 0 else 1
      ensures |headers| == |old(headers)| + if !OldestDone(old(Now())) && old(slotsUsed == indexSize) then 1 else 0
    {
      hide Inv, PowerOfTwo, OffsetOf, Unrolled, OldestDone;
      ReusableIff(Now());
      TailLinks(Now());
      if tailBlock.At? && blocks[blocks[tailBlock.id].next].completed == blockSize {
        ReuseBlock();
      } else {
        LastHeader(Now());
        if slotsUsed == indexSize {
          NewBlockIndex(memory);
        }
        InsertBlock(slots);
      }
    }

    method ReuseBlock()
      requires Valid() && phase.Ready? && OffsetOf(tailIndex, blockSize) == 0 && CanReuse(Now())
      modifies this
      ensures Valid() && old(views) != [] && Now() == Reused(old(Now()))
    {
      hide Inv, PowerOfTwo, OffsetOf;
      ReuseKeeps(Now());
      tailBlock := At(blocks[tailBlock.id].next);
      blocks := blocks[tailBlock.id := blocks[tailBlock.id].(completed := 0)];
      phase := Picked;
      home := home + [tailBlock.id];
      ghost var last := |views| - 1;
      views := views[last := views[last].(lo := views[last].lo + 1)];
    }

    method InsertBlock(slots: seq<T>)
      requires Valid() && phase.Ready? && OffsetOf(tailIndex, blockSize) == 0 && slotsUsed < indexSize
      requires |slots| == blockSize
      modifies this
      ensures Valid() && (old(tailBlock).At? ==> old(tailBlock).id < |old(blocks)|)
      ensures Now() == Inserted(old(Now()), slots)
    {
      hide Inv, PowerOfTwo, OffsetOf;
      InsertKeeps(Now(), slots);
      var id := |blocks|;
      if tailBlock.Null? {
        blocks := blocks + [Block(id, 0, slots)];
      } else {
        var next := blocks[tailBlock.id].next;
        blocks := blocks[tailBlock.id := blocks[tailBlock.id].(next := id)] + [Block(next, 0, slots)];
      }
      tailBlock, slotsUsed, phase := At(id), slotsUsed + 1, Picked;
      home := home + [id];
    }

    /** The entry of the new block; its base is the current tail. */
    method WriteEntry()
      requires Valid() && phase.Picked?
      modifies this
      ensures Valid() && old(headers) != [] && old(tailBlock).At?
      ensures old(indexFront) < |old(headers)[|old(headers)| - 1].entries|
      ensures Now() == EntryWritten(old(Now()))
    {
      hide Inv;
      WriteKeeps(Now());
      var last := |headers| - 1;
      headers := headers[last := headers[last].(entries :=
          headers[last].entries[indexFront := Entry(tailIndex, tailBlock.id)])];
      phase := Written;
    }

    method PublishFront()
      requires Valid() && phase.Written?
      modifies this
      ensures Valid() && old(headers) != [] && indexSize > 0 && old(views) != [] && old(indexFront) < WORD
      ensures Now() == FrontPublished(old(Now()))
    {
      hide Inv, Masked;
      PublishKeeps(Now());
      var last := |headers| - 1;
      headers := headers[last := headers[last].(front := indexFront)];
      indexFront := Masked(indexFront + 1, indexSize);
      phase := Begun;
      ghost var lastView := |views| - 1;
      views := views[lastView := views[lastView].(hi := views[lastView].hi + 1)];
    }

    /** The element is constructed in place and the new tail is stored. */
    method CommitElement(x: T)
      requires Valid() && CanCommit(Now())
      modifies this
      ensures Valid() && phase.Ready? && tailIndex == old(tailIndex) + 1 && items == old(items) + [x]
      ensures headIndex == old(headIndex) && consumers == old(consumers) && processed == old(processed)
      ensures slotsUsed == old(slotsUsed) && indexSize == old(indexSize)
    {
      hide Inv, OffsetOf;
      TailInBlock(Now());
      CommitKeeps(Now(), x);
      var block := blocks[tailBlock.id];
      blocks := blocks[tailBlock.id := block.(slots := block.slots[OffsetOf(tailIndex, blockSize) := x])];
      tailIndex, phase := tailIndex + 1, Ready;
      items := items + [x];
    }

    /** `enqueue_begin`, construction and commit with nobody in between. */
    method Enqueue(x: T, memory: seq<Entry>, slots: seq<T>)
      requires Valid() && phase.Ready?
      requires |slots| == blockSize
      requires slotsUsed == indexSize ==> 2 * indexSize == |memory| && Spans(blockSize, |memory|)
      modifies this
      ensures Valid() && phase.Ready? && tailIndex == old(tailIndex) + 1 && items == old(items) + [x]
      ensures headIndex == old(headIndex) && consumers == old(consumers) && processed == old(processed)
    {
      assert blockSize > 0 && PowerOfTwo(blockSize);
      hide Inv, PowerOfTwo, Masked, OffsetOf, Reused, Expanded, Inserted, EntryWritten, FrontPublished;
      if OffsetOf(tailIndex, blockSize) == 0 {
        PickBlock(memory, slots);
        WriteEntry();
        PublishFront();
      }
      CommitElement(x);
    }

    // ------------------------------------------------------------------- the consumers

    /** A consumer is granted the next `count` elements; the reservation protocol never grants past the tail. */
    method Grant(i: nat, count: nat)
      requires Valid() && i < |consumers| && consumers[i].Free? && 0 < count && headIndex + count <= tailIndex
      modifies this`headIndex, this`consumers
      ensures Valid() && headIndex == old(headIndex) + count
      ensures consumers == old(consumers)[i := Granted(old(headIndex), headIndex)]
    {
      hide Inv;
      GrantKeeps(Now(), i, count);
      consumers := consumers[i := Granted(headIndex, headIndex + count)];
      headIndex := headIndex + count;
    }

    method LoadIndex(i: nat)
      requires Valid() && i < |consumers| && consumers[i].Granted?
      modifies this`consumers
      ensures Valid() && headers != []
      ensures consumers == old(consumers)[i := HasIndex(old(consumers)[i].index, old(consumers)[i].end, |headers| - 1)]
    {
      hide Inv;
      LoadIndexKeeps(Now(), i);
      consumers := consumers[i := HasIndex(consumers[i].index, consumers[i].end, |headers| - 1)];
    }

    method LoadFront(i: nat)
      requires Valid() && i < |consumers| && consumers[i].HasIndex?
      modifies this`consumers
      ensures Valid() && old(consumers)[i].header < |headers|
      ensures var c := old(consumers)[i];
        consumers == old(consumers)[i := HasFront(c.index, c.end, c.header, headers[c.header].front)]
    {
      hide Inv;
      LoadFrontKeeps(Now(), i);
      var c := consumers[i];
      consumers := consumers[i := HasFront(c.index, c.end, c.header, headers[c.header].front)];
    }

    /** Determines the slot of the block of the first element: it holds the base of that block. */
    method FindEntry(i: nat)
      requires Valid() && i < |consumers| && consumers[i].HasFront?
      modifies this`consumers
      ensures Valid() && |consumers| == |old(consumers)| && consumers[i].AtEntry?
      ensures var c := old(consumers)[i];
        consumers == old(consumers)[i := AtEntry(c.index, c.end, c.header, consumers[i].slot)]
      ensures var c := consumers[i];
        && c.header < |headers| && c.slot < |headers[c.header].entries|
        && headers[c.header].entries[c.slot].base == c.index - OffsetOf(c.index, blockSize)
    {
      assert blockSize > 0;
      hide Inv, Lookup, BlockOf, OffsetOf;
      FindEntryKeeps(Now(), i);
      var c := consumers[i];
      var slot := Lookup(blockSize, headers[c.header], c.front, c.index);
      BlockBounds(c.index, blockSize);
      consumers := consumers[i := AtEntry(c.index, c.end, c.header, slot)];
    }

    /** Takes the part of the interval that lies in one block; what it reads is what was enqueued there. */
    method Take(i: nat) returns (data: seq<T>)
      requires Valid() && i < |consumers| && consumers[i].AtEntry? && slotsUsed * blockSize <= HALF
      modifies this`consumers
      ensures Valid() && |consumers| == |old(consumers)| && consumers[i].Took?
      ensures consumers == old(consumers)[i := consumers[i]]
      ensures var c, c' := old(consumers)[i], consumers[i];
        && c'.index == c.index < c'.stop <= c'.end == c.end && c'.stop <= |items|
        && data == items[c.index..c'.stop]
      ensures var c := old(consumers)[i];
        var blockEnd := c.index - c.index % blockSize + blockSize;
        consumers[i].stop == if c.end < blockEnd then c.end else blockEnd
    {
      hide Inv, Masked, BlockOf;
      TakeKeeps(Now(), i);
      StopIs(Now(), i);
      var c := consumers[i];
      BlockBounds(c.index, blockSize);
      var blockEnd := c.index - Masked(c.index, blockSize) + blockSize;
      var stop := if CircularLess(Wrap(c.end), Wrap(blockEnd)) then c.end else blockEnd;
      consumers := consumers[i := Took(c.index, c.end, c.header, c.slot, headers[c.header].entries[c.slot].block,
          stop)];
      TakeReads(Now(), i);
      var block := blocks[consumers[i].block];
      var offset := OffsetOf(c.index, blockSize);
      data := block.slots[offset..offset + (stop - c.index)];
    }

    /** `set_many_empty`, after which the consumer goes on with the next block or is done. */
    method MarkEmpty(i: nat)
      requires Valid() && i < |consumers| && consumers[i].Took? && slotsUsed * blockSize <= HALF
      modifies this
      ensures Valid() && tailIndex == old(tailIndex) && headIndex == old(headIndex) && items == old(items)
      ensures phase == old(phase) && slotsUsed == old(slotsUsed) && |consumers| == |old(consumers)|
      ensures var c := old(consumers)[i];
        && c.index < c.stop <= c.end
        && processed == old(processed) + Range(c.index, c.stop)
        && if c.stop == c.end then consumers[i] == Free
           else consumers[i].AtEntry? && consumers[i].index == c.stop && consumers[i].end == c.end
      ensures forall j :: 0 <= j < |consumers| && j != i ==> consumers[j] == old(consumers)[j]
    {
      hide Inv, Masked;
      MarkKeeps(Now(), i);
      var c := consumers[i];
      ViewSize(Now(), c.header);
      var block := blocks[c.block];
      blocks := blocks[c.block := block.(completed := block.completed + (c.stop - c.index))];
      consumers := consumers[i := if c.stop == c.end then Free
                                  else AtEntry(c.stop, c.end, c.header, Masked(c.slot + 1, headers[c.header].size))];
      processed := processed + Range(c.index, c.stop);
    }

    lemma IntervalBelowHead(i: nat)
      requires Valid() && i < |consumers| && !consumers[i].Free?
      ensures consumers[i].index < consumers[i].end <= headIndex
    {
      ConsumerNonEmpty(Now(), i);
    }

    /** The steps up to the first entry. */
    method Approach(i: nat, count: nat)
      requires Valid() && i < |consumers| && consumers[i].Free? && 0 < count && headIndex + count <= tailIndex
      requires slotsUsed * blockSize <= HALF
      modifies this`headIndex, this`consumers
      ensures Valid() && headIndex == old(headIndex) + count
      ensures OthersSame(old(consumers), consumers, i) && Standing(consumers[i], old(headIndex), headIndex)
    {
      hide Inv, Now, Valid;
      Grant(i, count);
      LoadIndex(i);
      LoadFront(i);
      FindEntry(i);
    }

    /** One turn of the loop: takes the part of the interval in one block and marks it. */
    method DequeuePart(i: nat, ghost at: nat, ghost end: nat) returns (part: seq<T>, ghost stop: nat)
      requires Valid() && i < |consumers| && Standing(consumers[i], at, end) && at != end
      requires slotsUsed * blockSize <= HALF
      modifies this
      ensures Valid() && tailIndex == old(tailIndex) && headIndex == old(headIndex) && items == old(items)
      ensures slotsUsed == old(slotsUsed) && at < stop <= end <= headIndex && stop <= |items|
      ensures part == items[at..stop] && processed == old(processed) + Range(at, stop)
      ensures OthersSame(old(consumers), consumers, i) && Standing(consumers[i], stop, end)
    {
      hide Inv, Range, Valid;
      IntervalBelowHead(i);
      part := Take(i);
      stop := consumers[i].stop;
      MarkEmpty(i);
    }

    /** First in, first out: a consumer that takes `count` elements gets exactly the next `count` that were
        enqueued, in order, across block boundaries, and marks exactly those as processed. */
    method Dequeue(i: nat, count: nat) returns (data: seq<T>)
      requires Valid() && i < |consumers| && consumers[i].Free? && 0 < count && headIndex + count <= tailIndex
      requires slotsUsed * blockSize <= HALF
      modifies this
      ensures Valid() && tailIndex == old(tailIndex) && headIndex == old(headIndex) + count <= |items|
      ensures items == old(items) && data == items[old(headIndex)..headIndex]
      ensures processed == old(processed) + Range(old(headIndex), headIndex)
      ensures consumers == old(consumers)
    {
      ItemsToTail(Now());
      assert |items| == tailIndex;
      hide Inv, Range, Now, Valid, OthersSame, Standing;
      ghost var first, cs := headIndex, consumers;
      Approach(i, count);
      data := DequeueParts(i, first, headIndex);
      SameConsumers(cs, consumers, consumers, i, headIndex, headIndex);
    }

    /** The loop over the blocks. */
    method DequeueParts(i: nat, ghost first: nat, ghost end: nat) returns (data: seq<T>)
      requires Valid() && i < |consumers| && Standing(consumers[i], first, end) && first < end <= |items|
      requires slotsUsed * blockSize <= HALF
      modifies this
      ensures Valid() && tailIndex == old(tailIndex) && headIndex == old(headIndex) && items == old(items)
      ensures OthersSame(old(consumers), consumers, i) && Standing(consumers[i], end, end)
      ensures data == items[first..end] && processed == old(processed) + Range(first, end)
    {
      hide Inv, Range, Now, Valid, OthersSame, Standing, Collected;
      ghost var at, before := first, processed;
      data := [];
      NothingCollected(items, at, before);
      SameConsumers(consumers, consumers, consumers, i, at, end);
      while !consumers[i].Free?
        invariant Valid() && items == old(items) && tailIndex == old(tailIndex) && headIndex == old(headIndex)
        invariant slotsUsed == old(slotsUsed) && i < |consumers| && OthersSame(old(consumers), consumers, i)
        invariant Standing(consumers[i], at, end) && at <= end && (consumers[i].Free? <==> at == end)
        invariant Collected(items, first, at, data, before, processed)
        decreases end - at
      {
        ghost var middle, was := consumers, processed;
        var part, stop := DequeuePart(i, at, end);
        AllCollected(items, first, at, data, before, was);
        CollectedMore(items, first, at, stop, data, before);
        SameConsumers(old(consumers), middle, consumers, i, stop, end);
        data, at := data + part, stop;
      }
      AllCollected(items, first, at, data, before, processed);
    }
  }

  /** A consumer that started at `first` and stands at `at` has read and processed just what lies between. */
  ghost predicate Collected<T>(items: seq<T>, first: nat, at: nat, data: seq<T>, before: set<nat>,
      processed: set<nat>) {
    first <= at <= |items| && data == items[first..at] && processed == before + Range(first, at)
  }

  lemma NothingCollected<T>(items: seq<T>, at: nat, processed: set<nat>)
    requires at <= |items|
    ensures Collected(items, at, at, [], processed, processed)
  {
    EmptyRange(processed, at);
  }

  lemma CollectedMore<T>(items: seq<T>, first: nat, at: nat, stop: nat, data: seq<T>, before: set<nat>)
    requires Collected(items, first, at, data, before, before + Range(first, at)) && at <= stop <= |items|
    ensures Collected(items, first, stop, data + items[at..stop], before, before + Range(first, at) + Range(at, stop))
  {
    PartsJoin(items, first, at, stop);
    RangesJoin(before, first, at, stop);
  }

  lemma AllCollected<T>(items: seq<T>, first: nat, at: nat, data: seq<T>, before: set<nat>, processed: set<nat>)
    requires Collected(items, first, at, data, before, processed)
    ensures data == items[first..at] && processed == before + Range(first, at)
  {}

  ghost predicate Standing(c: Consumer, at: nat, end: nat) {
    if at == end then c == Free else c.AtEntry? && c.index == at && c.end == end
  }

  ghost predicate OthersSame(cs: seq<Consumer>, cs': seq<Consumer>, i: nat) {
    i < |cs| == |cs'| && forall j :: 0 <= j < |cs| && j != i ==> cs'[j] == cs[j]
  }

  lemma SameConsumers(cs: seq<Consumer>, cs': seq<Consumer>, cs'': seq<Consumer>, i: nat, at: nat, end: nat)
    requires OthersSame(cs, cs', i) && (cs'' == cs' || OthersSame(cs', cs'', i)) && Standing(cs''[i], at, end)
    ensures OthersSame(cs, cs'', i) && (cs''[i].Free? <==> at == end)
    ensures cs[i].Free? && at == end ==> cs'' == cs
  {}

  lemma ItemsToTail<T>(s: State<T>)
    requires Inv(s)
    ensures |s.items| == s.tail
  {
    hide RingOk, IndexOk, CountsOk, ConsumersOk, PowerOfTwo, BlockOf;
  }

  lemma ViewSize<T>(s: State<T>, h: nat)
    requires Inv(s) && h < |s.views|
    ensures h < |s.headers| && s.headers[h].size == s.views[h].size
  {
    HeaderSize(s, h);
  }

  lemma PartsJoin<T>(items: seq<T>, a: nat, b: nat, c: nat)
    requires a <= b <= c <= |items|
    ensures items[a..b] + items[b..c] == items[a..c] && items[a..a] == []
  {}

  lemma RangesJoin(processed: set<nat>, a: nat, b: nat, c: nat)
    requires a <= b <= c
    ensures (processed + Range(a, b)) + Range(b, c) == processed + Range(a, c)
  {
    hide Range;
  }

  lemma EmptyRange(processed: set<nat>, a: nat)
    ensures processed + Range(a, a) == processed
  {}

  lemma LastHeader<T>(s: State<T>)
    requires Inv(s)
    ensures s.headers != [] && |s.headers[|s.headers| - 1].entries| == s.size && s.front < s.size <= WORD
    ensures PowerOfTwo(s.size) && s.used <= s.size && s.used <= |s.home|
  {
    var last := |s.headers| - 1;
    HeaderServes(s, last);
    hide RingOk, Serves, ContentsOk, CountsOk, ConsumersOk, PowerOfTwo;
    SizePositive(s.b, s.home, s.headers[last], s.views[last]);
  }

  /** The first `j` entries of the copy are those of the old index, oldest first. */
  ghost predicate UnrolledTo(entries: seq<Entry>, front: nat, used: nat, copy: seq<Entry>, j: nat) {
    |entries| > 0 && j <= |copy| && forall k :: 0 <= k < j ==> copy[k] == entries[(front - used + k) % |entries|]
  }

  lemma NothingUnrolled(entries: seq<Entry>, front: nat, used: nat, copy: seq<Entry>)
    requires |entries| > 0
    ensures UnrolledTo(entries, front, used, copy, 0)
  {}

  lemma OneMoreUnrolled(entries: seq<Entry>, front: nat, used: nat, copy: seq<Entry>, j: nat, i: nat)
    requires UnrolledTo(entries, front, used, copy, j) && j < |copy|
    requires i < |entries| && i == (front - used + j) % |entries|
    ensures UnrolledTo(entries, front, used, copy[j := entries[i]], j + 1)
  {}

  lemma AllUnrolled(entries: seq<Entry>, front: nat, used: nat, copy: seq<Entry>)
    requires UnrolledTo(entries, front, used, copy, used)
    ensures Unrolled(entries, front, used, copy)
  {}

  lemma FirstSlot(front: nat, used: nat, size: nat)
    requires 0 < size <= WORD && PowerOfTwo(size)
    ensures Masked(Wrap(front - used), size) == (front - used) % size
  {
    hide PowerOfTwo;
    WrapMod(front - used, size);
  }

  /** Copying one more entry of the old index: the walk comes back to the front exactly after `used` steps. */
  lemma CopyStep(front: nat, used: nat, size: nat, j: nat)
    requires PowerOfTwo(size) && front < size && j < used <= size
    ensures Masked((front - used + j) % size + 1, size) == (front - used + (j + 1)) % size
    ensures (front - used + (j + 1)) % size == front <==> j + 1 == used
  {
    hide PowerOfTwo;
    ModShift(front - used + j, 1, size);
    ModIs(front, size, 0, front);
    if j + 1 < used {
      ModDistinct(front, front - used + (j + 1), size);
    }
  }

  lemma TailLinks<T>(s: State<T>)
    requires Inv(s)
    ensures s.tailBlock.At? ==>
      s.tailBlock.id < |s.blocks| && s.blocks[s.tailBlock.id].next < |s.blocks| && s.views != []
  {
    if s.tailBlock.At? {
      RingNonEmpty(s);
      NextIsOldest(s);
    }
  }

  /** Space in the index was made if there was none, and a new block was linked in. */
  ghost predicate Grown<T>(s: State<T>, slots: seq<T>, s': State<T>) {
    && (s.tailBlock.At? ==> s.tailBlock.id < |s.blocks|)
    && if s.used == s.size then
         s'.headers != [] && s.used <= |s.home| &&
             s' == Inserted(Expanded(s, s'.headers[|s'.headers| - 1].entries), slots)
       else s' == Inserted(s, slots)
  }
}

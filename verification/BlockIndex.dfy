/** The storage of the lock-free queue's producer: a ring of blocks, and a circular index over them through
    which consumers find the block of an element. One method per step that others can observe, so that
    producer and consumers may interleave in any way. */
module BlockIndexes {
  import opened WordArith

  datatype Entry = Entry(base: nat, block: nat)

  datatype Header = Header(size: nat, front: Word, entries: seq<Entry>)

  datatype Block<T> = Block(next: nat, completed: nat, slots: seq<T>)

  datatype Pointer = Null | At(id: nat)

  /** How far the producer has come with starting a block. */
  datatype Phase = Ready | Picked | Written | Begun

  /** Where a consumer stands with the interval `[index, end)` that it was granted. */
  datatype Consumer =
    | Free
    | Granted(index: nat, end: nat)
    | HasIndex(index: nat, end: nat, header: nat)
    | HasFront(index: nat, end: nat, header: nat, front: nat)
    | AtEntry(index: nat, end: nat, header: nat, slot: nat)
    | Took(index: nat, end: nat, header: nat, slot: nat, block: nat, stop: nat)

  /** What an index header serves: the blocks numbered `lo` to `hi - 1`, block `n` in slot `(n + shift) % size`. */
  datatype View = View(shift: int, lo: int, hi: int, size: nat)

  function BlockOf(x: int, b: nat): (r: int)
    requires b > 0
    ensures x >= 0 ==> r >= 0
  {
    x / b
  }

  function OffsetOf(x: int, b: nat): (r: nat)
    requires b > 0
    ensures r < b
  {
    x % b
  }

  /** The base of the block of `x`. */
  function BlockStart(x: int, b: nat): int
    requires b > 0
  {
    BlockOf(x, b) * b
  }

  lemma BlockBounds(x: int, b: nat)
    requires b > 0
    ensures x == BlockStart(x, b) + OffsetOf(x, b) && BlockStart(x, b) == BlockOf(x, b) * b
  {}

  lemma BlockIs(x: int, b: nat, n: int, r: int)
    requires 0 <= r < b && x == n * b + r
    ensures BlockOf(x, b) == n && OffsetOf(x, b) == r
  {
    ModIs(x, b, n, r);
  }

  lemma BlockMonotone(x: int, y: int, b: nat)
    requires b > 0 && x <= y
    ensures BlockOf(x, b) <= BlockOf(y, b)
  {
    BlockBounds(x, b);
    BlockBounds(y, b);
    var m, n := BlockOf(x, b), BlockOf(y, b);
    if n < m {
      AtLeastOne(m - n, b, m * b - n * b);
    }
  }

  // ------------------------------------------------------------------------- the ring

  /** `home[n]` is the block that holds the elements `n * b` to `n * b + b - 1`. The last `used` of them are the
      blocks of the ring, all different, each linked to the next and the last to the first. */
  ghost predicate RingOk<T>(b: nat, blocks: seq<Block<T>>, tailBlock: Pointer, used: nat, home: seq<nat>) {
    && used <= |home| && (used == 0 <==> home == [])
    && tailBlock == (if home == [] then Null else At(home[|home| - 1]))
    && (forall n :: |home| - used <= n < |home| ==> home[n] < |blocks|)
    && (forall n :: |home| - used <= n < |home| ==> Linked(blocks, used, home, n))
    && Different(used, home)
    && (forall k :: 0 <= k < |blocks| ==> |blocks[k].slots| == b)
  }

  ghost predicate Different(used: nat, home: seq<nat>)
    requires used <= |home|
  {
    forall m, n :: |home| - used <= m < n < |home| ==> home[m] != home[n]
  }

  ghost predicate Linked<T>(blocks: seq<Block<T>>, used: nat, home: seq<nat>, n: int)
    requires |home| - used <= n < |home| && used <= |home|
  {
    home[n] < |blocks| && blocks[home[n]].next == home[if n == |home| - 1 then |home| - used else n + 1]
  }

  // ------------------------------------------------------------------------ the index

  ghost predicate FrontIs(v: View, front: nat, n: int) { v.size > 0 && front == (n + v.shift) % v.size }

  ghost predicate EntryAt(b: nat, home: seq<nat>, hd: Header, v: View, n: int) {
    && 0 <= n < |home| && 0 < v.size == |hd.entries|
    && hd.entries[(n + v.shift) % v.size] == Entry(n * b, home[n])
  }

  /** The blocks of a whole index hold at most as many elements as there are index values. */
  predicate Spans(b: nat, size: nat) { size * b <= WORD }

  ghost predicate Serves(b: nat, home: seq<nat>, hd: Header, v: View) {
    && PowerOfTwo(hd.size) && 0 < hd.size == v.size == |hd.entries| <= WORD && Spans(b, hd.size)
    && 0 <= v.lo <= v.hi <= |home| && v.hi - v.lo <= hd.size
    && (forall n :: v.lo <= n < v.hi ==> EntryAt(b, home, hd, v, n))
    && (v.lo < v.hi ==> FrontIs(v, hd.front, v.hi - 1))
  }

  function Published(phase: Phase, home: seq<nat>): int {
    if phase.Picked? || phase.Written? then |home| - 1 else |home|
  }

  /** Every header ever published still serves what it served; the last one serves the whole ring, up to
      the block that is being started. */
  ghost predicate IndexOk(b: nat, headers: seq<Header>, views: seq<View>, used: nat, size: nat, front: nat,
                          phase: Phase, home: seq<nat>)
  {
    && |headers| == |views| > 0
    && (forall h :: 0 <= h < |headers| ==> Serves(b, home, headers[h], views[h]))
    && CurrentOk(b, headers[|headers| - 1], views[|views| - 1], used, size, front, phase, home)
  }

  ghost predicate CurrentOk(b: nat, hd: Header, v: View, used: nat, size: nat, front: nat, phase: Phase,
      home: seq<nat>) {
    && hd.size == size && v.size == size && used <= size
    && v.lo == |home| - used && v.hi == Published(phase, home)
    && FrontIs(v, front, v.hi)
    && (!phase.Ready? ==> home != [])
    && (phase.Written? ==> EntryAt(b, home, hd, v, |home| - 1))
  }

  // --------------------------------------------------------------------- the elements

  /** The committed elements of the ring's blocks are in their slots. */
  ghost predicate ContentsOk<T>(b: nat, blocks: seq<Block<T>>, tail: nat, used: nat, phase: Phase, home: seq<nat>,
      items: seq<T>)
    requires b > 0
  {
    && |items| == tail
    && (if phase.Ready? then |home| == BlockOf(tail + b - 1, b) else home != [] && tail == (|home| - 1) * b)
    && (forall x :: 0 <= x < tail && |home| - used <= BlockOf(x, b) ==> StoredAt(b, blocks, home, items, x))
  }

  ghost predicate StoredAt<T>(b: nat, blocks: seq<Block<T>>, home: seq<nat>, items: seq<T>, x: nat)
    requires b > 0
  {
    && x < |items| && BlockOf(x, b) < |home| && home[BlockOf(x, b)] < |blocks|
    && OffsetOf(x, b) < |blocks[home[BlockOf(x, b)]].slots|
    && blocks[home[BlockOf(x, b)]].slots[OffsetOf(x, b)] == items[x]
  }

  // ------------------------------------------------------------------ what is processed

  ghost function InBlock(processed: set<nat>, n: int, b: nat): set<nat>
    requires b > 0
  {
    set x | x in processed && BlockOf(x, b) == n
  }

  /** The counter of a block in the ring counts its processed elements; everything before the ring is processed. */
  ghost predicate CountsOk<T>(b: nat, blocks: seq<Block<T>>, head: nat, used: nat, home: seq<nat>, processed: set<nat>)
    requires b > 0
  {
    && (forall n :: |home| - used <= n < |home| ==> Counted(b, blocks, home, processed, n))
    && (forall x :: x in processed ==> x < head)
    && (forall x: nat :: BlockOf(x, b) < |home| - used ==> x in processed)
  }

  ghost predicate Counted<T>(b: nat, blocks: seq<Block<T>>, home: seq<nat>, processed: set<nat>, n: int)
    requires b > 0
  {
    0 <= n < |home| && home[n] < |blocks| && blocks[home[n]].completed == |InBlock(processed, n, b)|
  }

  // ----------------------------------------------------------------------- the consumers

  ghost predicate Covers(b: nat, views: seq<View>, h: nat, index: nat, end: nat)
    requires b > 0
  {
    h < |views| && views[h].size > 0 && views[h].lo <= BlockOf(index, b) && BlockOf(end - 1, b) < views[h].hi
  }

  ghost predicate ConsumerOk(b: nat, views: seq<View>, head: nat, c: Consumer, home: seq<nat>, processed: set<nat>)
    requires b > 0
  {
    && (!c.Free? ==> c.index < c.end <= head && forall x :: c.index <= x < c.end ==> x !in processed)
    && match c
       case Free => true
       case Granted(_, _) => true
       case HasIndex(index, end, h) => Covers(b, views, h, index, end)
       case HasFront(index, end, h, front) =>
         Covers(b, views, h, index, end) &&
         exists m {:trigger FrontIs(views[h], front, m)} ::
           BlockOf(index, b) <= m < views[h].hi && FrontIs(views[h], front, m)
       case AtEntry(index, end, h, slot) =>
         Covers(b, views, h, index, end) && FrontIs(views[h], slot, BlockOf(index, b))
       case Took(index, end, h, slot, block, stop) =>
         && Covers(b, views, h, index, end) && FrontIs(views[h], slot, BlockOf(index, b))
         && BlockOf(index, b) < |home| && block == home[BlockOf(index, b)]
         && stop == Stop(index, end, b)
  }

  /** The end of the part of `[index, end)` that lies in the block of `index`. */
  function Stop(index: nat, end: nat, b: nat): int
    requires b > 0
  {
    if end < BlockStart(index, b) + b then end else BlockStart(index, b) + b
  }

  predicate Apart(c: Consumer, d: Consumer) {
    !c.Free? && !d.Free? ==> c.end <= d.index || d.end <= c.index
  }

  ghost predicate ConsumersOk(b: nat, views: seq<View>, head: nat, cs: seq<Consumer>, home: seq<nat>,
      processed: set<nat>)
    requires b > 0
  {
    && (forall i :: 0 <= i < |cs| ==> ConsumerOk(b, views, head, cs[i], home, processed))
    && (forall i, j :: 0 <= i < j < |cs| ==> Apart(cs[i], cs[j]))
  }

  datatype State<T> = State(b: nat, blocks: seq<Block<T>>, headers: seq<Header>, tail: nat, head: nat,
      tailBlock: Pointer,
                            used: nat, size: nat, front: nat, phase: Phase, consumers: seq<Consumer>,
                            home: seq<nat>, views: seq<View>, items: seq<T>, processed: set<nat>)

  ghost predicate Inv<T>(s: State<T>) {
    && s.b > 0 && PowerOfTwo(s.b) && s.head <= s.tail
    && RingOk(s.b, s.blocks, s.tailBlock, s.used, s.home)
    && IndexOk(s.b, s.headers, s.views, s.used, s.size, s.front, s.phase, s.home)
    && ContentsOk(s.b, s.blocks, s.tail, s.used, s.phase, s.home, s.items)
    && CountsOk(s.b, s.blocks, s.head, s.used, s.home, s.processed)
    && ConsumersOk(s.b, s.views, s.head, s.consumers, s.home, s.processed)
  }

  // ------------------------------------------------------------------- consumer steps

  /** A consumer that moves on within its interval. */
  lemma ConsumerMoves<T>(s: State<T>, i: nat, c: Consumer)
    requires Inv(s) && i < |s.consumers| && !s.consumers[i].Free?
    requires !c.Free? && s.consumers[i].index == c.index && s.consumers[i].end == c.end
    requires ConsumerOk(s.b, s.views, s.head, c, s.home, s.processed)
    ensures Inv(s.(consumers := s.consumers[i := c]))
  {
    hide RingOk, IndexOk, ContentsOk, CountsOk, ConsumerOk;
  }

  lemma GrantKeeps<T>(s: State<T>, i: nat, count: nat)
    requires Inv(s) && i < |s.consumers| && s.consumers[i].Free? && 0 < count && s.head + count <= s.tail
    ensures Inv(s.(head := s.head + count, consumers := s.consumers[i := Granted(s.head, s.head + count)]))
  {
    hide RingOk, IndexOk, ContentsOk, Counted;
  }

  lemma CommittedIsPublished<T>(s: State<T>, x: nat)
    requires Inv(s) && x < s.tail
    ensures BlockOf(x, s.b) < Published(s.phase, s.home)
  {
    hide RingOk, IndexOk, CountsOk, ConsumersOk, PowerOfTwo, BlockOf, OffsetOf, StoredAt;
    BlockMonotone(x, s.tail - 1, s.b);
    LastBlock(s.tail, s.b);
    if !s.phase.Ready? {
      BlockIs(s.tail - 1, s.b, |s.home| - 2, s.b - 1);
    }
  }

  lemma UnprocessedInRing<T>(s: State<T>, x: nat)
    requires Inv(s) && x !in s.processed
    ensures s.used <= |s.home| && |s.home| - s.used <= BlockOf(x, s.b)
  {
    hide IndexOk, ContentsOk, ConsumersOk, PowerOfTwo, BlockOf, Counted, Linked, Different;
  }

  lemma CurrentView<T>(s: State<T>)
    requires Inv(s)
    ensures |s.views| == |s.headers| > 0 && s.views[|s.views| - 1].size > 0
    ensures s.views[|s.views| - 1].lo == |s.home| - s.used && s.views[|s.views| - 1].hi == Published(s.phase, s.home)
  {
    hide RingOk, Serves, ContentsOk, CountsOk, ConsumersOk, PowerOfTwo, EntryAt;
  }

  /** Unprocessed elements lie in the ring, and committed ones in published blocks. */
  lemma IntervalServed<T>(s: State<T>, i: nat)
    requires Inv(s) && i < |s.consumers| && !s.consumers[i].Free?
    ensures var c := s.consumers[i];
      && |s.home| - s.used <= BlockOf(c.index, s.b) <= BlockOf(c.end - 1, s.b) < Published(s.phase, s.home)
      && Covers(s.b, s.views, |s.views| - 1, c.index, c.end)
  {
    hide RingOk, IndexOk, ContentsOk, CountsOk, PowerOfTwo, BlockOf, Published;
    var c := s.consumers[i];
    assert ConsumerOk(s.b, s.views, s.head, c, s.home, s.processed);
    UnprocessedInRing(s, c.index);
    BlockMonotone(c.index, c.end - 1, s.b);
    CommittedIsPublished(s, c.end - 1);
    CurrentView(s);
  }

  lemma SizePositive(b: nat, home: seq<nat>, hd: Header, v: View)
    requires Serves(b, home, hd, v)
    ensures 0 < v.size == hd.size == |hd.entries| <= WORD && PowerOfTwo(hd.size) && Spans(b, hd.size)
  {}

  lemma LastBlock(tail: nat, b: nat)
    requires b > 0 && tail > 0
    ensures BlockOf(tail + b - 1, b) == BlockOf(tail - 1, b) + 1
  {
    BlockBounds(tail - 1, b);
    BlockIs(tail + b - 1, b, BlockOf(tail - 1, b) + 1, OffsetOf(tail - 1, b));
  }

  /** The slot of the block of `index`, found from any slot that an earlier look at the front gave: the distance
      to the base in that slot, in blocks, masked to the size of the index. The distance is cast to a signed number,
      but the block size it is divided by is unsigned, and so is the division. */
  function Lookup(b: nat, hd: Header, front: nat, index: nat): (r: nat)
    requires b > 0 && hd.size > 0 && front < |hd.entries|
  {
    var headBase := hd.entries[front].base;
    var firstBlockBase := index - Masked(index, b);
    var offset := Wrap(firstBlockBase - headBase) / b;
    Masked(Wrap(front + offset), hd.size)
  }

  /** The lookup finds the entry of the element's block, however far back it is. */
  lemma LookupFinds(b: nat, home: seq<nat>, hd: Header, v: View, front: nat, m: int, index: nat)
    requires b > 0 && PowerOfTwo(b) && Serves(b, home, hd, v) && FrontIs(v, front, m)
    requires v.lo <= BlockOf(index, b) <= m < v.hi
    ensures front < |hd.entries|
    ensures var slot, n := Lookup(b, hd, front, index), BlockOf(index, b);
      FrontIs(v, slot, n) && slot < |hd.entries| && hd.entries[slot] == Entry(n * b, home[n])
  {
    hide Serves, PowerOfTwo, BlockOf, And, Wrap, Masked, BlockStart, Spans, Lookup;
    var n := BlockOf(index, b);
    SizePositive(b, home, hd, v);
    ServedEntry(b, home, hd, v, m);
    ServedEntry(b, home, hd, v, n);
    BlockBase(index, b);
    LookupIs(b, hd, front, index, n, m);
    SlotDistance(front, n - m, b, hd.size);
    ModShift(m + v.shift, n - m, v.size);
  }

  lemma ServedEntry(b: nat, home: seq<nat>, hd: Header, v: View, n: int)
    requires Serves(b, home, hd, v) && v.lo <= n < v.hi
    ensures EntryAt(b, home, hd, v, n)
  {}

  lemma LookupIs(b: nat, hd: Header, front: nat, index: nat, n: int, m: int)
    requires b > 0 && hd.size > 0 && front < |hd.entries|
    requires hd.entries[front].base == m * b && index - Masked(index, b) == n * b
    ensures Lookup(b, hd, front, index) == Masked(Wrap(front + Wrap((n - m) * b) / b), hd.size)
  {
    hide Wrap, Masked;
    assert n * b - m * b == (n - m) * b;
  }

  lemma BlockBase(index: nat, b: nat)
    requires b > 0 && PowerOfTwo(b)
    ensures index - Masked(index, b) == BlockStart(index, b) == BlockOf(index, b) * b
  {
    BlockBounds(index, b);
  }

  lemma SlotDistance(front: nat, k: int, b: nat, size: nat)
    requires b > 0 && PowerOfTwo(b) && PowerOfTwo(size) && 0 < size <= WORD && Spans(b, size)
    ensures Masked(Wrap(front + Wrap(k * b) / b), size) == (front + k) % size
  {
    hide PowerOfTwo, Wrap, Spans;
    var offset := Wrap(k * b) / b;
    UnsignedDistance(k, b, size);
    WrapMod(front + offset, size);
    ModShift(k, front, size);
    ModShift(offset, front, size);
  }

  /** The quotient of the wrapped distance differs from the true one by a multiple of the index size. */
  lemma UnsignedDistance(k: int, b: nat, size: nat)
    requires b > 0 && PowerOfTwo(b) && PowerOfTwo(size) && size > 0 && Spans(b, size)
    ensures (Wrap(k * b) / b) % size == k % size
  {
    ProductIsPower(b, size);
    var c := WordMultiple(size * b);
    var q := (k * b) / WORD;
    DivMod(k * b, WORD, q, Wrap(k * b));
    Regroup(k, b, q, c, size);
    ModIs(Wrap(k * b), b, k - (q * c) * size, 0);
    DivMod(k, size, k / size, k % size);
    assert k - (q * c) * size == (k / size - q * c) * size + k % size;
    ModIs(k - (q * c) * size, size, k / size - q * c, k % size);
  }

  lemma Regroup(k: int, b: int, q: int, c: int, size: int)
    ensures k * b - q * (c * (size * b)) == (k - (q * c) * size) * b
  {}

  lemma ProductIsPower(b: nat, size: nat)
    requires PowerOfTwo(b) && PowerOfTwo(size)
    ensures PowerOfTwo(size * b)
  {
    var i: nat :| b == Power2(i);
    var j: nat :| size == Power2(j);
    Power2Product(j, i);
  }

  lemma WrapBack(b: nat)
    requires 0 < b <= WORD
    ensures Wrap(-1 * b) == WORD - b
  {
    SameResidue(-1 * b, WORD - b, -1);
  }

  /** The bound on the index is needed: with a larger one the block just before that of the front is not found. */
  lemma SpanIsNeeded(b: nat, size: nat)
    requires PowerOfTwo(b) && PowerOfTwo(size) && 0 < b <= WORD && 0 < size
    ensures (Wrap(-1 * b) / b) % size == -1 % size <==> Spans(b, size)
  {
    hide PowerOfTwo, Wrap;
    if Spans(b, size) {
      UnsignedDistance(-1, b, size);
    } else {
      var c := WordMultiple(b);
      WrapBack(b);
      assert WORD - b == (c - 1) * b;
      ModIs(WORD - b, b, c - 1, 0);
      ModIs(-1, size, -1, size - 1);
      if c >= size {
        MulAtMost(size, c, b);
      }
      ModIs(c - 1, size, 0, c - 1);
    }
  }

  lemma MulAtMost(x: int, y: int, b: nat)
    requires 0 <= x <= y
    ensures 0 <= x * b <= y * b
  {
    assert (y - x) * b >= 0;
    assert y * b == x * b + (y - x) * b;
  }

  lemma StopIs<T>(s: State<T>, i: nat)
    requires Inv(s) && i < |s.consumers| && !s.consumers[i].Free? && s.used * s.b <= HALF
    ensures var c := s.consumers[i];
      var blockEnd := c.index - Masked(c.index, s.b) + s.b;
      && Stop(c.index, c.end, s.b) == (if CircularLess(Wrap(c.end), Wrap(blockEnd)) then c.end else blockEnd)
      && c.index < Stop(c.index, c.end, s.b) <= c.end
  {
    var c := s.consumers[i];
    IntervalServed(s, i);
    ConsumerNonEmpty(s, i);
    hide RingOk, IndexOk, ContentsOk, CountsOk, ConsumersOk, BlockOf, BlockStart, OffsetOf, Masked, CircularLess,
        PowerOfTwo;
    BlockBase(c.index, s.b);
    BlockBounds(c.index, s.b);
    BlockBounds(c.end - 1, s.b);
    BlocksApart(s.used, s.b, c.index, c.end - 1);
    CircularLessIs(c.end, BlockStart(c.index, s.b) + s.b);
  }

  lemma ConsumerNonEmpty<T>(s: State<T>, i: nat)
    requires Inv(s) && i < |s.consumers| && !s.consumers[i].Free?
    ensures s.consumers[i].index < s.consumers[i].end <= s.head
  {
    assert ConsumerOk(s.b, s.views, s.head, s.consumers[i], s.home, s.processed);
  }

  lemma BlocksApart(used: nat, b: nat, x: int, y: int)
    requires b > 0 && used * b <= HALF && 0 <= BlockOf(y, b) - BlockOf(x, b) < used
    ensures 0 <= BlockStart(y, b) - BlockStart(x, b) <= HALF - b
  {
    hide BlockOf;
    var k := BlockOf(y, b) - BlockOf(x, b);
    MulAtMost(k + 1, used, b);
    MulAtMost(0, k, b);
    assert (k + 1) * b == k * b + b;
    assert BlockStart(y, b) - BlockStart(x, b) == k * b;
  }

  lemma SameBlock(x: int, b: nat, k: nat)
    requires b > 0 && x + k < BlockStart(x, b) + b
    ensures BlockOf(x + k, b) == BlockOf(x, b) && OffsetOf(x + k, b) == OffsetOf(x, b) + k
  {
    hide BlockOf, OffsetOf, BlockStart;
    BlockBounds(x, b);
    BlockIs(x + k, b, BlockOf(x, b), OffsetOf(x, b) + k);
  }

  /** A consumer reads from the slots of the block exactly the elements that were enqueued at its indices. */
  lemma TakeReads<T>(s: State<T>, i: nat)
    requires Inv(s) && i < |s.consumers| && s.consumers[i].Took? && s.used * s.b <= HALF
    ensures var c := s.consumers[i];
      var offset := OffsetOf(c.index, s.b);
      && c.index < c.stop <= c.end <= s.head
      && c.block < |s.blocks| && offset + (c.stop - c.index) <= |s.blocks[c.block].slots| && c.stop <= |s.items|
      && s.blocks[c.block].slots[offset..offset + (c.stop - c.index)] == s.items[c.index..c.stop]
  {
    hide RingOk, Serves, FrontIs, EntryAt, BlockOf, OffsetOf, CountsOk, Covers, BlockStart, PowerOfTwo, CircularLess,
        Masked;
    var c := s.consumers[i];
    var offset, n := OffsetOf(c.index, s.b), BlockOf(c.index, s.b);
    IntervalServed(s, i);
    StopIs(s, i);
    ConsumerNonEmpty(s, i);
    assert ConsumerOk(s.b, s.views, s.head, c, s.home, s.processed);
    assert c.block < |s.blocks| by { RingBlocks(s, n); }
    var slots := s.blocks[c.block].slots;
    BlockLength(s, c.block);
    BlockBounds(c.index, s.b);
    var taken, wanted := slots[offset..offset + (c.stop - c.index)], s.items[c.index..c.stop];
    forall k | 0 <= k < |wanted| ensures taken[k] == wanted[k] {
      SameBlock(c.index, s.b, k);
      assert StoredAt(s.b, s.blocks, s.home, s.items, c.index + k);
    }
  }

  lemma RingBlocks<T>(s: State<T>, n: int)
    requires Inv(s) && |s.home| - s.used <= n < |s.home|
    ensures 0 <= n && s.home[n] < |s.blocks|
  {}

  lemma BlockLength<T>(s: State<T>, k: nat)
    requires Inv(s) && k < |s.blocks|
    ensures |s.blocks[k].slots| == s.b
  {}

  function Range(a: nat, c: nat): (r: set<nat>)
    ensures forall x :: x in r <==> a <= x < c
    ensures |r| == if a < c then c - a else 0
  {
    if a < c then Range(a, c - 1) + {c - 1} else {}
  }

  lemma RangeInBlock(processed: set<nat>, x: nat, stop: nat, b: nat, m: int)
    requires b > 0 && x <= stop <= BlockStart(x, b) + b && forall y :: x <= y < stop ==> y !in processed
    ensures |InBlock(processed + Range(x, stop), m, b)| ==
            |InBlock(processed, m, b)| + (if m == BlockOf(x, b) then stop - x else 0)
  {
    hide BlockOf, BlockStart;
    forall y: nat | x <= y < stop ensures BlockOf(y, b) == BlockOf(x, b) {
      SameBlock(x, b, y - x);
      assert x + (y - x) == y;
    }
    if m == BlockOf(x, b) {
      assert InBlock(processed + Range(x, stop), m, b) == InBlock(processed, m, b) + Range(x, stop);
      assert InBlock(processed, m, b) !! Range(x, stop);
    } else {
      assert InBlock(processed + Range(x, stop), m, b) == InBlock(processed, m, b);
    }
  }

  /** The state after a consumer has marked the part it took as processed. */
  function Marked<T>(s: State<T>, i: nat): State<T>
    requires i < |s.consumers| && s.consumers[i].Took? && s.consumers[i].block < |s.blocks|
    requires s.consumers[i].index <= s.consumers[i].stop && s.consumers[i].header < |s.views|
    requires s.views[s.consumers[i].header].size > 0
  {
    var c := s.consumers[i];
    var block := s.blocks[c.block];
    s.(blocks := s.blocks[c.block := block.(completed := block.completed + (c.stop - c.index))],
       consumers := s.consumers[i := if c.stop == c.end then Free
                                     else AtEntry(c.stop, c.end, c.header, Masked(c.slot + 1, s.views[c.header].size))],
       processed := s.processed + Range(c.index, c.stop))
  }

  /** Marking keeps the invariant; in particular a block never counts more than its size. */
  lemma MarkKeeps<T>(s: State<T>, i: nat)
    requires Inv(s) && i < |s.consumers| && s.consumers[i].Took? && s.used * s.b <= HALF
    ensures var c := s.consumers[i];
      && c.index < c.stop <= c.end && c.block < |s.blocks| && c.header < |s.views| && s.views[c.header].size > 0
      && Inv(Marked(s, i)) && Marked(s, i).blocks[c.block].completed <= s.b
  {
    hide RingOk, Serves, FrontIs, EntryAt, BlockOf, OffsetOf, BlockStart, PowerOfTwo, ContentsOk, IndexOk, CountsOk,
        ConsumersOk;
    var c := s.consumers[i];
    ConsumerNonEmpty(s, i);
    TookFacts(s, i);
    TakeReads(s, i);
    BlockLength(s, c.block);
    MarkKeepsRing(s, i);
    MarkKeepsContents(s, i);
    MarkKeepsCounts(s, i);
    MarkKeepsConsumers(s, i);
    var s' := Marked(s, i);
    CountAtMost(s', BlockOf(c.index, s.b));
  }

  lemma TookFacts<T>(s: State<T>, i: nat)
    requires Inv(s) && i < |s.consumers| && s.consumers[i].Took? && s.used * s.b <= HALF
    ensures var c := s.consumers[i];
      && c.index < c.stop <= c.end && c.block < |s.blocks| && c.header < |s.views| && s.views[c.header].size > 0
      && c.stop == Stop(c.index, c.end, s.b) && c.stop <= BlockStart(c.index, s.b) + s.b
      && 0 <= |s.home| - s.used <= BlockOf(c.index, s.b) < |s.home| && c.block == s.home[BlockOf(c.index, s.b)]
  {
    hide RingOk, IndexOk, ContentsOk, CountsOk, FrontIs, BlockOf, BlockStart;
    TakeReads(s, i);
    IntervalServed(s, i);
    assert ConsumerOk(s.b, s.views, s.head, s.consumers[i], s.home, s.processed);
    RingDifferent(s);
  }

  lemma MarkKeepsRing<T>(s: State<T>, i: nat)
    requires Inv(s) && i < |s.consumers| && s.consumers[i].Took? && s.consumers[i].block < |s.blocks|
    requires s.consumers[i].index <= s.consumers[i].stop && s.consumers[i].header < |s.views|
    requires s.views[s.consumers[i].header].size > 0
    ensures RingOk(s.b, Marked(s, i).blocks, s.tailBlock, s.used, s.home)
  {
    hide IndexOk, ContentsOk, CountsOk, ConsumersOk, Different, Masked, PowerOfTwo, Range, Linked;
    forall n | |s.home| - s.used <= n < |s.home| ensures Linked(Marked(s, i).blocks, s.used, s.home, n) {
      SameLinks(s.blocks, Marked(s, i).blocks, s.used, s.home, n);
    }
  }

  lemma SameLinks<T>(blocks: seq<Block<T>>, blocks': seq<Block<T>>, used: nat, home: seq<nat>, n: int)
    requires used <= |home| && |home| - used <= n < |home| && Linked(blocks, used, home, n)
    requires |blocks'| == |blocks| && forall k :: 0 <= k < |blocks| ==> blocks'[k].next == blocks[k].next
    ensures Linked(blocks', used, home, n)
  {}

  lemma MarkKeepsContents<T>(s: State<T>, i: nat)
    requires Inv(s) && i < |s.consumers| && s.consumers[i].Took? && s.consumers[i].block < |s.blocks|
    requires s.consumers[i].index <= s.consumers[i].stop && s.consumers[i].header < |s.views|
    requires s.views[s.consumers[i].header].size > 0
    ensures ContentsOk(s.b, Marked(s, i).blocks, s.tail, s.used, s.phase, s.home, s.items)
  {
    hide IndexOk, RingOk, CountsOk, ConsumersOk, Masked, BlockOf, OffsetOf;
    forall x | 0 <= x < s.tail && |s.home| - s.used <= BlockOf(x, s.b)
      ensures StoredAt(s.b, Marked(s, i).blocks, s.home, s.items, x)
    {
      assert StoredAt(s.b, s.blocks, s.home, s.items, x);
    }
  }

  lemma MarkKeepsCounts<T>(s: State<T>, i: nat)
    requires Inv(s) && i < |s.consumers| && s.consumers[i].Took? && s.used * s.b <= HALF
    requires s.consumers[i].index <= s.consumers[i].stop && s.consumers[i].header < |s.views|
    requires s.consumers[i].block < |s.blocks| && s.views[s.consumers[i].header].size > 0
    ensures var c := s.consumers[i];
      CountsOk(s.b, Marked(s, i).blocks, s.head, s.used, s.home, s.processed + Range(c.index, c.stop))
  {
    hide IndexOk, RingOk, ContentsOk, ConsumersOk, Masked, BlockOf, OffsetOf, BlockStart, InBlock, PowerOfTwo, Stop;
    var c := s.consumers[i];
    TookFacts(s, i);
    ConsumerNonEmpty(s, i);
    RingDifferent(s);
    Unprocessed(s, i);
    forall n | |s.home| - s.used <= n < |s.home|
      ensures Counted(s.b, Marked(s, i).blocks, s.home, s.processed + Range(c.index, c.stop), n)
    {
      assert Counted(s.b, s.blocks, s.home, s.processed, n);
      RangeInBlock(s.processed, c.index, c.stop, s.b, n);
    }
  }

  lemma Unprocessed<T>(s: State<T>, i: nat)
    requires Inv(s) && i < |s.consumers| && !s.consumers[i].Free?
    ensures forall x :: s.consumers[i].index <= x < s.consumers[i].end ==> x !in s.processed
  {
    assert ConsumerOk(s.b, s.views, s.head, s.consumers[i], s.home, s.processed);
  }

  lemma RingDifferent<T>(s: State<T>)
    requires Inv(s)
    ensures s.used <= |s.home| && Different(s.used, s.home)
  {}

  lemma MarkKeepsConsumers<T>(s: State<T>, i: nat)
    requires Inv(s) && i < |s.consumers| && s.consumers[i].Took? && s.used * s.b <= HALF
    requires s.consumers[i].index <= s.consumers[i].stop && s.consumers[i].header < |s.views|
    requires s.consumers[i].block < |s.blocks| && s.views[s.consumers[i].header].size > 0
    ensures var c := s.consumers[i];
      ConsumersOk(s.b, s.views, s.head, Marked(s, i).consumers, s.home, s.processed + Range(c.index, c.stop))
  {
    hide IndexOk, RingOk, ContentsOk, CountsOk, ConsumerOk, Masked, BlockOf, OffsetOf, BlockStart, PowerOfTwo,
        Stop, FrontIs,
      Covers, Range;
    var c, c' := s.consumers[i], Marked(s, i).consumers[i];
    TookFacts(s, i);
    ConsumerNonEmpty(s, i);
    AnyConsumer(s, i);
    var processed' := s.processed + Range(c.index, c.stop);
    forall j | 0 <= j < |s.consumers| && j != i
        ensures ConsumerOk(s.b, s.views, s.head, s.consumers[j], s.home, processed') {
      AnyConsumer(s, j);
      if j < i {
        assert Apart(s.consumers[j], c);
      } else {
        assert Apart(c, s.consumers[j]);
      }
      OthersUnprocessed(s.b, s.views, s.head, s.consumers[j], s.home, s.processed, c.index, c.stop);
    }
    if c.stop < c.end {
      NextSlot(s, i);
      RestUnprocessed(s.b, s.views, s.head, c, s.home, s.processed, c');
    } else {
      NobodyOk(s.b, s.views, s.head, s.home, processed');
    }
  }

  lemma NobodyOk(b: nat, views: seq<View>, head: nat, home: seq<nat>, processed: set<nat>)
    requires b > 0
    ensures ConsumerOk(b, views, head, Free, home, processed)
  {}

  lemma OthersUnprocessed(b: nat, views: seq<View>, head: nat, d: Consumer, home: seq<nat>, processed: set<nat>,
                          x: nat, stop: nat)
    requires b > 0 && ConsumerOk(b, views, head, d, home, processed)
    requires !d.Free? ==> stop <= d.index || d.end <= x
    ensures ConsumerOk(b, views, head, d, home, processed + Range(x, stop))
  {
    hide Covers, FrontIs, BlockOf, Stop;
  }

  lemma RestUnprocessed(b: nat, views: seq<View>, head: nat, c: Consumer, home: seq<nat>, processed: set<nat>,
      c': Consumer)
    requires b > 0 && c.Took? && c.stop < c.end && ConsumerOk(b, views, head, c, home, processed)
    requires c'.AtEntry? && c'.index == c.stop && c'.end == c.end && Covers(b, views, c'.header, c'.index, c'.end)
    requires FrontIs(views[c'.header], c'.slot, BlockOf(c'.index, b)) && c.index <= c.stop
    ensures ConsumerOk(b, views, head, c', home, processed + Range(c.index, c.stop))
  {
    hide Covers, FrontIs, BlockOf, Stop;
  }

  /** The entry after the current one is that of the next block. */
  lemma NextSlot<T>(s: State<T>, i: nat)
    requires Inv(s) && i < |s.consumers| && s.consumers[i].Took? && s.used * s.b <= HALF
    requires s.consumers[i].stop < s.consumers[i].end
    ensures var c := s.consumers[i];
      && c.header < |s.views| && s.views[c.header].size > 0
      && Covers(s.b, s.views, c.header, c.stop, c.end)
      && FrontIs(s.views[c.header], Masked(c.slot + 1, s.views[c.header].size), BlockOf(c.stop, s.b))
  {
    hide IndexOk, RingOk, ContentsOk, CountsOk, Masked, BlockOf, OffsetOf, BlockStart, PowerOfTwo;
    var c := s.consumers[i];
    TookFacts(s, i);
    assert ConsumerOk(s.b, s.views, s.head, c, s.home, s.processed);
    var v := s.views[c.header];
    HeaderSize(s, c.header);
    BlockBounds(c.index, s.b);
    NextBlock(c.index, s.b);
    ModShift(BlockOf(c.index, s.b) + v.shift, 1, v.size);
  }

  lemma NextBlock(x: int, b: nat)
    requires b > 0
    ensures BlockOf(BlockStart(x, b) + b, b) == BlockOf(x, b) + 1
  {
    hide BlockOf;
    BlockIs(BlockStart(x, b) + b, b, BlockOf(x, b) + 1, 0);
  }

  lemma HeaderSize<T>(s: State<T>, h: nat)
    requires Inv(s) && h < |s.views|
    ensures h < |s.headers| && 0 < s.views[h].size == s.headers[h].size == |s.headers[h].entries| <= WORD
    ensures PowerOfTwo(s.views[h].size)
  {
    hide RingOk, ContentsOk, CountsOk, ConsumersOk, PowerOfTwo, EntryAt, FrontIs;
    assert Serves(s.b, s.home, s.headers[h], s.views[h]);
  }

  lemma {:induction false} SubsetSize(a: set<nat>, c: set<nat>)
    requires a <= c
    ensures |a| <= |c| && (|a| == |c| ==> a == c)
  {
    if a == {} {
    } else {
      var x :| x in a;
      SubsetSize(a - {x}, c - {x});
    }
  }

  /** The elements of block `n` that are processed, out of the `b` it has. */
  lemma CountAtMost<T>(s: State<T>, n: nat)
    requires Inv(s) && |s.home| - s.used <= n < |s.home|
    ensures s.home[n] < |s.blocks| && s.blocks[s.home[n]].completed <= s.b
    ensures s.blocks[s.home[n]].completed == s.b ==> forall x: nat :: BlockOf(x, s.b) == n ==> x in s.processed
  {
    hide RingOk, ContentsOk, IndexOk, ConsumersOk, PowerOfTwo, BlockOf, OffsetOf, BlockStart;
    assert Counted(s.b, s.blocks, s.home, s.processed, n);
    var all := Range(n * s.b, n * s.b + s.b);
    forall x: nat | BlockOf(x, s.b) == n ensures x in all {
      BlockBounds(x, s.b);
    }
    SubsetSize(InBlock(s.processed, n, s.b), all);
  }

  // --------------------------------------------------------------------- producer steps

  predicate CanReuse<T>(s: State<T>) {
    && s.tailBlock.At? && s.tailBlock.id < |s.blocks|
    && var next := s.blocks[s.tailBlock.id].next; next < |s.blocks| && s.blocks[next].completed == s.b
  }

  /** The block after the tail block is empty: it becomes the tail block. */
  function Reused<T>(s: State<T>): State<T>
    requires CanReuse(s) && s.views != []
  {
    var next, last := s.blocks[s.tailBlock.id].next, |s.views| - 1;
    s.(blocks := s.blocks[next := s.blocks[next].(completed := 0)], tailBlock := At(next), phase := Picked,
       home := s.home + [next], views := s.views[last := s.views[last].(lo := s.views[last].lo + 1)])
  }

  /** The block that follows the tail block is the oldest of the ring. */
  lemma NextIsOldest<T>(s: State<T>)
    requires Inv(s) && s.home != []
    ensures 0 < s.used <= |s.home| && s.tailBlock == At(s.home[|s.home| - 1]) && s.tailBlock.id < |s.blocks|
    ensures s.blocks[s.tailBlock.id].next == s.home[|s.home| - s.used] < |s.blocks| && s.views != []
  {
    hide IndexOk, ContentsOk, CountsOk, ConsumersOk, PowerOfTwo;
    assert Linked(s.blocks, s.used, s.home, |s.home| - 1);
    assert |s.views| > 0 by { SomeView(s); }
  }

  lemma SomeView<T>(s: State<T>)
    requires Inv(s)
    ensures |s.views| == |s.headers| > 0
  {}

  /** At a block boundary every started block is full. */
  lemma FullBlocks<T>(s: State<T>)
    requires Inv(s) && s.phase.Ready? && OffsetOf(s.tail, s.b) == 0
    ensures s.tail == |s.home| * s.b
  {
    hide RingOk, IndexOk, CountsOk, ConsumersOk, PowerOfTwo, BlockOf, OffsetOf, BlockStart;
    BlockBounds(s.tail, s.b);
    BlockIs(s.tail + s.b - 1, s.b, BlockOf(s.tail, s.b), s.b - 1);
  }

  /** A block is reused only when all of its elements are processed. */
  lemma ReuseKeeps<T>(s: State<T>)
    requires Inv(s) && s.phase.Ready? && OffsetOf(s.tail, s.b) == 0 && CanReuse(s)
    ensures s.views != [] && s.used > 0
    ensures forall x: nat :: BlockOf(x, s.b) <= |s.home| - s.used ==> x in s.processed
    ensures Inv(Reused(s))
  {
    hide RingOk, IndexOk, ContentsOk, CountsOk, ConsumersOk, PowerOfTwo, BlockOf, OffsetOf, BlockStart;
    assert s.home != [] by { RingNonEmpty(s); }
    NextIsOldest(s);
    CountAtMost(s, |s.home| - s.used);
    OldestProcessed(s);
    FullBlocks(s);
    ReuseKeepsRing(s);
    ReuseKeepsIndex(s);
    ReuseKeepsContents(s);
    ReuseKeepsCounts(s);
    ReuseKeepsConsumers(s);
  }

  lemma RingNonEmpty<T>(s: State<T>)
    requires Inv(s) && s.tailBlock.At?
    ensures s.home != []
  {}

  lemma OldestProcessed<T>(s: State<T>)
    requires Inv(s) && s.home != [] && forall x: nat :: BlockOf(x, s.b) == |s.home| - s.used ==> x in s.processed
    ensures forall x: nat :: BlockOf(x, s.b) <= |s.home| - s.used ==> x in s.processed
  {
    hide RingOk, IndexOk, ContentsOk, ConsumersOk, PowerOfTwo, BlockOf;
  }

  /** All elements of the oldest block of the ring are processed. */
  ghost predicate OldestDone<T>(s: State<T>) {
    s.b > 0 && s.home != [] && forall x: nat :: BlockOf(x, s.b) == |s.home| - s.used ==> x in s.processed
  }

  /** The empty block ahead is recognised: it can be reused exactly if all its elements are processed. */
  lemma ReusableIff<T>(s: State<T>)
    requires Inv(s)
    ensures CanReuse(s) <==> OldestDone(s)
  {
    hide RingOk, IndexOk, ContentsOk, CountsOk, ConsumersOk, PowerOfTwo, BlockOf;
    Positive(s);
    TailIsLast(s);
    if s.home != [] {
      NextIsOldest(s);
      var n := |s.home| - s.used;
      CountAtMost(s, n);
      if OldestDone(s) {
        FullCount(s, n);
      }
    }
  }

  lemma TailIsLast<T>(s: State<T>)
    requires Inv(s)
    ensures s.tailBlock.At? <==> s.home != []
  {}

  lemma FullCount<T>(s: State<T>, n: nat)
    requires Inv(s) && |s.home| - s.used <= n < |s.home|
    requires forall x: nat :: BlockOf(x, s.b) == n ==> x in s.processed
    ensures s.home[n] < |s.blocks| && s.blocks[s.home[n]].completed >= s.b
  {
    hide RingOk, ContentsOk, IndexOk, ConsumersOk, PowerOfTwo, BlockOf;
    assert Counted(s.b, s.blocks, s.home, s.processed, n);
    var all := Range(n * s.b, n * s.b + s.b);
    forall x | x in all ensures x in InBlock(s.processed, n, s.b) {
      BlockIs(x, s.b, n, x - n * s.b);
    }
    SubsetSize(all, InBlock(s.processed, n, s.b));
  }

  /** The producer takes new memory only if it has to: a block when the oldest one is still being read, a larger index
      when besides the index is full. */
  lemma GrowsOnlyIfNeeded<T>(s: State<T>, x: T, entries: seq<Entry>, slots: seq<T>, s': State<T>)
    requires Inv(s) && ProducerMoves(s, x, entries, slots, s')
    ensures |s'.blocks| == |s.blocks| +
      (if s.phase.Ready? && OffsetOf(s.tail, s.b) == 0 && !OldestDone(s) && s.used < s.size then 1 else 0)
    ensures |s'.headers| == |s.headers| +
      (if s.phase.Ready? && OffsetOf(s.tail, s.b) == 0 && !OldestDone(s) && s.used == s.size then 1 else 0)
  {
    ReusableIff(s);
    hide Inv, CanReuse, OldestDone, OffsetOf, Unrolled, PowerOfTwo, Masked;
  }

  lemma ReuseKeepsRing<T>(s: State<T>)
    requires Inv(s) && CanReuse(s) && s.views != []
    ensures RingOk(s.b, Reused(s).blocks, Reused(s).tailBlock, s.used, Reused(s).home)
  {
    hide IndexOk, ContentsOk, CountsOk, ConsumersOk, PowerOfTwo;
    RingNonEmpty(s);
    NextIsOldest(s);
    var s' := Reused(s);
    forall n | |s'.home| - s.used <= n < |s'.home| ensures Linked(s'.blocks, s.used, s'.home, n) {
      assert Linked(s.blocks, s.used, s.home, if n < |s.home| then n else |s.home| - s.used);
    }
  }

  lemma ServesExtended(b: nat, home: seq<nat>, home': seq<nat>, hd: Header, v: View)
    requires Serves(b, home, hd, v) && home <= home'
    ensures Serves(b, home', hd, v)
  {
    hide PowerOfTwo;
    forall n | v.lo <= n < v.hi ensures EntryAt(b, home', hd, v, n) {
      assert EntryAt(b, home, hd, v, n);
    }
  }

  lemma ServesLess(b: nat, home: seq<nat>, hd: Header, v: View)
    requires Serves(b, home, hd, v) && v.lo < v.hi
    ensures Serves(b, home, hd, v.(lo := v.lo + 1))
  {
    hide PowerOfTwo;
    var v' := v.(lo := v.lo + 1);
    forall n | v'.lo <= n < v'.hi ensures EntryAt(b, home, hd, v', n) {
      assert EntryAt(b, home, hd, v, n);
    }
  }

  lemma ReuseKeepsIndex<T>(s: State<T>)
    requires Inv(s) && s.phase.Ready? && CanReuse(s) && s.views != []
    ensures var s' := Reused(s); IndexOk(s.b, s.headers, s'.views, s.used, s.size, s.front, s'.phase, s'.home)
  {
    RingNonEmpty(s);
    NextIsOldest(s);
    hide RingOk, Serves, EntryAt, ContentsOk, CountsOk, ConsumersOk, PowerOfTwo;
    var s', last := Reused(s), |s.views| - 1;
    forall h | 0 <= h < |s.views| ensures Serves(s.b, s'.home, s.headers[h], s'.views[h]) {
      ServesExtended(s.b, s.home, s'.home, s.headers[h], s.views[h]);
      if h == last {
        ServesLess(s.b, s'.home, s.headers[h], s.views[h]);
      }
    }
  }

  lemma ReuseKeepsContents<T>(s: State<T>)
    requires Inv(s) && s.phase.Ready? && OffsetOf(s.tail, s.b) == 0 && CanReuse(s) && s.views != []
    ensures var s' := Reused(s); ContentsOk(s.b, s'.blocks, s.tail, s.used, s'.phase, s'.home, s.items)
  {
    FullBlocks(s);
    hide RingOk, IndexOk, CountsOk, ConsumersOk, PowerOfTwo, BlockOf, OffsetOf;
    var s' := Reused(s);
    forall x | 0 <= x < s.tail && |s'.home| - s.used <= BlockOf(x, s.b)
      ensures StoredAt(s.b, s'.blocks, s'.home, s.items, x)
    {
      assert StoredAt(s.b, s.blocks, s.home, s.items, x);
    }
  }

  /** Nothing of a block that starts at the tail is processed yet. */
  lemma NewBlockUnprocessed<T>(s: State<T>)
    requires Inv(s) && s.tail == |s.home| * s.b
    ensures InBlock(s.processed, |s.home|, s.b) == {}
  {
    hide RingOk, IndexOk, ContentsOk, ConsumersOk, PowerOfTwo, BlockOf;
    forall x | x in s.processed ensures BlockOf(x, s.b) != |s.home| {
      BlockBounds(x, s.b);
    }
  }

  lemma ReuseKeepsCounts<T>(s: State<T>)
    requires Inv(s) && CanReuse(s) && s.views != [] && s.home != [] && s.tail == |s.home| * s.b
    requires forall x: nat :: BlockOf(x, s.b) <= |s.home| - s.used ==> x in s.processed
    ensures var s' := Reused(s); CountsOk(s.b, s'.blocks, s.head, s.used, s'.home, s.processed)
  {
    NextIsOldest(s);
    NewBlockUnprocessed(s);
    RingDifferent(s);
    hide RingOk, IndexOk, ContentsOk, ConsumersOk, PowerOfTwo, BlockOf, InBlock;
    var s' := Reused(s);
    forall n | |s'.home| - s.used <= n < |s'.home| ensures Counted(s.b, s'.blocks, s'.home, s.processed, n) {
      if n < |s.home| {
        assert Counted(s.b, s.blocks, s.home, s.processed, n);
      }
    }
  }

  /** A later view still serves block `n`. */
  predicate StillServes(v: View, v': View, n: int) {
    v'.shift == v.shift && v'.size == v.size && v.hi <= v'.hi && (v'.lo <= v.lo || v'.lo <= n)
  }

  lemma ConsumerCarries(b: nat, views: seq<View>, views': seq<View>, head: nat, c: Consumer,
                        home: seq<nat>, home': seq<nat>, processed: set<nat>)
    requires b > 0 && ConsumerOk(b, views, head, c, home, processed) && home <= home' && |views| <= |views'|
    requires !c.Free? ==> forall h :: 0 <= h < |views| ==> StillServes(views[h], views'[h], BlockOf(c.index, b))
    ensures ConsumerOk(b, views', head, c, home', processed)
  {
    hide BlockOf, Stop;
    if c.HasFront? {
      assert StillServes(views[c.header], views'[c.header], BlockOf(c.index, b));
      var m {:trigger FrontIs(views[c.header], c.front, m)} :|
        BlockOf(c.index, b) <= m < views[c.header].hi && FrontIs(views[c.header], c.front, m);
      assert FrontIs(views'[c.header], c.front, m);
    }
  }

  lemma ConsumersCarry<T>(s: State<T>, views': seq<View>, home': seq<nat>)
    requires Inv(s) && s.home <= home' && |s.views| <= |views'|
    requires forall h, n ::
      0 <= h < |s.views| && |s.home| - s.used <= n && (exists x: nat :: BlockOf(x, s.b) == n && x !in s.processed) ==>
      StillServes(s.views[h], views'[h], n)
    ensures ConsumersOk(s.b, views', s.head, s.consumers, home', s.processed)
  {
    hide RingOk, IndexOk, ContentsOk, CountsOk, PowerOfTwo, BlockOf, StillServes;
    forall i | 0 <= i < |s.consumers| ensures ConsumerOk(s.b, views', s.head, s.consumers[i], home', s.processed) {
      var c := s.consumers[i];
      assert ConsumerOk(s.b, s.views, s.head, c, s.home, s.processed);
      if !c.Free? {
        IntervalServed(s, i);
        assert c.index !in s.processed;
      }
      ConsumerCarries(s.b, s.views, views', s.head, c, s.home, home', s.processed);
    }
  }

  lemma ReuseKeepsConsumers<T>(s: State<T>)
    requires Inv(s) && CanReuse(s) && s.views != [] && s.home != []
    requires forall x: nat :: BlockOf(x, s.b) <= |s.home| - s.used ==> x in s.processed
    ensures var s' := Reused(s); ConsumersOk(s.b, s'.views, s.head, s.consumers, s'.home, s.processed)
  {
    hide RingOk, IndexOk, ContentsOk, CountsOk, ConsumersOk, PowerOfTwo, BlockOf;
    CurrentLow(s);
    ConsumersCarry(s, Reused(s).views, Reused(s).home);
  }

  lemma CurrentLow<T>(s: State<T>)
    requires Inv(s)
    ensures s.views != [] && s.views[|s.views| - 1].lo == |s.home| - s.used
  {}

  /** A new index of twice the size, with the old entries first, oldest first. */
  function Expanded<T>(s: State<T>, entries: seq<Entry>): State<T>
    requires s.used <= |s.home|
  {
    s.(headers := s.headers + [Header(2 * s.size, Wrap(s.used - 1), entries)],
       views := s.views + [View(s.used - |s.home|, |s.home| - s.used, |s.home|, 2 * s.size)],
       size := 2 * s.size, front := s.used)
  }

  /** `copy` starts with the `used` entries that end before `front` in the circular `entries`. */
  ghost predicate Unrolled(entries: seq<Entry>, front: nat, used: nat, copy: seq<Entry>) {
    |entries| > 0 && used <= |copy| && forall k :: 0 <= k < used ==> copy[k] == entries[(front - used + k) % |entries|]
  }

  lemma DoubledPower(size: nat)
    requires PowerOfTwo(size)
    ensures PowerOfTwo(2 * size)
  {
    var k: nat :| size == Power2(k);
    assert Power2(k + 1) == 2 * size;
  }

  lemma SameSlot(front: nat, used: nat, hi: int, shift: int, n: int, size: nat)
    requires size > 0 && front == (hi + shift) % size
    ensures (front - used + (n - (hi - used))) % size == (n + shift) % size
  {
    ModShift(hi + shift, n - hi, size);
    assert front - used + (n - (hi - used)) == front + (n - hi);
  }

  lemma ExpandedEntry(b: nat, home: seq<nat>, hd: Header, v: View, used: nat, front: nat, hd': Header, v': View, n: int)
    requires Serves(b, home, hd, v) && used <= |home| && v.lo == |home| - used && v.hi == |home|
    requires FrontIs(v, front, v.hi)
    requires |hd'.entries| == 2 * hd.size && v' == View(used - |home|, |home| - used, |home|, 2 * hd.size)
    requires Unrolled(hd.entries, front, used, hd'.entries) && v'.lo <= n < v'.hi
    ensures EntryAt(b, home, hd', v', n)
  {
    hide PowerOfTwo;
    assert EntryAt(b, home, hd, v, n);
    ModIs(n + v'.shift, v'.size, 0, n + v'.shift);
    SameSlot(front, used, v.hi, v.shift, n, v.size);
    assert hd'.entries[n - v'.lo] == hd.entries[(front - used + (n - v'.lo)) % |hd.entries|];
  }

  lemma ExpandedServes(b: nat, home: seq<nat>, hd: Header, v: View, used: nat, front: nat, hd': Header, v': View)
    requires Serves(b, home, hd, v) && used <= |home| && v.lo == |home| - used && v.hi == |home|
    requires FrontIs(v, front, v.hi)
    requires hd'.size == 2 * hd.size == |hd'.entries| <= WORD && Spans(b, hd'.size) && hd'.front == Wrap(used - 1)
    requires v' == View(used - |home|, |home| - used, |home|, 2 * hd.size)
    requires Unrolled(hd.entries, front, used, hd'.entries)
    ensures Serves(b, home, hd', v') && FrontIs(v', used, v'.hi)
  {
    DoubledPower(hd.size);
    hide PowerOfTwo, Wrap, Unrolled, EntryAt;
    forall n | v'.lo <= n < v'.hi ensures EntryAt(b, home, hd', v', n) {
      ExpandedEntry(b, home, hd, v, used, front, hd', v', n);
    }
    ModIs(used, v'.size, 0, used);
    if used > 0 {
      ModIs(used - 1, v'.size, 0, used - 1);
      SmallWrap(used - 1);
    }
  }

  lemma SmallWrap(x: nat)
    requires x < WORD
    ensures Wrap(x) == x
  {}

  lemma SpanFits(b: nat, size: nat)
    requires b > 0 && Spans(b, size)
    ensures size <= WORD
  {
    MulAtMost(0, b - 1, size);
    assert size * b == (b - 1) * size + size;
  }

  /** If the ring is full, doubling the index keeps its span: the ring holds at most half the index range. */
  lemma DoubledSpan(b: nat, used: nat)
    requires used * b <= HALF
    ensures Spans(b, 2 * used)
  {
    assert (2 * used) * b == 2 * (used * b);
  }

  lemma ExpandKeeps<T>(s: State<T>, entries: seq<Entry>)
    requires Inv(s) && s.phase.Ready? && Spans(s.b, 2 * s.size) && |entries| == 2 * s.size && s.headers != []
    requires Unrolled(s.headers[|s.headers| - 1].entries, s.front, s.used, entries)
    ensures s.used <= |s.home| && Inv(Expanded(s, entries))
  {
    hide RingOk, Serves, ContentsOk, CountsOk, ConsumersOk, PowerOfTwo, BlockOf, Wrap, FrontIs, Unrolled, EntryAt;
    RingDifferent(s);
    Positive(s);
    SpanFits(s.b, 2 * s.size);
    var s', last := Expanded(s, entries), |s.views| - 1;
    ExpandedServes(s.b, s.home, s.headers[last], s.views[last], s.used, s.front, s'.headers[last + 1],
        s'.views[last + 1]);
    ConsumersCarry(s, s'.views, s.home);
  }

  /** A new block is linked in after the tail block, and becomes it. */
  function Inserted<T>(s: State<T>, slots: seq<T>): State<T>
    requires s.tailBlock.At? ==> s.tailBlock.id < |s.blocks|
  {
    var id := |s.blocks|;
    s.(blocks := if s.tailBlock.Null? then s.blocks + [Block(id, 0, slots)]
                 else s.blocks[s.tailBlock.id := s.blocks[s.tailBlock.id].(next := id)]
                      + [Block(s.blocks[s.tailBlock.id].next, 0, slots)],
       tailBlock := At(id), used := s.used + 1, phase := Picked, home := s.home + [id])
  }

  lemma InsertKeeps<T>(s: State<T>, slots: seq<T>)
    requires Inv(s) && s.phase.Ready? && OffsetOf(s.tail, s.b) == 0 && s.used < s.size && |slots| == s.b
    ensures (s.tailBlock.At? ==> s.tailBlock.id < |s.blocks|) && Inv(Inserted(s, slots))
  {
    hide RingOk, IndexOk, ContentsOk, CountsOk, ConsumersOk, PowerOfTwo, BlockOf, OffsetOf, BlockStart;
    if s.tailBlock.At? {
      RingNonEmpty(s);
      NextIsOldest(s);
    }
    FullBlocks(s);
    InsertKeepsRing(s, slots);
    InsertKeepsIndex(s, slots);
    InsertKeepsContents(s, slots);
    InsertKeepsCounts(s, slots);
    ConsumersCarry(s, s.views, s.home + [|s.blocks|]);
  }

  lemma InsertKeepsRing<T>(s: State<T>, slots: seq<T>)
    requires Inv(s) && |slots| == s.b && (s.tailBlock.At? ==> s.tailBlock.id < |s.blocks|)
    ensures var s' := Inserted(s, slots); RingOk(s.b, s'.blocks, s'.tailBlock, s'.used, s'.home)
  {
    hide IndexOk, ContentsOk, CountsOk, ConsumersOk, PowerOfTwo, Different, Linked;
    var s' := Inserted(s, slots);
    forall n | |s'.home| - s'.used <= n < |s'.home| ensures Linked(s'.blocks, s'.used, s'.home, n) {
      InsertedLinked(s, slots, n);
    }
    StillDifferent(s.used, s.home, |s.blocks|);
  }

  lemma InsertedLinked<T>(s: State<T>, slots: seq<T>, n: nat)
    requires Inv(s) && (s.tailBlock.At? ==> s.tailBlock.id < |s.blocks|)
    requires s.used <= |s.home| && |s.home| - s.used <= n <= |s.home|
    ensures var s' := Inserted(s, slots); Linked(s'.blocks, s'.used, s'.home, n)
  {
    hide IndexOk, ContentsOk, CountsOk, ConsumersOk, PowerOfTwo, Different;
    if s.home != [] {
      NextIsOldest(s);
    }
    if n < |s.home| {
      assert Linked(s.blocks, s.used, s.home, n);
      NotTheLast(s.used, s.home, n);
    }
  }

  lemma NotTheLast(used: nat, home: seq<nat>, n: nat)
    requires used <= |home| && Different(used, home) && |home| - used <= n < |home|
    ensures n < |home| - 1 ==> home[n] != home[|home| - 1]
  {}

  lemma StillDifferent(used: nat, home: seq<nat>, id: nat)
    requires used <= |home| && Different(used, home)
    requires forall n :: |home| - used <= n < |home| ==> home[n] < id
    ensures Different(used + 1, home + [id])
  {}

  lemma InsertKeepsIndex<T>(s: State<T>, slots: seq<T>)
    requires Inv(s) && s.phase.Ready? && s.used < s.size && (s.tailBlock.At? ==> s.tailBlock.id < |s.blocks|)
    ensures var s' := Inserted(s, slots); IndexOk(s.b, s.headers, s.views, s'.used, s.size, s.front, s'.phase, s'.home)
  {
    hide RingOk, Serves, EntryAt, ContentsOk, CountsOk, ConsumersOk, PowerOfTwo;
    var s' := Inserted(s, slots);
    forall h | 0 <= h < |s.views| ensures Serves(s.b, s'.home, s.headers[h], s.views[h]) {
      ServesExtended(s.b, s.home, s'.home, s.headers[h], s.views[h]);
    }
  }

  lemma InsertKeepsContents<T>(s: State<T>, slots: seq<T>)
    requires Inv(s) && s.phase.Ready? && s.tail == |s.home| * s.b && (s.tailBlock.At? ==> s.tailBlock.id < |s.blocks|)
    ensures var s' := Inserted(s, slots); ContentsOk(s.b, s'.blocks, s.tail, s'.used, s'.phase, s'.home, s.items)
  {
    hide RingOk, IndexOk, CountsOk, ConsumersOk, PowerOfTwo, BlockOf, OffsetOf;
    var s' := Inserted(s, slots);
    forall x | 0 <= x < s.tail && |s'.home| - s'.used <= BlockOf(x, s.b)
      ensures StoredAt(s.b, s'.blocks, s'.home, s.items, x)
    {
      assert StoredAt(s.b, s.blocks, s.home, s.items, x);
    }
  }

  lemma InsertKeepsCounts<T>(s: State<T>, slots: seq<T>)
    requires Inv(s) && s.tail == |s.home| * s.b && (s.tailBlock.At? ==> s.tailBlock.id < |s.blocks|)
    ensures var s' := Inserted(s, slots); CountsOk(s.b, s'.blocks, s.head, s'.used, s'.home, s.processed)
  {
    NewBlockUnprocessed(s);
    hide RingOk, IndexOk, ContentsOk, ConsumersOk, PowerOfTwo, BlockOf, InBlock;
    var s' := Inserted(s, slots);
    forall n | |s'.home| - s'.used <= n < |s'.home| ensures Counted(s.b, s'.blocks, s'.home, s.processed, n) {
      if n < |s.home| {
        assert Counted(s.b, s.blocks, s.home, s.processed, n);
      }
    }
  }

  /** The entry of the block that is being started. */
  function EntryWritten<T>(s: State<T>): State<T>
    requires s.headers != [] && s.tailBlock.At? && s.front < |s.headers[|s.headers| - 1].entries|
  {
    var last := |s.headers| - 1;
    var hd := s.headers[last];
    s.(headers := s.headers[last := hd.(entries := hd.entries[s.front := Entry(s.tail, s.tailBlock.id)])],
        phase := Written)
  }

  lemma WrittenServes(b: nat, home: seq<nat>, hd: Header, v: View, front: nat)
    requires Serves(b, home, hd, v) && FrontIs(v, front, v.hi) && v.hi - v.lo < hd.size && v.hi < |home|
    ensures front < |hd.entries|
    ensures var hd' := hd.(entries := hd.entries[front := Entry(v.hi * b, home[v.hi])]);
      Serves(b, home, hd', v) && EntryAt(b, home, hd', v, v.hi)
  {
    hide PowerOfTwo;
    var hd' := hd.(entries := hd.entries[front := Entry(v.hi * b, home[v.hi])]);
    forall n | v.lo <= n < v.hi ensures EntryAt(b, home, hd', v, n) {
      assert EntryAt(b, home, hd, v, n);
      ModDistinct(v.hi + v.shift, n + v.shift, v.size);
    }
  }

  lemma WriteKeeps<T>(s: State<T>)
    requires Inv(s) && s.phase.Picked?
    ensures s.headers != [] && s.tailBlock.At? && s.front < |s.headers[|s.headers| - 1].entries|
    ensures Inv(EntryWritten(s))
  {
    hide RingOk, ContentsOk, CountsOk, ConsumersOk, PowerOfTwo, BlockOf, OffsetOf, EntryAt, Serves, FrontIs;
    TailBase(s);
    var last := |s.headers| - 1;
    assert |s.headers| == |s.views| && CurrentOk(s.b, s.headers[last], s.views[last], s.used, s.size, s.front,
        s.phase, s.home);
    WrittenServes(s.b, s.home, s.headers[last], s.views[last], s.front);
    StartedBlockKeepsContents(s);
  }

  /** Starting a block goes on without touching the elements. */
  lemma StartedBlockKeepsContents<T>(s: State<T>)
    requires Inv(s) && !s.phase.Ready?
    ensures ContentsOk(s.b, s.blocks, s.tail, s.used, Written, s.home, s.items)
    ensures ContentsOk(s.b, s.blocks, s.tail, s.used, Begun, s.home, s.items)
  {
    hide RingOk, IndexOk, CountsOk, ConsumersOk, PowerOfTwo, BlockOf, OffsetOf, StoredAt;
  }

  lemma TailBase<T>(s: State<T>)
    requires Inv(s) && !s.phase.Ready?
    ensures s.home != [] && s.tail == (|s.home| - 1) * s.b && s.tailBlock == At(s.home[|s.home| - 1])
    ensures 0 < s.used <= |s.home| && s.headers != [] && s.views != []
  {
    hide Serves, CountsOk, ConsumersOk, PowerOfTwo, BlockOf, OffsetOf, StoredAt, Different;
  }

  /** The new entry becomes the front. */
  function FrontPublished<T>(s: State<T>): State<T>
    requires s.headers != [] && s.size > 0 && s.views != [] && s.front < WORD
  {
    var last, lastView := |s.headers| - 1, |s.views| - 1;
    s.(headers := s.headers[last := s.headers[last].(front := s.front)],
       views := s.views[lastView := s.views[lastView].(hi := s.views[lastView].hi + 1)],
       front := Masked(s.front + 1, s.size), phase := Begun)
  }

  lemma PublishedServes(b: nat, home: seq<nat>, hd: Header, v: View, front: Word)
    requires Serves(b, home, hd, v) && FrontIs(v, front, v.hi) && v.hi - v.lo < hd.size && EntryAt(b, home, hd, v, v.hi)
    ensures var hd', v' := hd.(front := front), v.(hi := v.hi + 1);
      Serves(b, home, hd', v') && FrontIs(v', Masked(front + 1, hd.size), v'.hi)
  {
    ModShift(v.hi + v.shift, 1, v.size);
    hide PowerOfTwo, Masked;
    var hd', v' := hd.(front := front), v.(hi := v.hi + 1);
    forall n | v'.lo <= n < v'.hi ensures EntryAt(b, home, hd', v', n) {
      assert EntryAt(b, home, hd, v, n);
    }
  }

  lemma FrontFits(b: nat, home: seq<nat>, hd: Header, v: View, front: nat)
    requires Serves(b, home, hd, v) && FrontIs(v, front, v.hi)
    ensures front < hd.size <= WORD && hd.size > 0
  {
    hide PowerOfTwo, EntryAt;
  }

  lemma PublishKeeps<T>(s: State<T>)
    requires Inv(s) && s.phase.Written?
    ensures s.headers != [] && s.size > 0 && s.views != [] && s.front < WORD && Inv(FrontPublished(s))
  {
    hide RingOk, ContentsOk, CountsOk, ConsumersOk, PowerOfTwo, BlockOf, OffsetOf, Masked, EntryAt, Serves, FrontIs;
    TailBase(s);
    var last := |s.headers| - 1;
    assert |s.headers| == |s.views| && CurrentOk(s.b, s.headers[last], s.views[last], s.used, s.size, s.front,
        s.phase, s.home);
    FrontFits(s.b, s.home, s.headers[last], s.views[last], s.front);
    PublishedServes(s.b, s.home, s.headers[last], s.views[last], s.front);
    StartedBlockKeepsContents(s);
    ConsumersCarry(s, FrontPublished(s).views, s.home);
  }

  /** The element is constructed in its slot and the tail moves past it. */
  function Committed<T>(s: State<T>, x: T): State<T>
    requires s.b > 0 && s.tailBlock.At? && s.tailBlock.id < |s.blocks|
    requires OffsetOf(s.tail, s.b) < |s.blocks[s.tailBlock.id].slots|
  {
    var block := s.blocks[s.tailBlock.id];
    s.(blocks := s.blocks[s.tailBlock.id := block.(slots := block.slots[OffsetOf(s.tail, s.b) := x])],
       tail := s.tail + 1, items := s.items + [x], phase := Ready)
  }

  predicate CanCommit<T>(s: State<T>)
    requires s.b > 0
  {
    s.phase.Begun? || (s.phase.Ready? && OffsetOf(s.tail, s.b) != 0)
  }

  /** The tail index lies in the tail block. */
  lemma TailInBlock<T>(s: State<T>)
    requires Inv(s) && CanCommit(s)
    ensures s.home != [] && BlockOf(s.tail, s.b) == |s.home| - 1 && s.tailBlock == At(s.home[|s.home| - 1])
    ensures s.tailBlock.id < |s.blocks| && |s.blocks[s.tailBlock.id].slots| == s.b
    ensures 0 < s.used <= |s.home| && BlockOf(s.tail + s.b, s.b) == |s.home|
  {
    hide IndexOk, CountsOk, ConsumersOk, PowerOfTwo, BlockOf, OffsetOf, StoredAt, Different, Linked;
    TailNumber(s.tail, s.b, |s.home|, s.phase.Ready?);
  }

  /** The number of the tail's block, given that of all blocks, inside a block and at the start of a new one. */
  lemma TailNumber(tail: nat, b: nat, n: nat, inside: bool)
    requires b > 0
    requires if inside then OffsetOf(tail, b) != 0 && n == BlockOf(tail + b - 1, b) else tail == (n - 1) * b
    ensures BlockOf(tail, b) == n - 1 && BlockOf(tail + b, b) == n
  {
    hide BlockOf, OffsetOf;
    BlockBounds(tail, b);
    var m, r := BlockOf(tail, b), OffsetOf(tail, b);
    if inside {
      BlockIs(tail + b - 1, b, m + 1, r - 1);
    } else {
      BlockIs(tail, b, n - 1, 0);
    }
    BlockIs(tail + b, b, BlockOf(tail, b) + 1, r);
  }

  lemma CommitKeeps<T>(s: State<T>, x: T)
    requires Inv(s) && CanCommit(s)
    ensures s.tailBlock.At? && s.tailBlock.id < |s.blocks| && OffsetOf(s.tail, s.b) < |s.blocks[s.tailBlock.id].slots|
    ensures Inv(Committed(s, x))
  {
    TailInBlock(s);
    hide Serves, CountsOk, ConsumersOk, PowerOfTwo, BlockOf, OffsetOf, StoredAt, Different, Linked;
    CommitKeepsRing(s, x);
    CommitKeepsContents(s, x);
    CommitKeepsCounts(s, x);
  }

  lemma CommitKeepsRing<T>(s: State<T>, x: T)
    requires Inv(s) && CanCommit(s) && s.tailBlock.At? && s.tailBlock.id < |s.blocks|
    requires OffsetOf(s.tail, s.b) < |s.blocks[s.tailBlock.id].slots|
    ensures RingOk(s.b, Committed(s, x).blocks, s.tailBlock, s.used, s.home)
  {
    hide IndexOk, ContentsOk, CountsOk, ConsumersOk, PowerOfTwo, OffsetOf;
    forall n | |s.home| - s.used <= n < |s.home| ensures Linked(Committed(s, x).blocks, s.used, s.home, n) {
      assert Linked(s.blocks, s.used, s.home, n);
    }
  }

  lemma CommitKeepsContents<T>(s: State<T>, x: T)
    requires Inv(s) && CanCommit(s) && s.tailBlock.At? && s.tailBlock.id < |s.blocks|
    requires OffsetOf(s.tail, s.b) < |s.blocks[s.tailBlock.id].slots|
    ensures ContentsOk(s.b, Committed(s, x).blocks, s.tail + 1, s.used, Ready, s.home, s.items + [x])
  {
    TailInBlock(s);
    RingDifferent(s);
    hide IndexOk, RingOk, CountsOk, ConsumersOk, PowerOfTwo, OffsetOf, BlockOf, BlockStart;
    var s' := Committed(s, x);
    forall y | 0 <= y < s.tail + 1 && |s.home| - s.used <= BlockOf(y, s.b)
      ensures StoredAt(s.b, s'.blocks, s.home, s'.items, y)
    {
      if y < s.tail {
        assert StoredAt(s.b, s.blocks, s.home, s.items, y);
        BlockBounds(y, s.b);
        BlockBounds(s.tail, s.b);
      }
    }
  }

  lemma CommitKeepsCounts<T>(s: State<T>, x: T)
    requires Inv(s) && CanCommit(s) && s.tailBlock.At? && s.tailBlock.id < |s.blocks|
    requires OffsetOf(s.tail, s.b) < |s.blocks[s.tailBlock.id].slots|
    ensures CountsOk(s.b, Committed(s, x).blocks, s.head, s.used, s.home, s.processed)
  {
    hide IndexOk, RingOk, ContentsOk, ConsumersOk, PowerOfTwo, OffsetOf, BlockOf, InBlock;
    forall n | |s.home| - s.used <= n < |s.home|
      ensures Counted(s.b, Committed(s, x).blocks, s.home, s.processed, n)
    {
      assert Counted(s.b, s.blocks, s.home, s.processed, n);
    }
  }

  // ------------------------------------------------- how a consumer reaches its blocks

  lemma LoadIndexKeeps<T>(s: State<T>, i: nat)
    requires Inv(s) && i < |s.consumers| && s.consumers[i].Granted?
    ensures s.headers != []
    ensures var c := s.consumers[i];
      Inv(s.(consumers := s.consumers[i := HasIndex(c.index, c.end, |s.headers| - 1)]))
  {
    hide RingOk, IndexOk, ContentsOk, CountsOk, BlockOf, PowerOfTwo, Covers;
    SomeView(s);
    IntervalServed(s, i);
    var c := s.consumers[i];
    assert ConsumerOk(s.b, s.views, s.head, c, s.home, s.processed);
    ConsumerMoves(s, i, HasIndex(c.index, c.end, |s.headers| - 1));
  }

  lemma LoadFrontKeeps<T>(s: State<T>, i: nat)
    requires Inv(s) && i < |s.consumers| && s.consumers[i].HasIndex?
    ensures s.consumers[i].header < |s.headers|
    ensures var c := s.consumers[i];
      Inv(s.(consumers := s.consumers[i := HasFront(c.index, c.end, c.header, s.headers[c.header].front)]))
  {
    hide RingOk, IndexOk, ContentsOk, CountsOk, ConsumersOk, BlockOf, PowerOfTwo, FrontIs, EntryAt;
    var c := s.consumers[i];
    IntervalServed(s, i);
    assert ConsumerOk(s.b, s.views, s.head, c, s.home, s.processed) by { AnyConsumer(s, i); }
    HeaderServes(s, c.header);
    var front := s.headers[c.header].front;
    BlockMonotone(c.index, c.end - 1, s.b);
    assert FrontIs(s.views[c.header], front, s.views[c.header].hi - 1);
    ConsumerMoves(s, i, HasFront(c.index, c.end, c.header, front));
  }

  lemma AnyConsumer<T>(s: State<T>, i: nat)
    requires Inv(s) && i < |s.consumers|
    ensures ConsumerOk(s.b, s.views, s.head, s.consumers[i], s.home, s.processed)
  {}

  lemma HeaderServes<T>(s: State<T>, h: nat)
    requires Inv(s) && h < |s.views|
    ensures h < |s.headers| && Serves(s.b, s.home, s.headers[h], s.views[h])
  {
    hide RingOk, ContentsOk, CountsOk, ConsumersOk, PowerOfTwo, Serves;
  }

  /** Whatever the producer does meanwhile, the lookup leads to the block of the element. */
  lemma FindEntryKeeps<T>(s: State<T>, i: nat)
    requires Inv(s) && i < |s.consumers| && s.consumers[i].HasFront?
    ensures var c := s.consumers[i];
      && c.header < |s.headers| && s.headers[c.header].size > 0 && c.front < |s.headers[c.header].entries|
      && var slot := Lookup(s.b, s.headers[c.header], c.front, c.index);
      && slot < |s.headers[c.header].entries| && 0 <= BlockOf(c.index, s.b) < |s.home|
      && s.headers[c.header].entries[slot] == Entry(BlockStart(c.index, s.b), s.home[BlockOf(c.index, s.b)])
      && Inv(s.(consumers := s.consumers[i := AtEntry(c.index, c.end, c.header, slot)]))
  {
    hide RingOk, IndexOk, ContentsOk, CountsOk, ConsumersOk, BlockOf, PowerOfTwo, FrontIs, EntryAt, Lookup;
    var c := s.consumers[i];
    AnyConsumer(s, i);
    IntervalServed(s, i);
    HeaderServes(s, c.header);
    HeaderSize(s, c.header);
    var v := s.views[c.header];
    var m {:trigger FrontIs(v, c.front, m)} :| BlockOf(c.index, s.b) <= m < v.hi && FrontIs(v, c.front, m);
    LookupFinds(s.b, s.home, s.headers[c.header], v, c.front, m, c.index);
    ConsumerMoves(s, i, AtEntry(c.index, c.end, c.header, Lookup(s.b, s.headers[c.header], c.front, c.index)));
  }

  lemma TakeKeeps<T>(s: State<T>, i: nat)
    requires Inv(s) && i < |s.consumers| && s.consumers[i].AtEntry? && s.used * s.b <= HALF
    ensures var c := s.consumers[i];
      && c.header < |s.headers| && c.slot < |s.headers[c.header].entries|
      && c.index < Stop(c.index, c.end, s.b) <= c.end
      && Inv(s.(consumers := s.consumers[i := Took(c.index, c.end, c.header, c.slot,
                s.headers[c.header].entries[c.slot].block, Stop(c.index, c.end, s.b))]))
  {
    hide RingOk, IndexOk, ContentsOk, CountsOk, ConsumersOk, BlockOf, PowerOfTwo, Masked;
    var c := s.consumers[i];
    AnyConsumer(s, i);
    IntervalServed(s, i);
    HeaderServes(s, c.header);
    StopIs(s, i);
    var n := BlockOf(c.index, s.b);
    BlockMonotone(c.index, c.end - 1, s.b);
    assert EntryAt(s.b, s.home, s.headers[c.header], s.views[c.header], n);
    ConsumerMoves(s, i, Took(c.index, c.end, c.header, c.slot,
      s.headers[c.header].entries[c.slot].block, Stop(c.index, c.end, s.b)));
  }

  /** A queue without blocks, whose first index is memory that holds anything. */
  function NewStorage<T>(b: nat, entries: seq<Entry>, threads: nat): State<T> {
    State(b, [], [Header(|entries|, Wrap(-1), entries)], 0, 0, Null, 0, |entries|, 0, Ready, seq(threads, _ => Free),
          [], [View(0, 0, 0, |entries|)], [], {})
  }

  lemma NewStorageInv<T>(b: nat, entries: seq<Entry>, threads: nat)
    requires b > 0 && PowerOfTwo(b) && |entries| > 0 && PowerOfTwo(|entries|) && Spans(b, |entries|)
    ensures Inv(NewStorage<T>(b, entries, threads))
  {
    hide PowerOfTwo;
    var s := NewStorage<T>(b, entries, threads);
    SpanFits(b, |entries|);
    ModIs(0, s.size, 0, 0);
    BlockIs(s.b - 1, s.b, 0, s.b - 1);
    hide BlockOf;
    forall x: nat ensures !(BlockOf(x, s.b) < 0) {}
  }

  // ------------------------------------------------------------------------------ runs

  /** A step of the producer; `x` is the element, `entries` and `slots` what newly allocated memory holds. */
  ghost predicate ProducerMoves<T>(s: State<T>, x: T, entries: seq<Entry>, slots: seq<T>, s': State<T>) {
    s.b > 0 &&
    match s.phase
    case Ready =>
      if OffsetOf(s.tail, s.b) != 0 then CommitMoves(s, x, s')
      else if CanReuse(s) then s.views != [] && s' == Reused(s)
      else if s.used == s.size then
        && |entries| == 2 * s.size && s.headers != [] && s.used <= |s.home|
        && Unrolled(s.headers[|s.headers| - 1].entries, s.front, s.used, entries) && s' == Expanded(s, entries)
      else
        s.used < s.size && |slots| == s.b && (s.tailBlock.At? ==> s.tailBlock.id < |s.blocks|) &&
            s' == Inserted(s, slots)
    case Picked =>
      s.headers != [] && s.tailBlock.At? && s.front < |s.headers[|s.headers| - 1].entries| && s' == EntryWritten(s)
    case Written => s.headers != [] && s.size > 0 && s.views != [] && s.front < WORD && s' == FrontPublished(s)
    case Begun => CommitMoves(s, x, s')
  }

  ghost predicate CommitMoves<T>(s: State<T>, x: T, s': State<T>)
    requires s.b > 0
  {
    s.tailBlock.At? && s.tailBlock.id < |s.blocks| && OffsetOf(s.tail, s.b) < |s.blocks[s.tailBlock.id].slots|
    && s' == Committed(s, x)
  }

  /** A step of consumer `i`; `count` is what it is granted. */
  ghost predicate ConsumerSteps<T>(s: State<T>, i: nat, count: nat, s': State<T>) {
    && s.b > 0 && i < |s.consumers|
    && match s.consumers[i]
       case Free =>
         && 0 < count && s.head + count <= s.tail
         && s' == s.(head := s.head + count, consumers := s.consumers[i := Granted(s.head, s.head + count)])
       case Granted(index, end) =>
         s.headers != [] && s' == s.(consumers := s.consumers[i := HasIndex(index, end, |s.headers| - 1)])
       case HasIndex(index, end, h) =>
         h < |s.headers| && s' == s.(consumers := s.consumers[i := HasFront(index, end, h, s.headers[h].front)])
       case HasFront(index, end, h, front) =>
         && h < |s.headers| && s.headers[h].size > 0 && front < |s.headers[h].entries|
         && s' == s.(consumers := s.consumers[i := AtEntry(index, end, h, Lookup(s.b, s.headers[h], front, index))])
       case AtEntry(index, end, h, slot) =>
         && h < |s.headers| && slot < |s.headers[h].entries| && 0 <= Stop(index, end, s.b)
         && var taken := Took(index, end, h, slot, s.headers[h].entries[slot].block, Stop(index, end, s.b));
         s' == s.(consumers := s.consumers[i := taken])
       case Took(index, end, h, slot, block, stop) =>
         && block < |s.blocks| && index <= stop && h < |s.views| && s.views[h].size > 0 && s' == Marked(s, i)
  }

  lemma ProducerKeeps<T>(s: State<T>, x: T, entries: seq<Entry>, slots: seq<T>, s': State<T>)
    requires Inv(s) && s.used * s.b <= HALF && ProducerMoves(s, x, entries, slots, s')
    ensures Inv(s')
  {
    hide Spans, Inv, CanReuse, Unrolled, OffsetOf, Reused, Expanded, Inserted, EntryWritten, FrontPublished, Committed;
    match s.phase {
      case Ready =>
        if OffsetOf(s.tail, s.b) != 0 {
          CommitKeeps(s, x);
        } else if CanReuse(s) {
          ReuseKeeps(s);
        } else if s.used == s.size {
          DoubledSpan(s.b, s.used);
          ExpandKeeps(s, entries);
        } else {
          InsertKeeps(s, slots);
        }
      case Picked => WriteKeeps(s);
      case Written => PublishKeeps(s);
      case Begun => CommitKeeps(s, x);
    }
  }

  lemma ConsumerKeeps<T>(s: State<T>, i: nat, count: nat, s': State<T>)
    requires Inv(s) && s.used * s.b <= HALF && ConsumerSteps(s, i, count, s')
    ensures Inv(s')
  {
    hide Inv, Lookup, Stop, Marked;
    match s.consumers[i] {
      case Free => GrantKeeps(s, i, count);
      case Granted(_, _) => LoadIndexKeeps(s, i);
      case HasIndex(_, _, _) => LoadFrontKeeps(s, i);
      case HasFront(_, _, _, _) => FindEntryKeeps(s, i);
      case AtEntry(_, _, _, _) => TakeKeeps(s, i);
      case Took(_, _, _, _, _, _) => MarkKeeps(s, i);
    }
  }

  /** A consumer that looks for its block finds the entry whose base is that of the block. */
  ghost predicate FindsBlock<T>(s: State<T>, i: nat) {
    s.b > 0 && i < |s.consumers| && (s.consumers[i].HasFront? ==>
      var c := s.consumers[i];
      && c.header < |s.headers| && s.headers[c.header].size > 0 && c.front < |s.headers[c.header].entries|
      && var slot := Lookup(s.b, s.headers[c.header], c.front, c.index);
      slot < |s.headers[c.header].entries| && s.headers[c.header].entries[slot].base == BlockStart(c.index, s.b))
  }

  /** A consumer that has its block reads exactly the elements enqueued at its indices. */
  ghost predicate ReadsItems<T>(s: State<T>, i: nat) {
    s.b > 0 && i < |s.consumers| && (s.consumers[i].Took? ==>
      var c := s.consumers[i];
      var offset := OffsetOf(c.index, s.b);
      && c.index < c.stop <= c.end && c.block < |s.blocks| && offset + (c.stop - c.index) <= |s.blocks[c.block].slots|
      && c.stop <= |s.items| && s.blocks[c.block].slots[offset..offset + (c.stop - c.index)] ==
          s.items[c.index..c.stop])
  }

  ghost predicate Faithful<T>(s: State<T>) {
    forall i :: 0 <= i < |s.consumers| ==> FindsBlock(s, i) && ReadsItems(s, i)
  }

  lemma InvFaithful<T>(s: State<T>)
    requires Inv(s) && s.used * s.b <= HALF
    ensures Faithful(s)
  {
    hide Inv, Lookup, BlockStart, OffsetOf;
    Positive(s);
    forall i | 0 <= i < |s.consumers| ensures FindsBlock(s, i) && ReadsItems(s, i) {
      if s.consumers[i].HasFront? {
        FindEntryKeeps(s, i);
      } else if s.consumers[i].Took? {
        TakeReads(s, i);
      }
    }
  }

  lemma Positive<T>(s: State<T>)
    requires Inv(s)
    ensures s.b > 0
  {}

  /** What one step was: of the producer, or of a consumer. */
  datatype Step<T> = Produce(x: T, entries: seq<Entry>, slots: seq<T>) | Consume(i: nat, count: nat)

  ghost predicate Moves<T>(s: State<T>, step: Step<T>, s': State<T>) {
    match step
    case Produce(x, entries, slots) => ProducerMoves(s, x, entries, slots, s')
    case Consume(i, count) => ConsumerSteps(s, i, count, s')
  }

  /** In every state of every run, in every interleaving, every consumer finds its block and reads its elements,
      as long as the ring holds at most half the index range. */
  lemma {:induction false} EveryStateFaithful<T>(run: seq<State<T>>, steps: seq<Step<T>>)
    requires run != [] && Inv(run[0]) && |steps| == |run| - 1
    requires forall k :: 0 <= k < |run| ==> run[k].used * run[k].b <= HALF
    requires forall k :: 0 <= k < |steps| ==> Moves(run[k], steps[k], run[k + 1])
    ensures forall k :: 0 <= k < |run| ==> Faithful(run[k])
  {
    hide Inv, Faithful, ProducerMoves, ConsumerSteps;
    InvFaithful(run[0]);
    for k := 0 to |steps|
      invariant Inv(run[k])
      invariant forall j :: 0 <= j <= k ==> Faithful(run[j])
    {
      match steps[k] {
        case Produce(x, entries, slots) => ProducerKeeps(run[k], x, entries, slots, run[k + 1]);
        case Consume(i, count) => ConsumerKeeps(run[k], i, count, run[k + 1]);
      }
      InvFaithful(run[k + 1]);
    }
  }

  /** The same from a new queue on. */
  lemma EveryRunFaithful<T>(run: seq<State<T>>, steps: seq<Step<T>>, b: nat, entries: seq<Entry>, threads: nat)
    requires b > 0 && PowerOfTwo(b) && |entries| > 0 && PowerOfTwo(|entries|) && Spans(b, |entries|)
    requires run != [] && run[0] == NewStorage(b, entries, threads) && |steps| == |run| - 1
    requires forall k :: 0 <= k < |run| ==> run[k].used * run[k].b <= HALF
    requires forall k :: 0 <= k < |steps| ==> Moves(run[k], steps[k], run[k + 1])
    ensures forall k :: 0 <= k < |run| ==> Faithful(run[k])
  {
    hide Inv, Faithful, Moves, NewStorage;
    NewStorageInv<T>(b, entries, threads);
    EveryStateFaithful(run, steps);
  }
}

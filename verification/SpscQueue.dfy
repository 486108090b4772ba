/** The single-producer single-consumer ring buffer. Each atomic operation is one method, so that the two
    threads, and any number of onlookers, may interleave in any way. */
module SpscQueues {
  import opened WordArith

  datatype Slot<T> = Empty | Full(value: T)

  /** Where the producer stands in `emplace`. */
  datatype Producer<T> = Resting | Waiting(item: T, index: nat, next: nat) | Built(item: T, index: nat, next: nat)

  /** Where the consumer stands between `front` and `pop`. */
  datatype Consumer = Away | Refreshing(index: nat) | AtFront | Destroyed(next: nat)

  /** The fields, and as totals: the elements emplaced and popped so far, and how much of each the cached
      index of the other side accounts for. */
  datatype State<T> = State(cap: nat, slots: seq<Slot<T>>, writeIdx: nat, readIdxCache: nat, readIdx: nat,
      writeIdxCache: nat,
                            producer: Producer<T>, consumer: Consumer,
                            emplaced: seq<T>, popped: seq<T>, readSeen: nat, writeSeen: nat)

  /** The pops whose index store has happened. */
  function Released<T>(s: State<T>): int { |s.popped| - (if s.consumer.Destroyed? then 1 else 0) }

  /** Element `k` of the stream is alive in its slot. */
  ghost predicate Alive<T>(s: State<T>, k: nat) {
    0 < s.cap == |s.slots| && k < |s.emplaced| && s.slots[k % s.cap] == Full(s.emplaced[k])
  }

  ghost predicate FreeAt<T>(s: State<T>, k: nat) {
    0 < s.cap == |s.slots| && s.slots[k % s.cap] == Empty
  }

  function Following(index: nat, cap: nat): nat { if index + 1 == cap then 0 else index + 1 }

  ghost predicate Counters<T>(s: State<T>) {
    && 0 < s.cap == |s.slots|
    && |s.popped| <= |s.emplaced| && s.popped == s.emplaced[..|s.popped|]
    && 0 <= Released(s) && |s.emplaced| - Released(s) < s.cap
    && s.writeIdx == |s.emplaced| % s.cap && s.readIdx == Released(s) % s.cap
    && s.readSeen <= Released(s) && |s.emplaced| - s.readSeen < s.cap && s.readIdxCache == s.readSeen % s.cap
    && Released(s) <= s.writeSeen <= |s.emplaced| && s.writeIdxCache == s.writeSeen % s.cap
  }

  ghost predicate Threads<T>(s: State<T>) {
    && (match s.producer
        case Resting => true
        case Waiting(_, index, next) => index == s.writeIdx && next == Following(index, s.cap)
        case Built(_, index, next) => index == s.writeIdx && next == Following(index, s.cap) && next != s.readIdxCache)
    && (match s.consumer
        case Away => true
        case Refreshing(index) => index == s.readIdx
        case AtFront => s.readIdx != s.writeIdxCache
        case Destroyed(next) => next == Following(s.readIdx, s.cap) && Released(s) < s.writeSeen)
  }

  /** Exactly the slots of the elements between `popped` and `emplaced` are occupied, and that of an element
      that is built but not yet published. */
  ghost predicate Slots<T>(s: State<T>) {
    && (forall k :: |s.popped| <= k < |s.emplaced| ==> Alive(s, k))
    && (forall k :: |s.emplaced| < k < |s.popped| + s.cap ==> FreeAt(s, k))
    && (|s.emplaced| < |s.popped| + s.cap ==>
         if s.producer.Built? then 0 < s.cap == |s.slots| && s.slots[|s.emplaced| % s.cap] == Full(s.producer.item)
         else FreeAt(s, |s.emplaced|))
  }

  ghost predicate Inv<T>(s: State<T>) { Counters(s) && Threads(s) && Slots(s) }

  lemma FollowingIs(n: nat, cap: nat)
    requires cap > 0
    ensures Following(n % cap, cap) == (n + 1) % cap
  {
    DivMod(n, cap, n / cap, n % cap);
    if n % cap + 1 == cap {
      ModIs(n + 1, cap, n / cap + 1, 0);
    } else {
      ModIs(n + 1, cap, n / cap, n % cap + 1);
    }
  }

  /** Two counts less than a turn apart meet in the ring only if they are equal. */
  lemma SameIndex(m: nat, n: nat, cap: nat)
    requires cap > 0 && m <= n && n - m <= cap
    ensures m % cap == n % cap <==> n == m || n == m + cap
  {
    if m < n < m + cap {
      ModDistinct(n, m, cap);
    } else if n == m + cap {
      DivMod(m, cap, m / cap, m % cap);
      ModIs(n, cap, m / cap + 1, m % cap);
    }
  }

  /** An empty ring with one slot more than the capacity. */
  function NewRing<T>(capacity: nat): State<T> {
    State(capacity + 1, seq(capacity + 1, _ => Empty), 0, 0, 0, 0, Resting, Away, [], [], 0, 0)
  }

  lemma NewRingInv<T>(capacity: nat)
    ensures Inv(NewRing<T>(capacity))
  {
    var s := NewRing<T>(capacity);
    forall k: nat | k < s.cap ensures FreeAt(s, k) {
      ModIs(k, s.cap, 0, k);
    }
    ModIs(0, s.cap, 0, 0);
  }

  // ------------------------------------------------------------------------- producer

  /** The cache says full only if `capacity` elements were held when it was loaded, and refreshing it decides
      exactly. */
  lemma FullIffCaughtUp<T>(s: State<T>, seen: nat)
    requires Counters(s) && seen <= |s.emplaced| && |s.emplaced| - seen < s.cap
    ensures Following(s.writeIdx, s.cap) == seen % s.cap <==> |s.emplaced| - seen == s.cap - 1
  {
    FollowingIs(|s.emplaced|, s.cap);
    SameIndex(seen, |s.emplaced| + 1, s.cap);
  }

  /** The slot that `emplace` constructs into is empty. */
  lemma BuildKeeps<T>(s: State<T>)
    requires Inv(s) && s.producer.Waiting? && s.producer.next != s.readIdxCache
    ensures s.producer.index < |s.slots| && s.slots[s.producer.index] == Empty
    ensures var p := s.producer;
      Inv(s.(slots := s.slots[p.index := Full(p.item)], producer := Built(p.item, p.index, p.next)))
  {
    var p := s.producer;
    FullIffCaughtUp(s, s.readSeen);
    DivMod(|s.emplaced|, s.cap, |s.emplaced| / s.cap, p.index);
    assert FreeAt(s, |s.emplaced|);
    var s' := s.(slots := s.slots[p.index := Full(p.item)], producer := Built(p.item, p.index, p.next));
    forall k | |s.popped| <= k < |s.emplaced| ensures Alive(s', k) {
      assert Alive(s, k);
      SameIndex(k, |s.emplaced|, s.cap);
    }
    forall k | |s.emplaced| < k < |s.popped| + s.cap ensures FreeAt(s', k) {
      assert FreeAt(s, k);
      SameIndex(|s.emplaced|, k, s.cap);
    }
  }

  lemma StoreKeeps<T>(s: State<T>)
    requires Inv(s) && s.producer.Built?
    ensures Inv(s.(writeIdx := s.producer.next, emplaced := s.emplaced + [s.producer.item], producer := Resting))
  {
    var s' := s.(writeIdx := s.producer.next, emplaced := s.emplaced + [s.producer.item], producer := Resting);
    FullIffCaughtUp(s, s.readSeen);
    FollowingIs(|s.emplaced|, s.cap);
    assert s'.emplaced[..|s.popped|] == s.emplaced[..|s.popped|];
    hide Following;
    forall k | |s'.popped| <= k < |s'.emplaced| ensures Alive(s', k) {
      if k < |s.emplaced| {
        assert Alive(s, k);
      }
    }
    forall k | |s'.emplaced| <= k < |s.popped| + s.cap ensures FreeAt(s', k) {
      assert FreeAt(s, k);
    }
  }

  // ------------------------------------------------------------------------- consumer

  lemma EmptyIffSeen<T>(s: State<T>, seen: nat)
    requires Counters(s) && Released(s) <= seen <= |s.emplaced|
    ensures s.readIdx == seen % s.cap <==> Released(s) == seen
  {
    SameIndex(Released(s), seen, s.cap);
  }

  /** The oldest element is alive in the slot that `front` returns. */
  lemma FrontAlive<T>(s: State<T>)
    requires Inv(s) && s.consumer.AtFront?
    ensures |s.popped| < s.writeSeen <= |s.emplaced| && s.readIdx != s.writeIdx
    ensures s.readIdx < |s.slots| && s.slots[s.readIdx] == Full(s.emplaced[|s.popped|])
  {
    EmptyIffSeen(s, s.writeSeen);
    EmptyIffSeen(s, |s.emplaced|);
    assert Alive(s, |s.popped|);
  }

  lemma DestroyKeeps<T>(s: State<T>)
    requires Inv(s) && s.consumer.AtFront?
    ensures s.readIdx < |s.slots| && |s.popped| < |s.emplaced|
    ensures Inv(s.(slots := s.slots[s.readIdx := Empty], popped := s.popped + [s.emplaced[|s.popped|]],
                   consumer := Destroyed(Following(s.readIdx, s.cap))))
  {
    FrontAlive(s);
    var n := |s.popped|;
    var s' := s.(slots := s.slots[s.readIdx := Empty], popped := s.popped + [s.emplaced[n]],
                 consumer := Destroyed(Following(s.readIdx, s.cap)));
    assert s.emplaced[..n + 1] == s.emplaced[..n] + [s.emplaced[n]];
    hide Following;
    forall k | n + 1 <= k < |s.emplaced| ensures Alive(s', k) {
      assert Alive(s, k);
      SameIndex(n, k, s.cap);
    }
    SameIndex(n, n + s.cap, s.cap);
    SameIndex(n, |s.emplaced|, s.cap);
    forall k | |s.emplaced| < k < n + 1 + s.cap ensures FreeAt(s', k) {
      if k < n + s.cap {
        assert FreeAt(s, k);
      }
    }
  }

  lemma ReleaseKeeps<T>(s: State<T>)
    requires Inv(s) && s.consumer.Destroyed?
    ensures Inv(s.(readIdx := s.consumer.next, consumer := Away))
  {
    var s' := s.(readIdx := s.consumer.next, consumer := Away);
    FollowingIs(Released(s), s.cap);
    hide Following;
    forall k | |s'.popped| <= k < |s'.emplaced| ensures Alive(s', k) {
      assert Alive(s, k);
    }
    forall k | |s'.emplaced| < k < |s'.popped| + s.cap ensures FreeAt(s', k) {
      assert FreeAt(s, k);
    }
  }

  /** Steps that change no slot and no count. */
  lemma SameSlots<T>(s: State<T>, s': State<T>)
    requires Slots(s) && s'.cap == s.cap && s'.slots == s.slots && s'.emplaced == s.emplaced && s'.popped == s.popped
    requires s'.producer.Built? == s.producer.Built? && (s.producer.Built? ==> s'.producer == s.producer)
    ensures Slots(s')
  {
    forall k | |s.popped| <= k < |s.emplaced| ensures Alive(s', k) {
      assert Alive(s, k);
    }
    forall k | |s.emplaced| < k < |s.popped| + s.cap ensures FreeAt(s', k) {
      assert FreeAt(s, k);
    }
  }

  // ----------------------------------------------------------------------------- runs

  /** One atomic operation of the producer; `item` is what it is asked to emplace. */
  ghost predicate ProducerMoves<T>(s: State<T>, item: T, s': State<T>) {
    match s.producer
    case Resting => s' == s.(producer := Waiting(item, s.writeIdx, Following(s.writeIdx, s.cap)))
    case Waiting(x, index, next) =>
      if next == s.readIdxCache then Released(s) >= 0 && s' == s.(readIdxCache := s.readIdx, readSeen := Released(s))
      else index < |s.slots| && s' == s.(slots := s.slots[index := Full(x)], producer := Built(x, index, next))
    case Built(x, _, next) => s' == s.(writeIdx := next, emplaced := s.emplaced + [x], producer := Resting)
  }

  /** One atomic operation of the consumer. */
  ghost predicate ConsumerMoves<T>(s: State<T>, s': State<T>) {
    match s.consumer
    case Away => s' == s.(consumer := if s.readIdx == s.writeIdxCache then Refreshing(s.readIdx) else AtFront)
    case Refreshing(index) =>
      s' == s.(writeIdxCache := s.writeIdx, writeSeen := |s.emplaced|,
               consumer := if s.writeIdx == index then Away else AtFront)
    case AtFront =>
      && s.readIdx < |s.slots| && |s.popped| < |s.emplaced|
      && s' == s.(slots := s.slots[s.readIdx := Empty], popped := s.popped + [s.emplaced[|s.popped|]],
                  consumer := Destroyed(Following(s.readIdx, s.cap)))
    case Destroyed(next) => s' == s.(readIdx := next, consumer := Away)
  }

  lemma ProducerKeeps<T>(s: State<T>, item: T, s': State<T>)
    requires Inv(s) && ProducerMoves(s, item, s')
    ensures Inv(s')
  {
    match s.producer {
      case Resting => SameSlots(s, s');
      case Waiting(x, index, next) =>
        if next == s.readIdxCache {
          SameSlots(s, s');
        } else {
          BuildKeeps(s);
        }
      case Built(x, _, next) => StoreKeeps(s);
    }
  }

  lemma ConsumerKeeps<T>(s: State<T>, s': State<T>)
    requires Inv(s) && ConsumerMoves(s, s')
    ensures Inv(s')
  {
    match s.consumer {
      case Away => SameSlots(s, s');
      case Refreshing(index) =>
        EmptyIffSeen(s, |s.emplaced|);
        SameSlots(s, s');
      case AtFront => DestroyKeeps(s);
      case Destroyed(next) => ReleaseKeeps(s);
    }
  }

  /** First in, first out, never more than the capacity, no occupied slot lost, and caches that only lag behind. */
  ghost predicate Promised<T>(s: State<T>) {
    && s.popped <= s.emplaced && 0 <= |s.emplaced| - Released(s) < s.cap
    && s.readSeen <= Released(s) && s.writeSeen <= |s.emplaced|
    && forall k :: |s.popped| <= k < |s.emplaced| ==> Alive(s, k)
  }

  /** Every state of every run keeps the promise, in every interleaving of the two threads. */
  lemma {:induction false} EveryStatePromised<T>(run: seq<State<T>>, items: seq<T>)
    requires run != [] && Inv(run[0]) && |items| == |run|
    requires forall k :: 0 <= k < |run| - 1 ==>
      ProducerMoves(run[k], items[k], run[k + 1]) || ConsumerMoves(run[k], run[k + 1])
    ensures forall k :: 0 <= k < |run| ==> Promised(run[k])
  {
    hide Inv, Promised, ProducerMoves, ConsumerMoves;
    InvPromises(run[0]);
    for k := 0 to |run| - 1
      invariant Inv(run[k])
      invariant forall j :: 0 <= j <= k ==> Promised(run[j])
    {
      if ProducerMoves(run[k], items[k], run[k + 1]) {
        ProducerKeeps(run[k], items[k], run[k + 1]);
      } else {
        ConsumerKeeps(run[k], run[k + 1]);
      }
      InvPromises(run[k + 1]);
    }
  }

  /** The same from a new ring on. */
  lemma EveryRunPromised<T>(run: seq<State<T>>, items: seq<T>, capacity: nat)
    requires run != [] && run[0] == NewRing(capacity) && |items| == |run|
    requires forall k :: 0 <= k < |run| - 1 ==>
      ProducerMoves(run[k], items[k], run[k + 1]) || ConsumerMoves(run[k], run[k + 1])
    ensures forall k :: 0 <= k < |run| ==> Promised(run[k])
  {
    hide Inv, Promised, ProducerMoves, ConsumerMoves, NewRing;
    NewRingInv<T>(capacity);
    EveryStatePromised(run, items);
  }

  lemma InvPromises<T>(s: State<T>)
    requires Inv(s)
    ensures Promised(s)
  {}

  // ----------------------------------------------------------------------------- size

  /** `size` on the two indices it loads. */
  function SizeFrom(writeIdx: nat, readIdx: nat, cap: nat): int {
    if writeIdx < readIdx then writeIdx - readIdx + cap else writeIdx - readIdx
  }

  /** The answer is the difference of the two totals, reduced to less than a turn. */
  lemma SizeIs(w: nat, r: nat, cap: nat)
    requires cap > 0
    ensures SizeFrom(w % cap, r % cap, cap) == (w - r) % cap
  {
    DivMod(w, cap, w / cap, w % cap);
    DivMod(r, cap, r / cap, r % cap);
    var d, k := w % cap - r % cap, w / cap - r / cap;
    assert w - r == k * cap + d;
    if d < 0 {
      ModIs(w - r, cap, k - 1, d + cap);
    } else {
      ModIs(w - r, cap, k, d);
    }
  }

  /** One index is loaded at total `w`, the other at total `r`; the order of the two loads is not fixed. If the
      write index is loaded first, `w - r < cap`, and the answer is exact unless the consumer overtook it: `r > w`.
      If the read index is loaded first, `r <= w`, and it is exact unless the producer has gone a whole turn. */
  lemma SizeExactIff(w: nat, r: nat, cap: nat)
    requires cap > 0
    ensures SizeFrom(w % cap, r % cap, cap) == w - r <==> 0 <= w - r < cap
    ensures 0 <= SizeFrom(w % cap, r % cap, cap) < cap
  {
    SizeIs(w, r, cap);
    if 0 <= w - r < cap {
      ModIs(w - r, cap, 0, w - r);
    }
  }

  class SPSCQueue<T> {
    const capacity_: nat
    const slots: array<Slot<T>>
    var writeIdx: nat
    var readIdxCache: nat
    var readIdx: nat
    var writeIdxCache: nat
    var producer: Producer<T>
    var consumer: Consumer
    ghost var emplaced: seq<T>
    ghost var popped: seq<T>
    ghost var readSeen: nat
    ghost var writeSeen: nat

    ghost function Now(): State<T>
      reads this, slots
    {
      State(capacity_, slots[..], writeIdx, readIdxCache, readIdx, writeIdxCache, producer, consumer,
            emplaced, popped, readSeen, writeSeen)
    }

    ghost predicate Valid()
      reads this, slots
    {
      Inv(Now())
    }

    /** The elements in the queue, as far as pops have been published. */
    ghost function Held(): int
      reads this, slots
    {
      |emplaced| - Released(Now())
    }

    constructor (capacity: nat)
      ensures Valid() && Now() == NewRing(capacity) && fresh(slots)
    {
      capacity_ := capacity + 1;
      slots := new Slot<T>[capacity + 1](_ => Empty);
      writeIdx, readIdxCache, readIdx, writeIdxCache := 0, 0, 0, 0;
      producer, consumer := Resting, Away;
      emplaced, popped, readSeen, writeSeen := [], [], 0, 0;
      new;
      NewRingInv<T>(capacity);
      assert slots[..] == seq(capacity + 1, _ => Empty);
    }

    function Capacity(): nat { if capacity_ > 0 then capacity_ - 1 else 0 }

    /** Never more than `capacity()` elements, and what was popped is what was emplaced first. */
    lemma Promise()
      requires Valid()
      ensures popped <= emplaced && 0 <= Held() <= Capacity()
      ensures readSeen <= Released(Now()) && writeSeen <= |emplaced|
    {}

    // -------------------------------------------------------------------- the producer

    /** Loads the write index. The waiting loop is entered exactly when the elements emplaced, less the pops that the
        cached read index knows of, are as many as the capacity. */
    method EmplaceBegin(item: T)
      requires Valid() && producer.Resting?
      modifies this`producer
      ensures Valid() && producer == Waiting(item, |emplaced| % capacity_, (|emplaced| + 1) % capacity_)
      ensures producer.next == readIdxCache <==> |emplaced| - readSeen == Capacity()
      ensures ProducerMoves(old(Now()), item, Now())
    {
      FollowingIs(|emplaced|, capacity_);
      FullIffCaughtUp(Now(), readSeen);
      SameSlots(Now(), Now().(producer := Waiting(item, writeIdx, Following(writeIdx, capacity_))));
      producer := Waiting(item, writeIdx, if writeIdx + 1 == capacity_ then 0 else writeIdx + 1);
    }

    /** One turn of the waiting loop. Afterwards the loop goes on exactly when the queue is full. */
    method EmplaceRefresh()
      requires Valid() && producer.Waiting? && producer.next == readIdxCache
      modifies this`readIdxCache, this`readSeen
      ensures Valid()
      ensures producer.next == readIdxCache <==> Held() == Capacity()
      ensures ProducerMoves(old(Now()), producer.item, Now())
    {
      SameSlots(Now(), Now().(readIdxCache := readIdx, readSeen := Released(Now())));
      FullIffCaughtUp(Now(), Released(Now()));
      readIdxCache := readIdx;
      readSeen := Released(Now());
    }

    /** Constructs the element. The slot is empty: no element is overwritten. */
    method EmplaceBuild()
      requires Valid() && producer.Waiting? && producer.next != readIdxCache
      modifies this`producer, slots
      ensures Valid() && producer == Built(old(producer).item, old(producer).index, old(producer).next)
      ensures producer.index < slots.Length && old(slots[producer.index]) == Empty
      ensures slots[..] == old(slots[..])[producer.index := Full(producer.item)]
      ensures ProducerMoves(old(Now()), producer.item, Now())
    {
      BuildKeeps(Now());
      slots[producer.index] := Full(producer.item);
      producer := Built(producer.item, producer.index, producer.next);
    }

    method EmplaceStore()
      requires Valid() && producer.Built?
      modifies this`writeIdx, this`producer, this`emplaced
      ensures Valid() && producer == Resting && emplaced == old(emplaced) + [old(producer).item]
      ensures ProducerMoves(old(Now()), old(producer).item, Now())
    {
      StoreKeeps(Now());
      writeIdx := producer.next;
      emplaced := emplaced + [producer.item];
      producer := Resting;
    }

    /** `emplace` when there is room and the consumer does not move: at most one turn of the waiting loop. */
    method Emplace(item: T)
      requires Valid() && producer.Resting? && Held() < Capacity()
      modifies this`writeIdx, this`readIdxCache, this`producer, this`emplaced, this`readSeen, slots
      ensures Valid() && producer == Resting && emplaced == old(emplaced) + [item] && Held() == old(Held()) + 1
    {
      hide Inv, ProducerMoves;
      EmplaceBegin(item);
      if producer.next == readIdxCache {
        EmplaceRefresh();
      }
      EmplaceBuild();
      EmplaceStore();
    }

    // -------------------------------------------------------------------- the consumer

    /** Looks again exactly when the cached write index knows of no element that was not popped. */
    method FrontBegin()
      requires Valid() && consumer.Away?
      modifies this`consumer
      ensures Valid() && consumer == if |popped| < writeSeen then AtFront else Refreshing(|popped| % capacity_)
      ensures ConsumerMoves(old(Now()), Now())
    {
      EmptyIffSeen(Now(), writeSeen);
      SameSlots(Now(), Now().(consumer := if readIdx == writeIdxCache then Refreshing(readIdx) else AtFront));
      consumer := if readIdx == writeIdxCache then Refreshing(readIdx) else AtFront;
    }

    /** `front` answers null exactly when the queue is empty at the moment it looks again. */
    method FrontRefresh()
      requires Valid() && consumer.Refreshing?
      modifies this`consumer, this`writeIdxCache, this`writeSeen
      ensures Valid() && consumer == (if |emplaced| == |popped| then Away else AtFront)
      ensures ConsumerMoves(old(Now()), Now())
    {
      EmptyIffSeen(Now(), |emplaced|);
      SameSlots(Now(), Now().(writeIdxCache := writeIdx, writeSeen := |emplaced|,
                              consumer := if writeIdx == consumer.index then Away else AtFront));
      writeIdxCache := writeIdx;
      writeSeen := |emplaced|;
      consumer := if writeIdxCache == consumer.index then Away else AtFront;
    }

    /** What the pointer returned by `front` points to: the oldest element not popped yet. */
    method Front() returns (item: T)
      requires Valid() && consumer.AtFront?
      ensures |popped| < |emplaced| && item == emplaced[|popped|]
    {
      FrontAlive(Now());
      item := slots[readIdx].value;
    }

    /** Destroys the oldest element; `pop` asserts that the queue is not empty. */
    method PopDestroy()
      requires Valid() && consumer.AtFront?
      modifies this`consumer, this`popped, slots
      ensures Valid() && consumer.Destroyed? && |old(popped)| < |emplaced| && old(readIdx != writeIdx)
      ensures popped == old(popped) + [emplaced[|old(popped)|]]
      ensures readIdx < slots.Length && old(slots[readIdx]).Full? && slots[..] == old(slots[..])[readIdx := Empty]
      ensures ConsumerMoves(old(Now()), Now())
    {
      DestroyKeeps(Now());
      FrontAlive(Now());
      slots[readIdx] := Empty;
      consumer := Destroyed(if readIdx + 1 == capacity_ then 0 else readIdx + 1);
      popped := popped + [emplaced[|popped|]];
    }

    method PopRelease()
      requires Valid() && consumer.Destroyed?
      modifies this`readIdx, this`consumer
      ensures Valid() && consumer == Away
      ensures ConsumerMoves(old(Now()), Now())
    {
      ReleaseKeeps(Now());
      readIdx := consumer.next;
      consumer := Away;
    }

    /** `front` and `pop` when the queue holds something and the producer does not move. */
    method Pop() returns (item: T)
      requires Valid() && consumer.Away? && Held() > 0
      modifies this`readIdx, this`writeIdxCache, this`consumer, this`popped, this`writeSeen, slots
      ensures Valid() && consumer == Away
      ensures |old(popped)| < |emplaced| && item == emplaced[|old(popped)|] && popped == old(popped) + [item]
      ensures Held() == old(Held()) - 1
    {
      hide Inv, ConsumerMoves;
      FrontBegin();
      if consumer.Refreshing? {
        FrontRefresh();
      }
      item := Front();
      PopDestroy();
      PopRelease();
    }

    // ------------------------------------------------------------------------ onlookers

    /** `size` loads both indices; it may load the write index first. */
    method SizeLoadWrite() returns (w: nat, ghost total: nat)
      requires Valid()
      ensures capacity_ > 0 && w == |emplaced| % capacity_ && total == |emplaced|
    {
      w, total := writeIdx, |emplaced|;
    }

    /** The second half of `size`, any time after the first: exact if and only if no element emplaced after the
        first load has been popped. */
    method SizeLoadRead(w: nat, ghost total: nat) returns (size: int)
      requires Valid() && w == total % capacity_ && total <= |emplaced|
      ensures 0 <= size <= Capacity() && size == (total - Released(Now())) % capacity_
      ensures size == total - Released(Now()) <==> Released(Now()) <= total
    {
      SizeIs(total, Released(Now()), capacity_);
      SizeExactIff(total, Released(Now()), capacity_);
      size := w - readIdx;
      if size < 0 {
        size := size + capacity_;
      }
    }

    /** Or it may load the read index first. */
    method SizeLoadReadFirst() returns (r: nat, ghost total: nat)
      requires Valid()
      ensures capacity_ > 0 && r == total % capacity_ && total == Released(Now())
    {
      r, total := readIdx, Released(Now());
    }

    /** Then it is exact if and only if fewer elements than a turn were emplaced since the oldest one held then. */
    method SizeLoadWriteSecond(r: nat, ghost total: nat) returns (size: int)
      requires Valid() && r == total % capacity_ && total <= Released(Now())
      ensures 0 <= size <= Capacity() && size == (|emplaced| - total) % capacity_
      ensures size == |emplaced| - total <==> |emplaced| - total <= Capacity()
    {
      SizeIs(|emplaced|, total, capacity_);
      SizeExactIff(|emplaced|, total, capacity_);
      size := writeIdx - r;
      if size < 0 {
        size := size + capacity_;
      }
    }

    /** Nobody moves between the two loads: exact. */
    method Size() returns (size: int)
      requires Valid()
      ensures size == Held()
    {
      var w, total := SizeLoadWrite();
      size := SizeLoadRead(w, total);
    }

    method IsEmpty() returns (r: bool)
      requires Valid()
      ensures r <==> Held() == 0
    {
      EmptyIffSeen(Now(), |emplaced|);
      r := writeIdx == readIdx;
    }
  }

  /** A queue to which one element was emplaced in all can report four: the element arrives and leaves between
      the load of the write index and that of the read index. */
  method SizeMisreads<T>(x: T) returns (q: SPSCQueue<T>, size: int)
    ensures q.Valid() && q.emplaced == q.popped == [x] && size == 4
  {
    hide Inv;
    q := new SPSCQueue<T>(4);
    var w, total := q.SizeLoadWrite();
    q.Emplace(x);
    var y := q.Pop();
    size := q.SizeLoadRead(w, total);
  }

  method FullQueue<T>(x: T) returns (q: SPSCQueue<T>)
    ensures fresh(q) && fresh(q.slots) && q.Valid() && q.capacity_ == 5 && q.producer == Resting && q.consumer == Away
    ensures q.popped == [] && q.emplaced == [x, x, x, x]
  {
    hide Inv;
    q := new SPSCQueue<T>(4);
    q.Emplace(x);
    q.Emplace(x);
    q.Emplace(x);
    q.Emplace(x);
  }

  /** And a queue that holds three or four elements all the time can report none: it was full when the read index
      was loaded, and one is popped and another emplaced before the write index is. */
  method FullReportsEmpty<T>(x: T) returns (q: SPSCQueue<T>, size: int)
    ensures q.Valid() && q.emplaced == [x, x, x, x, x] && q.popped == [x] && q.Held() == 4 && size == 0
  {
    hide Inv;
    q := FullQueue(x);
    var r, total := q.SizeLoadReadFirst();
    var y := q.Pop();
    q.Emplace(x);
    size := q.SizeLoadWriteSecond(r, total);
  }
}

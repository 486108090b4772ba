/** The whole lock-free queue: the reservation counters and the storage in one machine. A consumer claims an interval
    under the protocol and then walks through the blocks of that interval. */
module BulkQueues {
  import opened WordArith
  import P = DequeueProtocol
  import B = BlockIndexes

  /** A part of a block that a consumer has read and marked: the elements from `index` on. */
  datatype Read<T> = Read(consumer: nat, index: nat, data: seq<T>) {
    predicate Has(x: nat) { index <= x < index + |data| }
  }

  datatype State<T> = State(counters: P.State, storage: B.State<T>, log: seq<Read<T>>)

  /** An atomic operation: of the producer; of a consumer on the counters up to its claim; the claim itself, which
      starts its walk; one on the storage; and the return once the walk is over. */
  datatype Step<T> =
    | Produce(x: T, entries: seq<B.Entry>, slots: seq<T>)
    | Reserve(i: nat)
    | Claim(i: nat)
    | Walk(i: nat)
    | Return(i: nat)

  /** What consumer `i` finds in the slots of its block. */
  function Found<T>(s: B.State<T>, i: nat): seq<T>
    requires s.b > 0 && i < |s.consumers| && s.consumers[i].Took? && s.consumers[i].block < |s.blocks|
    requires s.consumers[i].index <= s.consumers[i].stop
    requires B.OffsetOf(s.consumers[i].index, s.b) + (s.consumers[i].stop - s.consumers[i].index) <=
             |s.blocks[s.consumers[i].block].slots|
  {
    var c := s.consumers[i];
    var offset := B.OffsetOf(c.index, s.b);
    s.blocks[c.block].slots[offset..offset + (c.stop - c.index)]
  }

  ghost predicate Moves<T>(s: State<T>, step: Step<T>, s': State<T>) {
    match step
    case Produce(x, entries, slots) =>
      && B.ProducerMoves(s.storage, x, entries, slots, s'.storage) && s'.log == s.log
      && s'.counters == if s'.storage.tail == s.storage.tail then s.counters else P.Next(s.counters, P.Commit)
    case Reserve(i) =>
      && P.Enabled(s.counters, P.Advance(i)) && !s.counters.consumers[i].Claiming? && !s.counters.consumers[i].Holding?
      && s' == s.(counters := P.Next(s.counters, P.Advance(i)))
    case Claim(i) =>
      && i < |s.counters.consumers| && s.counters.consumers[i].Claiming? && i < |s.storage.consumers|
      && s' == s.(counters := P.Next(s.counters, P.Advance(i)),
          storage := Granted(s.storage, i, s.counters.consumers[i].actual))
    case Walk(i) =>
      && i < |s.storage.consumers| && !s.storage.consumers[i].Free? && B.ConsumerSteps(s.storage, i, 0, s'.storage)
      && s'.counters == s.counters
      && (if s.storage.consumers[i].Took? then
            && B.OffsetOf(s.storage.consumers[i].index, s.storage.b) +
               (s.storage.consumers[i].stop - s.storage.consumers[i].index) <=
               |s.storage.blocks[s.storage.consumers[i].block].slots|
            && s'.log == s.log + [Read(i, s.storage.consumers[i].index, Found(s.storage, i))]
          else s'.log == s.log)
    case Return(i) =>
      && i < |s.counters.consumers| && s.counters.consumers[i].Holding?
      && i < |s.storage.consumers| && s.storage.consumers[i].Free?
      && s' == s.(counters := P.Next(s.counters, P.Advance(i)))
  }

  function Granted<T>(s: B.State<T>, i: nat, count: nat): B.State<T>
    requires i < |s.consumers|
  {
    s.(head := s.head + count, consumers := s.consumers[i := B.Consumer.Granted(s.head, s.head + count)])
  }

  // ------------------------------------------------------------------------ invariants

  /** A consumer walks through the storage exactly while it holds a claim, and only within it. */
  predicate Coupled(c: P.Consumer, d: B.Consumer) {
    if c.Holding? then d.Free? || (c.first <= d.index && d.end == c.first + c.actual) else d.Free?
  }

  ghost predicate Together<T>(s: State<T>) {
    && s.counters.tail == s.storage.tail && s.counters.head == s.storage.head
    && |s.counters.consumers| == |s.storage.consumers|
    && forall i :: 0 <= i < |s.counters.consumers| ==> Coupled(s.counters.consumers[i], s.storage.consumers[i])
  }

  /** `x` is in the interval that consumer `i` still has to read. */
  predicate Pending<T>(s: B.State<T>, i: nat, x: nat) {
    i < |s.consumers| && !s.consumers[i].Free? && s.consumers[i].index <= x < s.consumers[i].end
  }

  /** Every claimed element was read or is still to be read. */
  ghost predicate NoneLost<T>(s: B.State<T>) {
    forall x: nat :: x < s.head ==> x in s.processed || exists i: nat :: Pending(s, i, x)
  }

  ghost predicate LogIs<T>(log: seq<Read<T>>, items: seq<T>, processed: set<nat>) {
    && (forall k :: 0 <= k < |log| ==> Right(log[k], items))
    && (forall x: nat :: x in processed <==> exists k :: 0 <= k < |log| && log[k].Has(x))
    && (forall k, m, x: nat :: 0 <= k < m < |log| ==> !(log[k].Has(x) && log[m].Has(x)))
  }

  /** What was read is what was enqueued at these indices. */
  ghost predicate Right<T>(r: Read<T>, items: seq<T>) {
    r.index + |r.data| <= |items| && r.data == items[r.index..r.index + |r.data|]
  }

  ghost predicate Inv<T>(s: State<T>, mark: nat) {
    && P.Inv(s.counters, mark) && B.Inv(s.storage) && Together(s)
    && NoneLost(s.storage) && LogIs(s.log, s.storage.items, s.storage.processed)
  }

  // ------------------------------------------------------------------------ preservation

  /** The producer claims and reads nothing. */
  lemma ProducerOnly<T>(s: B.State<T>, x: T, entries: seq<B.Entry>, slots: seq<T>, s': B.State<T>)
    requires B.ProducerMoves(s, x, entries, slots, s')
    ensures s'.head == s.head && s'.consumers == s.consumers && s'.processed == s.processed && s'.b == s.b
    ensures (s'.tail == s.tail && s'.items == s.items) || (s'.tail == s.tail + 1 && s'.items == s.items + [x])
  {
    hide B.OffsetOf, B.CanReuse, B.Unrolled, PowerOfTwo, Masked;
  }

  lemma ProduceKeeps<T>(s: State<T>, x: T, entries: seq<B.Entry>, slots: seq<T>, s': State<T>, mark: nat)
      returns (mark': nat)
    requires Inv(s, mark) && s.storage.used * s.storage.b <= HALF && Moves(s, Produce(x, entries, slots), s')
    ensures Inv(s', mark')
  {
    hide P.Inv, B.Inv, B.ProducerMoves, Right;
    mark' := mark;
    B.ProducerKeeps(s.storage, x, entries, slots, s'.storage);
    ProducerOnly(s.storage, x, entries, slots, s'.storage);
    if s'.storage.tail != s.storage.tail {
      mark' := P.NextKeepsInv(s.counters, P.Commit, mark);
    }
    SamePending(s.storage, s'.storage);
    forall k | 0 <= k < |s.log| ensures Right(s.log[k], s'.storage.items) {
      StillRight(s.log[k], s.storage.items, s'.storage.items);
    }
  }

  lemma SamePending<T>(s: B.State<T>, s': B.State<T>)
    requires NoneLost(s) && s'.head == s.head && s'.processed == s.processed && |s'.consumers| == |s.consumers|
    requires forall i :: 0 <= i < |s.consumers| && !s.consumers[i].Free? ==>
      !s'.consumers[i].Free? && s'.consumers[i].index == s.consumers[i].index &&
          s'.consumers[i].end == s.consumers[i].end
    ensures NoneLost(s')
  {
    forall x: nat | x < s'.head ensures x in s'.processed || exists i: nat :: Pending(s', i, x) {
      if x !in s.processed {
        var i: nat :| Pending(s, i, x);
        assert Pending(s', i, x);
      }
    }
  }

  lemma StillRight<T>(r: Read<T>, items: seq<T>, items': seq<T>)
    requires Right(r, items) && items <= items'
    ensures Right(r, items')
  {}

  /** The steps on the counters alone. */
  lemma AdvanceKeeps<T>(s: State<T>, i: nat, s': State<T>, mark: nat) returns (mark': nat)
    requires Inv(s, mark) && (Moves(s, Reserve(i), s') || Moves(s, Return(i), s'))
    ensures Inv(s', mark')
  {
    hide P.Inv, B.Inv, NoneLost, LogIs, P.Available;
    mark' := P.NextKeepsInv(s.counters, P.Advance(i), mark);
  }

  /** A claim lies below the tail, so the storage can grant it; nobody else has any of it. */
  lemma ClaimKeeps<T>(s: State<T>, i: nat, s': State<T>, mark: nat) returns (mark': nat)
    requires Inv(s, mark) && Moves(s, Claim(i), s')
    ensures Inv(s', mark')
  {
    hide P.Inv, B.Inv, NoneLost, LogIs, P.Available;
    mark' := P.NextKeepsInv(s.counters, P.Advance(i), mark);
    P.ClaimWithinTail(s.counters, mark, i);
    assert Coupled(s.counters.consumers[i], s.storage.consumers[i]);
    B.GrantKeeps(s.storage, i, s.counters.consumers[i].actual);
    GrantLosesNone(s.storage, i, s.counters.consumers[i].actual);
  }

  lemma GrantLosesNone<T>(s: B.State<T>, i: nat, count: nat)
    requires NoneLost(s) && i < |s.consumers| && s.consumers[i].Free?
    ensures NoneLost(Granted(s, i, count))
  {
    var s' := Granted(s, i, count);
    forall x: nat | x < s'.head ensures x in s'.processed || exists k: nat :: Pending(s', k, x) {
      if x >= s.head {
        assert Pending(s', i, x);
      } else if x !in s.processed {
        var k: nat :| Pending(s, k, x);
        assert Pending(s', k, x);
      }
    }
  }

  lemma WalkKeeps<T>(s: State<T>, i: nat, s': State<T>, mark: nat)
    requires Inv(s, mark) && s.storage.used * s.storage.b <= HALF && Moves(s, Walk(i), s')
    ensures Inv(s', mark)
  {
    hide P.Inv, B.Inv, LogIs, B.Lookup, B.Stop, NoneLost;
    B.ConsumerKeeps(s.storage, i, 0, s'.storage);
    if s.storage.consumers[i].Took? {
      MarkedParts(s.storage, i);
      MarkLosesNone(s.storage, i);
      MarkLogged(s.log, s.storage, i);
    } else {
      SamePending(s.storage, s'.storage);
    }
  }

  /** What a mark changes, and what it was about. */
  lemma MarkedParts<T>(s: B.State<T>, i: nat)
    requires B.Inv(s) && i < |s.consumers| && s.consumers[i].Took? && s.used * s.b <= HALF
    ensures var c := s.consumers[i];
      && c.index < c.stop <= c.end <= s.head && c.block < |s.blocks| && c.header < |s.views| &&
          s.views[c.header].size > 0
      && c.stop <= |s.items| && (forall x :: c.index <= x < c.end ==> x !in s.processed)
      && s.b > 0 && B.OffsetOf(c.index, s.b) + (c.stop - c.index) <= |s.blocks[c.block].slots|
      && Found(s, i) == s.items[c.index..c.stop]
  {
    hide B.OffsetOf, B.Inv;
    B.MarkKeeps(s, i);
    B.Positive(s);
    B.TakeReads(s, i);
    B.AnyConsumer(s, i);
  }

  lemma MarkLosesNone<T>(s: B.State<T>, i: nat)
    requires NoneLost(s) && i < |s.consumers| && s.consumers[i].Took?
    requires var c := s.consumers[i];
      c.index < c.stop <= c.end && c.block < |s.blocks| && c.header < |s.views| && s.views[c.header].size > 0
    ensures NoneLost(B.Marked(s, i))
  {
    hide Masked, B.Range;
    var c, s' := s.consumers[i], B.Marked(s, i);
    forall x: nat | x < s'.head ensures x in s'.processed || exists k: nat :: Pending(s', k, x) {
      if x !in s'.processed {
        var k: nat :| Pending(s, k, x);
        assert Pending(s', k, x);
      }
    }
  }

  lemma MarkLogged<T>(log: seq<Read<T>>, s: B.State<T>, i: nat)
    requires LogIs(log, s.items, s.processed) && s.b > 0 && i < |s.consumers| && s.consumers[i].Took?
    requires var c := s.consumers[i];
      && c.index < c.stop <= c.end && c.block < |s.blocks| && c.header < |s.views| && s.views[c.header].size > 0
      && c.stop <= |s.items| && (forall x :: c.index <= x < c.end ==> x !in s.processed)
      && B.OffsetOf(c.index, s.b) + (c.stop - c.index) <= |s.blocks[c.block].slots|
      && Found(s, i) == s.items[c.index..c.stop]
    ensures LogIs(log + [Read(i, s.consumers[i].index, Found(s, i))], s.items, B.Marked(s, i).processed)
  {
    hide B.OffsetOf, Masked, B.Range;
    var c := s.consumers[i];
    LogMore(log, s.items, s.processed, Read(i, c.index, Found(s, i)), s.processed + B.Range(c.index, c.stop));
  }

  lemma LogMore<T>(log: seq<Read<T>>, items: seq<T>, processed: set<nat>, r: Read<T>, processed': set<nat>)
    requires LogIs(log, items, processed) && Right(r, items)
    requires forall x: nat :: r.Has(x) ==> x !in processed
    requires forall x: nat :: x in processed' <==> x in processed || r.Has(x)
    ensures LogIs(log + [r], items, processed')
  {
    hide Right;
    var log' := log + [r];
    forall x: nat ensures x in processed' <==> exists k :: 0 <= k < |log'| && log'[k].Has(x) {
      if x in processed {
        var k :| 0 <= k < |log| && log[k].Has(x);
        assert log'[k].Has(x);
      }
      if r.Has(x) {
        assert log'[|log|].Has(x);
      }
      if k :| 0 <= k < |log'| && log'[k].Has(x) {
        assert k < |log| ==> log[k].Has(x);
      }
    }
    forall k, m, x: nat | 0 <= k < m < |log'| ensures !(log'[k].Has(x) && log'[m].Has(x)) {
      if m == |log| && log[k].Has(x) {
        assert x in processed;
      }
    }
  }

  lemma StepKeeps<T>(s: State<T>, step: Step<T>, s': State<T>, mark: nat) returns (mark': nat)
    requires Inv(s, mark) && s.storage.used * s.storage.b <= HALF && Moves(s, step, s')
    ensures Inv(s', mark')
  {
    hide Inv, Moves;
    match step {
      case Produce(x, entries, slots) => mark' := ProduceKeeps(s, x, entries, slots, s', mark);
      case Reserve(i) => mark' := AdvanceKeeps(s, i, s', mark);
      case Claim(i) => mark' := ClaimKeeps(s, i, s', mark);
      case Walk(i) => WalkKeeps(s, i, s', mark); mark' := mark;
      case Return(i) => mark' := AdvanceKeeps(s, i, s', mark);
    }
  }

  // ----------------------------------------------------------------------------- runs

  /** `x` was read, by exactly one consumer in exactly one part. */
  ghost predicate ReadOnce<T>(log: seq<Read<T>>, x: nat) {
    && (exists k :: 0 <= k < |log| && log[k].Has(x))
    && (forall k, m :: 0 <= k < m < |log| ==> !(log[k].Has(x) && log[m].Has(x)))
  }

  predicate NotRead<T>(log: seq<Read<T>>, x: nat) { forall k :: 0 <= k < |log| ==> !log[k].Has(x) }

  /** What the queue promises: whatever was read is what was enqueued there; every claimed element was read once or
      will be, by the one consumer that still has it; nothing beyond was read; and when nobody holds a claim every
      element below the head was read exactly once. */
  ghost predicate Delivered<T>(s: State<T>) {
    && s.counters.head <= |s.storage.items| == s.counters.tail
    && (forall k :: 0 <= k < |s.log| ==> Right(s.log[k], s.storage.items))
    && (forall x: nat :: x < s.counters.head ==>
          ReadOnce(s.log, x) || (NotRead(s.log, x) && exists i: nat :: Pending(s.storage, i, x)))
    && (forall i: nat, j: nat, x: nat :: i < j && Pending(s.storage, i, x) ==> !Pending(s.storage, j, x))
    && (forall x: nat :: x >= s.counters.head ==> NotRead(s.log, x))
    && ((forall i :: 0 <= i < |s.counters.consumers| ==> !s.counters.consumers[i].Holding?) ==>
          forall x: nat :: x < s.counters.head ==> ReadOnce(s.log, x))
  }

  lemma InvDelivers<T>(s: State<T>, mark: nat)
    requires Inv(s, mark)
    ensures Delivered(s)
  {
    hide P.Inv, B.Inv, Right;
    StorageFacts(s.storage);
    P.InvIsSafe(s.counters, mark);
    forall x: nat
      ensures x in s.storage.processed ==> ReadOnce(s.log, x)
      ensures x !in s.storage.processed ==> NotRead(s.log, x)
    {
      if x in s.storage.processed {
        var k :| 0 <= k < |s.log| && s.log[k].Has(x);
      }
    }
    forall i: nat, x: nat | Pending(s.storage, i, x)
      ensures i < |s.counters.consumers| && s.counters.consumers[i].Holding?
    {
      assert Coupled(s.counters.consumers[i], s.storage.consumers[i]);
    }
  }

  lemma StorageFacts<T>(s: B.State<T>)
    requires B.Inv(s)
    ensures |s.items| == s.tail && forall x :: x in s.processed ==> x < s.head
    ensures forall i: nat, j: nat, x: nat :: i < j && Pending(s, i, x) ==> !Pending(s, j, x)
  {
    hide B.RingOk, B.IndexOk, PowerOfTwo, B.ConsumerOk, B.Counted, B.StoredAt, B.BlockOf;
    forall i: nat, j: nat, x: nat | i < j && Pending(s, i, x) ensures !Pending(s, j, x) {
      if j < |s.consumers| {
        assert B.Apart(s.consumers[i], s.consumers[j]);
      }
    }
  }

  /** In every state of every run of the whole queue, for any number of consumers and any interleaving: the counters
      are safe, every walk finds its blocks, and every element is delivered to exactly one consumer, unchanged. */
  lemma {:induction false} EveryElementDelivered<T>(run: seq<State<T>>, steps: seq<Step<T>>)
    requires run != [] && Inv(run[0], 0) && |steps| == |run| - 1
    requires forall k :: 0 <= k < |run| ==> run[k].storage.used * run[k].storage.b <= HALF
    requires forall k :: 0 <= k < |steps| ==> Moves(run[k], steps[k], run[k + 1])
    ensures forall k :: 0 <= k < |run| ==>
      P.Safe(run[k].counters) && B.Faithful(run[k].storage) && Delivered(run[k])
  {
    hide Inv, Delivered, Moves, P.Safe, B.Faithful;
    var mark := 0;
    EverythingHolds(run[0], mark);
    for k := 0 to |steps|
      invariant Inv(run[k], mark)
      invariant forall j :: 0 <= j <= k ==>
        P.Safe(run[j].counters) && B.Faithful(run[j].storage) && Delivered(run[j])
    {
      mark := StepKeeps(run[k], steps[k], run[k + 1], mark);
      EverythingHolds(run[k + 1], mark);
    }
  }

  lemma EverythingHolds<T>(s: State<T>, mark: nat)
    requires Inv(s, mark) && s.storage.used * s.storage.b <= HALF
    ensures P.Safe(s.counters) && B.Faithful(s.storage) && Delivered(s)
  {
    InvDelivers(s, mark);
    hide P.Inv, B.Inv, P.Safe, B.Faithful, Delivered;
    P.InvIsSafe(s.counters, mark);
    B.InvFaithful(s.storage);
  }

  /** A queue that was just constructed. */
  function NewQueue<T>(b: nat, entries: seq<B.Entry>, threads: nat): State<T> {
    State(P.State(0, 0, 0, 0, seq(threads, _ => P.Idle), []), B.NewStorage(b, entries, threads), [])
  }

  lemma NewQueueInv<T>(b: nat, entries: seq<B.Entry>, threads: nat)
    requires b > 0 && PowerOfTwo(b) && |entries| > 0 && PowerOfTwo(|entries|) && B.Spans(b, |entries|)
    ensures Inv(NewQueue<T>(b, entries, threads), 0)
  {
    hide P.Inv, B.Inv;
    B.NewStorageInv<T>(b, entries, threads);
    P.InitialInv(NewQueue<T>(b, entries, threads).counters);
  }

  /** The same from a new queue on. */
  lemma EveryRunDelivers<T>(run: seq<State<T>>, steps: seq<Step<T>>, b: nat, entries: seq<B.Entry>, threads: nat)
    requires b > 0 && PowerOfTwo(b) && |entries| > 0 && PowerOfTwo(|entries|) && B.Spans(b, |entries|)
    requires run != [] && run[0] == NewQueue(b, entries, threads) && |steps| == |run| - 1
    requires forall k :: 0 <= k < |run| ==> run[k].storage.used * run[k].storage.b <= HALF
    requires forall k :: 0 <= k < |steps| ==> Moves(run[k], steps[k], run[k + 1])
    ensures forall k :: 0 <= k < |run| ==>
      P.Safe(run[k].counters) && B.Faithful(run[k].storage) && Delivered(run[k])
  {
    hide Inv, Delivered, Moves, P.Safe, B.Faithful, NewQueue;
    NewQueueInv<T>(b, entries, threads);
    EveryElementDelivered(run, steps);
  }
}

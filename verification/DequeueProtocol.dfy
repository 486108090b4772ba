/** The reservation protocol of the lock-free queue: any number of consumers take elements in bulk from one
    producer. Every atomic operation is one step; between two steps of a consumer anybody else may move. */
module DequeueProtocol {

  import opened WordArith

  const MAX_BULK: nat := 8192

  // ------------------------------------------------------- arithmetic on wrapping indices

  /** `tail - (count - overcommit)` as the code computes it, on wrapped values. */
  function Available(tail: nat, count: nat, overcommit: nat): Word {
    Wrap(Wrap(tail) - Wrap(Wrap(count) - Wrap(overcommit)))
  }

  lemma AvailableWraps(tail: nat, count: nat, overcommit: nat)
    ensures Available(tail, count, overcommit) == Wrap(tail - (count - overcommit))
  {
    var t, c, o := tail / WORD, count / WORD, overcommit / WORD;
    var inner := Wrap(count) - Wrap(overcommit);
    SameResidue(tail - (count - overcommit), Wrap(tail) - Wrap(inner), t - c + o - inner / WORD);
  }

  /** Inside the window the circular comparison is the true one, and a positive difference is exact. */
  lemma WindowIsExact(tail: nat, count: nat, overcommit: nat)
    requires InWindow(tail - (count - overcommit))
    ensures var d := tail - (count - overcommit);
      && (CircularLess(0, Available(tail, count, overcommit)) <==> d > 0)
      && (d > 0 ==> Available(tail, count, overcommit) == d)
  {
    AvailableWraps(tail, count, overcommit);
  }

  // ---------------------------------------------------------------------- the state machine

  /** Where a consumer stands in `dequeue_bulk`, with the locals it still needs. */
  datatype Consumer =
    | Idle
    | LoadedTail(tail: nat)
    | LoadedOvercommit(tail: nat, overcommit: nat)
    | Wants(overcommit: nat, desired: nat)
    | Reserved(overcommit: nat, desired: nat, myCount: nat)
    | Refunding(refund: nat, actual: nat)
    | Claiming(actual: nat)
    | Holding(first: nat, actual: nat)

  datatype Interval = Interval(first: nat, count: nat) {
    predicate Has(x: nat) { first <= x < first + count }
  }

  /** The four shared counters as totals; the code sees them modulo the word size. `handed` records the
      index intervals given out so far. */
  datatype State = State(tail: nat, head: nat, optimistic: nat, overcommit: nat,
                         consumers: seq<Consumer>, handed: seq<Interval>)

  /** The producer publishes one more element, or consumer `i` does its next atomic operation. */
  datatype Action = Commit | Advance(i: nat)

  function Min(a: int, b: int): int { if a < b then a else b }

  predicate Enabled(s: State, a: Action) {
    a.Advance? ==>
      && a.i < |s.consumers|
      && match s.consumers[a.i]
         case LoadedOvercommit(tail, overcommit) => InWindow(tail - (s.optimistic - overcommit))
         case Reserved(overcommit, _, my) => InWindow(s.tail - (my - overcommit))
         case _ => true
  }

  function Next(s: State, a: Action): State
    requires Enabled(s, a)
  {
    match a
    case Commit => s.(tail := s.tail + 1)
    case Advance(i) =>
      match s.consumers[i]
      case Idle => At(s, i, LoadedTail(s.tail))
      case LoadedTail(tail) => At(s, i, LoadedOvercommit(tail, s.overcommit))
      case LoadedOvercommit(tail, overcommit) =>
        var desired := Available(tail, s.optimistic, overcommit);
        At(s, i, if CircularLess(0, desired) then Wants(overcommit, Min(desired, MAX_BULK)) else Idle)
      case Wants(overcommit, desired) =>
        At(s, i, Reserved(overcommit, desired, s.optimistic)).(optimistic := s.optimistic + desired)
      case Reserved(overcommit, desired, my) => At(s, i, Computed(s.tail, overcommit, desired, my))
      case Refunding(refund, actual) =>
        At(s, i, if actual > 0 then Claiming(actual) else Idle).(overcommit := s.overcommit + refund)
      case Claiming(actual) =>
        At(s, i, Holding(s.head, actual)).(head := s.head + actual, handed := s.handed + [Interval(s.head, actual)])
      case Holding(_, _) => At(s, i, Idle)
  }

  function At(s: State, i: nat, c: Consumer): State
    requires i < |s.consumers|
  {
    s.(consumers := s.consumers[i := c])
  }

  /** What a consumer does once it has loaded the tail for the second time. */
  function Computed(tail: nat, overcommit: nat, desired: nat, my: nat): Consumer {
    var actual := Available(tail, my, overcommit);
    if CircularLess(0, actual) then
      if actual < desired then Refunding(desired - actual, actual) else Claiming(Min(desired, actual))
    else Refunding(desired, 0)
  }

  predicate Initial(s: State) {
    && s.tail == s.head == s.optimistic == s.overcommit == 0 && s.handed == []
    && forall i :: 0 <= i < |s.consumers| ==> s.consumers[i] == Idle
  }

  ghost predicate Steps(s: State, s': State) {
    exists a :: Enabled(s, a) && s' == Next(s, a)
  }

  ghost predicate Execution(run: seq<State>) {
    && run != [] && Initial(run[0])
    && forall k :: 0 <= k < |run| - 1 ==> Steps(run[k], run[k + 1])
  }

  // --------------------------------------------------------------------------- accounts

  datatype Account = ReservedBelow(limit: nat) | AllReserved | Refunds | Grants

  function Share(c: Consumer, k: Account): nat {
    match k
    case ReservedBelow(limit) => if c.Reserved? && c.myCount < limit then c.desired else 0
    case AllReserved => if c.Reserved? then c.desired else 0
    case Refunds => if c.Refunding? then c.refund else 0
    case Grants => if c.Refunding? || c.Claiming? then c.actual else 0
  }

  function Total(cs: seq<Consumer>, k: Account): nat {
    if cs == [] then 0 else Total(cs[..|cs| - 1], k) + Share(cs[|cs| - 1], k)
  }

  lemma {:induction false} TotalUpdate(cs: seq<Consumer>, i: nat, c: Consumer, k: Account)
    requires i < |cs|
    ensures Total(cs[i := c], k) == Total(cs, k) - Share(cs[i], k) + Share(c, k)
  {
    hide Share;
    var n := |cs| - 1;
    if i < n {
      TotalUpdate(cs[..n], i, c, k);
      assert cs[i := c][..n] == cs[..n][i := c];
    } else {
      assert cs[i := c][..n] == cs[..n];
    }
  }

  lemma {:induction false} BelowIsPart(cs: seq<Consumer>, limit: nat)
    ensures Total(cs, ReservedBelow(limit)) <= Total(cs, AllReserved)
  {
    if cs != [] {
      BelowIsPart(cs[..|cs| - 1], limit);
    }
  }

  lemma {:induction false} AllIdle(cs: seq<Consumer>, k: Account)
    requires forall i :: 0 <= i < |cs| ==> cs[i].Idle? || cs[i].Holding?
    ensures Total(cs, k) == 0
  {
    if cs != [] {
      AllIdle(cs[..|cs| - 1], k);
    }
  }

  /** Elements promised so far: those handed out and those computed but not yet claimed. */
  function Granted(s: State): nat { s.head + Total(s.consumers, Grants) }

  /** What a single consumer remembers is consistent with the counters. */
  predicate Sound(s: State, c: Consumer) {
    match c
    case LoadedOvercommit(_, overcommit) => overcommit <= s.overcommit
    case Wants(overcommit, desired) => overcommit <= s.overcommit && desired > 0
    case Reserved(overcommit, desired, my) =>
      overcommit <= s.overcommit && overcommit <= my < s.optimistic && desired > 0
    case Claiming(actual) => actual > 0
    case _ => true
  }

  /** `mark` is the start of the latest reservation that was granted anything. Reservations below it are
      covered by the tail in full; one above it sees everything promised before it. */
  ghost predicate Inv(s: State, mark: nat) {
    && s.optimistic == s.overcommit + Total(s.consumers, Refunds) + Granted(s) + Total(s.consumers, AllReserved)
    && mark <= s.optimistic
    && (forall i :: 0 <= i < |s.consumers| ==> Sound(s, s.consumers[i]))
    && Distinct(s.consumers)
    && Granted(s) + Total(s.consumers, ReservedBelow(mark)) <= s.tail
    && (forall i :: 0 <= i < |s.consumers| ==> Covered(s, s.consumers[i], mark))
    && Contiguous(s.handed, s.head)
  }

  predicate Distinct(cs: seq<Consumer>) {
    forall i, j :: 0 <= i < j < |cs| && cs[i].Reserved? && cs[j].Reserved? ==> cs[i].myCount != cs[j].myCount
  }

  predicate Covered(s: State, c: Consumer, mark: nat) {
    c.Reserved? && mark <= c.myCount ==>
      Granted(s) + Total(s.consumers, ReservedBelow(c.myCount)) <= c.myCount - c.overcommit
  }

  /** The intervals follow one another from 0 to `end`. */
  predicate Contiguous(handed: seq<Interval>, end: nat) {
    if handed == [] then end == 0
    else
      var last := handed[|handed| - 1];
      last.count > 0 && last.first + last.count == end && Contiguous(handed[..|handed| - 1], last.first)
  }

  lemma InitialInv(s: State)
    requires Initial(s)
    ensures Inv(s, 0)
  {
    AllIdle(s.consumers, Refunds);
    AllIdle(s.consumers, Grants);
    AllIdle(s.consumers, AllReserved);
    AllIdle(s.consumers, ReservedBelow(0));
  }

  /** Replacing one consumer, with the other counters as given. */
  lemma Moved(s: State, s': State, i: nat)
    requires i < |s.consumers| && |s'.consumers| == |s.consumers| && s'.consumers == s.consumers[i := s'.consumers[i]]
    ensures forall k ::
      Total(s'.consumers, k) == Total(s.consumers, k) - Share(s.consumers[i], k) + Share(s'.consumers[i], k)
  {
    forall k
      ensures Total(s'.consumers, k) == Total(s.consumers, k) - Share(s.consumers[i], k) + Share(s'.consumers[i], k)
    {
      TotalUpdate(s.consumers, i, s'.consumers[i], k);
    }
  }

  lemma ReserveKeepsInv(s: State, i: nat, mark: nat)
    requires Inv(s, mark) && Enabled(s, Advance(i)) && s.consumers[i].Wants?
    ensures Inv(Next(s, Advance(i)), mark)
  {
    hide Total, Contiguous;
    var s' := Next(s, Advance(i));
    Moved(s, s', i);
    BelowIsPart(s.consumers, s.optimistic);
    forall j | 0 <= j < |s.consumers| ensures Covered(s', s'.consumers[j], mark) {
      assert Covered(s, s.consumers[j], mark) && Sound(s, s.consumers[j]);
    }
    forall j | 0 <= j < |s.consumers| ensures Sound(s', s'.consumers[j]) {
      assert Sound(s, s.consumers[j]);
    }
  }

  /** The second load of the tail decides the grant. A reservation that is granted anything from above the
      mark becomes the mark. */
  lemma ComputeKeepsInv(s: State, i: nat, mark: nat) returns (mark': nat)
    requires Inv(s, mark) && Enabled(s, Advance(i)) && s.consumers[i].Reserved?
    ensures Inv(Next(s, Advance(i)), mark')
  {
    hide Total, Contiguous;
    var s' := Next(s, Advance(i));
    var c, c' := s.consumers[i], s'.consumers[i];
    Moved(s, s', i);
    WindowIsExact(s.tail, c.myCount, c.overcommit);
    assert Sound(s, c) && Covered(s, c, mark);
    var granted := Share(c', Grants);
    mark' := if granted > 0 && mark <= c.myCount then c.myCount else mark;
    forall j | 0 <= j < |s.consumers| ensures Sound(s', s'.consumers[j]) && Covered(s', s'.consumers[j], mark') {
      assert Sound(s, s.consumers[j]) && Covered(s, s.consumers[j], mark);
    }
  }

  /** The steps that reserve and grant nothing. */
  lemma SimpleStepKeepsInv(s: State, i: nat, mark: nat)
    requires Inv(s, mark) && Enabled(s, Advance(i)) && !s.consumers[i].Wants? && !s.consumers[i].Reserved?
    ensures Inv(Next(s, Advance(i)), mark)
  {
    hide Total;
    var s' := Next(s, Advance(i));
    var c := s.consumers[i];
    Moved(s, s', i);
    assert Sound(s, c);
    if c.LoadedOvercommit? {
      WindowIsExact(c.tail, s.optimistic, c.overcommit);
    }
    if c.Claiming? {
      assert s'.handed[..|s.handed|] == s.handed;
    }
    forall j | 0 <= j < |s.consumers| ensures Sound(s', s'.consumers[j]) && Covered(s', s'.consumers[j], mark) {
      assert Sound(s, s.consumers[j]) && Covered(s, s.consumers[j], mark);
    }
  }

  /** Every step keeps the invariant. */
  lemma NextKeepsInv(s: State, a: Action, mark: nat) returns (mark': nat)
    requires Inv(s, mark) && Enabled(s, a)
    ensures Inv(Next(s, a), mark')
  {
    mark' := mark;
    if a.Advance? {
      Moved(s, Next(s, a), a.i);
      match s.consumers[a.i] {
        case Wants(_, _) => ReserveKeepsInv(s, a.i, mark);
        case Reserved(_, _, _) => mark' := ComputeKeepsInv(s, a.i, mark);
        case _ => SimpleStepKeepsInv(s, a.i, mark);
      }
    }
  }

  // -------------------------------------------------------------------------- what is safe

  /** Exactly one hand-out contains the index. */
  ghost predicate HandedOnce(handed: seq<Interval>, x: nat) {
    && (exists k :: 0 <= k < |handed| && handed[k].Has(x))
    && (forall k, m :: 0 <= k < m < |handed| ==> !(handed[k].Has(x) && handed[m].Has(x)))
  }

  predicate HandedToNobody(handed: seq<Interval>, x: nat) {
    forall k :: 0 <= k < |handed| ==> !handed[k].Has(x)
  }

  lemma {:induction false} ContiguousHandsOnce(handed: seq<Interval>, end: nat, x: nat)
    requires Contiguous(handed, end)
    ensures x < end ==> HandedOnce(handed, x)
    ensures x >= end ==> HandedToNobody(handed, x)
  {
    if handed != [] {
      var n := |handed| - 1;
      var last := handed[n];
      ContiguousHandsOnce(handed[..n], last.first, x);
      assert forall k :: 0 <= k < n ==> handed[..n][k] == handed[k];
      if x < last.first {
        var k :| 0 <= k < |handed[..n]| && handed[..n][k].Has(x);
        assert handed[k].Has(x);
      } else if x < end {
        assert last.Has(x);
      }
    }
  }

  predicate Quiescent(s: State) {
    forall i :: 0 <= i < |s.consumers| ==> s.consumers[i].Idle? || s.consumers[i].Holding?
  }

  /** What the queue promises: no consumer passes the tail, every index below the head went to exactly one
      consumer and no other index to anybody, and between dequeues the two counts differ by the head. */
  ghost predicate Safe(s: State) {
    && s.head <= s.tail
    && (forall x: nat :: x < s.head ==> HandedOnce(s.handed, x))
    && (forall x: nat :: x >= s.head ==> HandedToNobody(s.handed, x))
    && (Quiescent(s) ==> s.optimistic - s.overcommit == s.head)
    && (forall i :: 0 <= i < |s.consumers| && s.consumers[i].Reserved? ==>
          s.consumers[i].overcommit <= s.consumers[i].myCount)
  }

  lemma InvIsSafe(s: State, mark: nat)
    requires Inv(s, mark)
    ensures Safe(s)
  {
    hide HandedOnce, HandedToNobody, Contiguous;
    forall x: nat
      ensures x < s.head ==> HandedOnce(s.handed, x)
      ensures x >= s.head ==> HandedToNobody(s.handed, x)
    {
      ContiguousHandsOnce(s.handed, s.head, x);
    }
    forall i | 0 <= i < |s.consumers| && s.consumers[i].Reserved?
      ensures s.consumers[i].overcommit <= s.consumers[i].myCount
    {
      assert Sound(s, s.consumers[i]);
    }
    if Quiescent(s) {
      AllIdle(s.consumers, Refunds);
      AllIdle(s.consumers, Grants);
      AllIdle(s.consumers, AllReserved);
    }
  }

  lemma {:induction false} PartOfTotal(cs: seq<Consumer>, i: nat, k: Account)
    requires i < |cs|
    ensures Share(cs[i], k) <= Total(cs, k)
  {
    hide Share;
    if i < |cs| - 1 {
      PartOfTotal(cs[..|cs| - 1], i, k);
    }
  }

  /** A claim stays within the published elements, whatever the tail was when it was computed. */
  lemma ClaimWithinTail(s: State, mark: nat, i: nat)
    requires Inv(s, mark) && i < |s.consumers| && s.consumers[i].Claiming?
    ensures 0 < s.consumers[i].actual && s.head + s.consumers[i].actual <= s.tail
  {
    hide Total, Contiguous;
    PartOfTotal(s.consumers, i, Grants);
    assert Sound(s, s.consumers[i]);
  }

  /** How many elements a consumer wants: all that the counters it loaded promise, up to 8192. */
  lemma WantedExactly(s: State, i: nat, s': State)
    requires Enabled(s, Advance(i)) && s.consumers[i].LoadedOvercommit? && s' == Next(s, Advance(i))
    ensures var c := s.consumers[i];
      var d := c.tail - (s.optimistic - c.overcommit);
      s' == s.(consumers := s.consumers[i :=
        if d <= 0 then Idle else Wants(c.overcommit, if d < 8192 then d else 8192)])
  {
    WindowIsExact(s.consumers[i].tail, s.optimistic, s.consumers[i].overcommit);
    hide Available;
  }

  /** How many of them it is granted: as many as are published now behind what was reserved before it. All that it
      reserved beyond is refunded, and nothing else. */
  lemma GrantedExactly(s: State, i: nat, s': State)
    requires Enabled(s, Advance(i)) && s.consumers[i].Reserved? && s.consumers[i].desired > 0
    requires s' == Next(s, Advance(i))
    ensures var c := s.consumers[i];
      var d := s.tail - (c.myCount - c.overcommit);
      var grant := if d <= 0 then 0 else if d < c.desired then d else c.desired;
      s' == s.(consumers := s.consumers[i :=
        if grant == c.desired then Claiming(grant) else Refunding(c.desired - grant, grant)])
  {
    WindowIsExact(s.tail, s.consumers[i].myCount, s.consumers[i].overcommit);
    hide Available;
  }

  /** Every state of every execution is safe, for any number of consumers and any interleaving. */
  lemma {:induction false} EveryStateSafe(run: seq<State>)
    requires Execution(run)
    ensures forall k :: 0 <= k < |run| ==> Safe(run[k])
  {
    hide Inv, Safe, Enabled, Next, Initial;
    var mark := 0;
    InitialInv(run[0]);
    InvIsSafe(run[0], mark);
    for k := 0 to |run| - 1
      invariant Inv(run[k], mark)
      invariant forall j :: 0 <= j <= k ==> Safe(run[j])
    {
      assert Steps(run[k], run[k + 1]);
      var a :| Enabled(run[k], a) && run[k + 1] == Next(run[k], a);
      hide Inv, Available;
      mark := NextKeepsInv(run[k], a, mark);
      InvIsSafe(run[k + 1], mark);
    }
  }

  /** The shared counters and the program counters of the consumers; one method per atomic operation. */
  lemma SomethingDesired(s: State, mark: nat, i: nat)
    requires Inv(s, mark) && i < |s.consumers| && s.consumers[i].Reserved?
    ensures s.consumers[i].desired > 0
  {
    assert Sound(s, s.consumers[i]);
  }

  class Counters {
    var tailIndex: nat
    var headIndex: nat
    var dequeueOptimisticCount: nat
    var dequeueOvercommit: nat
    var consumers: seq<Consumer>
    ghost var handed: seq<Interval>
    ghost var mark: nat

    ghost function Now(): State
      reads this
    {
      State(tailIndex, headIndex, dequeueOptimisticCount, dequeueOvercommit, consumers, handed)
    }

    ghost predicate Valid()
      reads this
    {
      Inv(Now(), mark)
    }

    constructor (threads: nat)
      ensures Valid() && Initial(Now()) && |consumers| == threads
    {
      tailIndex, headIndex, dequeueOptimisticCount, dequeueOvercommit := 0, 0, 0, 0;
      consumers := seq(threads, _ => Idle);
      handed, mark := [], 0;
      new;
      InitialInv(Now());
    }

    /** The producer has constructed an element in place and publishes it. */
    method CommitElement()
      requires Valid()
      modifies this
      ensures Valid() && Now() == Next(old(Now()), Commit)
    {
      hide Inv;
      mark := NextKeepsInv(Now(), Commit, mark);
      tailIndex := tailIndex + 1;
    }

    method LoadTail(i: nat)
      requires Valid() && i < |consumers| && consumers[i].Idle?
      modifies this
      ensures Valid() && Now() == Next(old(Now()), Advance(i))
      ensures Now() == old(Now()).(consumers := old(consumers)[i := LoadedTail(tailIndex)])
    {
      hide Inv, Available;
      mark := NextKeepsInv(Now(), Advance(i), mark);
      consumers := consumers[i := LoadedTail(tailIndex)];
    }

    method LoadOvercommit(i: nat)
      requires Valid() && i < |consumers| && consumers[i].LoadedTail?
      modifies this
      ensures Valid() && Now() == Next(old(Now()), Advance(i))
      ensures Now() ==
        old(Now()).(consumers := old(consumers)[i := LoadedOvercommit(old(consumers)[i].tail, dequeueOvercommit)])
    {
      hide Inv, Available;
      mark := NextKeepsInv(Now(), Advance(i), mark);
      consumers := consumers[i := LoadedOvercommit(consumers[i].tail, dequeueOvercommit)];
    }

    method LoadOptimistic(i: nat)
      requires Valid() && Enabled(Now(), Advance(i)) && consumers[i].LoadedOvercommit?
      modifies this
      ensures Valid() && Now() == Next(old(Now()), Advance(i))
      ensures var c := old(consumers)[i];
        var d := c.tail - (dequeueOptimisticCount - c.overcommit);
        Now() == old(Now()).(consumers := old(consumers)[i :=
          if d <= 0 then Idle else Wants(c.overcommit, if d < 8192 then d else 8192)])
    {
      WantedExactly(Now(), i, Next(Now(), Advance(i)));
      hide Inv, Available;
      mark := NextKeepsInv(Now(), Advance(i), mark);
      var overcommit := consumers[i].overcommit;
      var desiredCount: nat := Available(consumers[i].tail, dequeueOptimisticCount, overcommit);
      if CircularLess(0, desiredCount) {
        desiredCount := if desiredCount < MAX_BULK then desiredCount else MAX_BULK;
        consumers := consumers[i := Wants(overcommit, desiredCount)];
      } else {
        consumers := consumers[i := Idle];
      }
    }

    method FetchAddOptimistic(i: nat)
      requires Valid() && i < |consumers| && consumers[i].Wants?
      modifies this
      ensures Valid() && Now() == Next(old(Now()), Advance(i))
      ensures var c := old(consumers)[i];
        Now() == old(Now()).(optimistic := old(dequeueOptimisticCount) + c.desired,
          consumers := old(consumers)[i := Reserved(c.overcommit, c.desired, old(dequeueOptimisticCount))])
    {
      hide Inv, Available;
      mark := NextKeepsInv(Now(), Advance(i), mark);
      var desired := consumers[i].desired;
      var myDequeueCount := dequeueOptimisticCount;
      dequeueOptimisticCount := dequeueOptimisticCount + desired;
      consumers := consumers[i := Reserved(consumers[i].overcommit, desired, myDequeueCount)];
    }

    method ReloadTail(i: nat)
      requires Valid() && Enabled(Now(), Advance(i)) && consumers[i].Reserved?
      modifies this
      ensures Valid() && Now() == Next(old(Now()), Advance(i))
      ensures var c := old(consumers)[i];
        var d := tailIndex - (c.myCount - c.overcommit);
        var grant := if d <= 0 then 0 else if d < c.desired then d else c.desired;
        Now() == old(Now()).(consumers := old(consumers)[i :=
          if grant == c.desired then Claiming(grant) else Refunding(c.desired - grant, grant)])
    {
      hide Inv, Available;
      SomethingDesired(Now(), mark, i);
      GrantedExactly(Now(), i, Next(Now(), Advance(i)));
      mark := NextKeepsInv(Now(), Advance(i), mark);
      var desired := consumers[i].desired;
      var actualCount: nat := Available(tailIndex, consumers[i].myCount, consumers[i].overcommit);
      if CircularLess(0, actualCount) {
        actualCount := if desired < actualCount then desired else actualCount;
        if actualCount < desired {
          consumers := consumers[i := Refunding(desired - actualCount, actualCount)];
        } else {
          consumers := consumers[i := Claiming(actualCount)];
        }
      } else {
        consumers := consumers[i := Refunding(desired, 0)];
      }
    }

    method FetchAddOvercommit(i: nat)
      requires Valid() && i < |consumers| && consumers[i].Refunding?
      modifies this
      ensures Valid() && Now() == Next(old(Now()), Advance(i))
      ensures var c := old(consumers)[i];
        Now() == old(Now()).(overcommit := old(dequeueOvercommit) + c.refund,
          consumers := old(consumers)[i := if c.actual > 0 then Claiming(c.actual) else Idle])
    {
      hide Inv, Available;
      mark := NextKeepsInv(Now(), Advance(i), mark);
      var actual := consumers[i].actual;
      dequeueOvercommit := dequeueOvercommit + consumers[i].refund;
      consumers := consumers[i := if actual > 0 then Claiming(actual) else Idle];
    }

    method FetchAddHead(i: nat)
      requires Valid() && i < |consumers| && consumers[i].Claiming?
      modifies this
      ensures Valid() && Now() == Next(old(Now()), Advance(i))
      ensures var actual := old(consumers)[i].actual;
        Now() == old(Now()).(head := old(headIndex) + actual,
          handed := old(handed) + [Interval(old(headIndex), actual)],
          consumers := old(consumers)[i := Holding(old(headIndex), actual)])
    {
      hide Inv, Available;
      mark := NextKeepsInv(Now(), Advance(i), mark);
      var actual := consumers[i].actual;
      var firstIndex := headIndex;
      headIndex := headIndex + actual;
      consumers := consumers[i := Holding(firstIndex, actual)];
      handed := handed + [Interval(firstIndex, actual)];
    }

    method CommitElements(n: nat)
      requires Valid()
      modifies this
      ensures Valid() && Now() == old(Now()).(tail := old(tailIndex) + n)
    {
      hide Inv;
      for k := 0 to n
        invariant Valid() && Now() == old(Now()).(tail := old(tailIndex) + k)
      {
        CommitElement();
      }
    }

    /** `dequeue_bulk` when no other consumer is in the middle of a dequeue, with any numbers of elements committed
        between its steps: it takes everything there was at its first load of the tail, up to the bulk limit,
        and refunds nothing. */
    method DequeueBulk(i: nat, c0: nat, c1: nat, c2: nat, c3: nat, c4: nat) returns (count: nat)
      requires Valid() && Quiescent(Now()) && i < |consumers| && consumers[i].Idle?
      requires InWindow(tailIndex + c0 + c1 + c2 + c3 - headIndex)
      modifies this
      ensures Valid() && Quiescent(Now()) && |consumers| == old(|consumers|)
      ensures count == Min(old(tailIndex) - old(headIndex), 8192) && headIndex == old(headIndex) + count
      ensures tailIndex == old(tailIndex) + c0 + c1 + (if count > 0 then c2 + c3 + c4 else 0)
      ensures dequeueOvercommit == old(dequeueOvercommit)
      ensures consumers[i] == if count > 0 then Holding(old(headIndex), count) else Idle
      ensures handed == old(handed) + if count > 0 then [Interval(old(headIndex), count)] else []
    {
      hide Inv, Available, Next;
      InvIsSafe(Now(), mark);
      ghost var first, wanted := tailIndex, Min(tailIndex - headIndex, 8192);
      assert dequeueOptimisticCount - dequeueOvercommit == headIndex <= tailIndex;
      LoadTail(i);
      CommitElements(c0);
      LoadOvercommit(i);
      CommitElements(c1);
      LoadOptimistic(i);
      if consumers[i].Idle? {
        return 0;
      }
      CommitElements(c2);
      FetchAddOptimistic(i);
      CommitElements(c3);
      ReloadTail(i);
      CommitElements(c4);
      count := consumers[i].actual;
      FetchAddHead(i);
    }
  }
}

/** Block accounting inside one span of the allocator: which list each block is on while the owning thread
    allocates and frees and other threads free at the same time. Blocks are numbered from 0. */
module SpanBlocks {

  /** A pointer to a block, null, or the marker that locks the deferred list. */
  datatype Pointer = Null | At(block: nat) | Invalid

  /** The list the span is linked in; a released span is in a cache and belongs to nobody. */
  datatype Status = Partial | Full | Released

  /** Where the owning thread stands. A block it carries is the one it is about to return. */
  datatype Owner =
    | Resting
    | Looking(block: nat)
    | Extracting(block: nat)
    | Extracted(block: nat)
    | Finishing(block: nat)
    | Syncing
    | Synced(list: Pointer)
    | Releasing

  /** Where another thread stands that frees a block of this span. */
  datatype Remote =
    | Away
    | Wants(block: nat)
    | Locked(block: nat, list: Pointer)
    | Linked(block: nat, last: bool)
    | Passing

  /** `heapList`, `spanList` and `deferredList` are the blocks on the three free lists, in order, and `live`
      the blocks that are allocated; `link[b]` is the pointer stored in block `b` while it is free. */
  datatype State = State(count: nat, limit: nat, used: int, listSize: nat,
                         freeList: Pointer, heapFree: Pointer, deferred: Pointer, link: seq<Pointer>,
                         status: Status, owner: Owner, remotes: seq<Remote>,
                         heapList: seq<nat>, spanList: seq<nat>, deferredList: seq<nat>, live: set<nat>)

  // ------------------------------------------------------------------------ linked lists

  ghost predicate Chain(link: seq<Pointer>, head: Pointer, list: seq<nat>)
    decreases list
  {
    if list == [] then head == Null
    else head == At(list[0]) && list[0] < |link| && Chain(link, link[list[0]], list[1..])
  }

  lemma {:induction false} ChainFrame(link: seq<Pointer>, head: Pointer, list: seq<nat>, b: nat, p: Pointer)
    requires Chain(link, head, list) && b !in list && b < |link|
    ensures Chain(link[b := p], head, list)
    decreases list
  {
    if list != [] {
      ChainFrame(link, link[list[0]], list[1..], b, p);
    }
  }

  lemma {:induction false} ChainSame(link: seq<Pointer>, link': seq<Pointer>, head: Pointer, list: seq<nat>)
    requires Chain(link, head, list) && |link'| == |link| && forall b :: b in list ==> b < |link| && link'[b] == link[b]
    ensures Chain(link', head, list)
    decreases list
  {
    if list != [] {
      assert list[0] in list && forall b :: b in list[1..] ==> b in list;
      ChainSame(link, link', link[list[0]], list[1..]);
    }
  }

  lemma ChainPush(link: seq<Pointer>, head: Pointer, list: seq<nat>, b: nat)
    requires Chain(link, head, list) && b !in list && b < |link|
    ensures Chain(link[b := head], At(b), [b] + list)
  {
    ChainFrame(link, head, list, b, head);
    assert ([b] + list)[1..] == list;
  }

  lemma ChainHead(link: seq<Pointer>, head: Pointer, list: seq<nat>)
    requires Chain(link, head, list)
    ensures head == Null <==> list == []
    ensures head != Invalid
    ensures list != [] ==> head == At(list[0]) && list[0] < |link| && Chain(link, link[list[0]], list[1..])
  {}

  // ---------------------------------------------------------------------- the partition

  /** The first `n` blocks. */
  function Upto(n: nat): (r: set<nat>)
    ensures forall b :: b in r <==> 0 <= b < n
    ensures |r| == n
  {
    if n == 0 then {} else Upto(n - 1) + {n - 1}
  }

  /** The consecutive blocks from `a` to `c - 1`. */
  function From(a: nat, c: nat): (r: seq<nat>)
    ensures |r| == if a < c then c - a else 0
  {
    if a < c then From(a, c - 1) + [c - 1] else []
  }

  lemma {:induction false} FromHead(a: nat, c: nat)
    requires a < c
    ensures From(a, c) == [a] + From(a + 1, c)
  {
    if a + 1 < c {
      FromHead(a, c - 1);
      assert From(a, c) == [a] + From(a + 1, c - 1) + [c - 1];
    }
  }

  /** In how many places the block is, counting repetitions on a list. */
  function Places(heapList: seq<nat>, spanList: seq<nat>, deferredList: seq<nat>, live: set<nat>, b: nat): nat {
    multiset(heapList)[b] + multiset(spanList)[b] + multiset(deferredList)[b] + (if b in live then 1 else 0)
  }

  /** Every initialised block is in exactly one place, once, and no other block is anywhere. */
  ghost predicate Divides(heapList: seq<nat>, spanList: seq<nat>, deferredList: seq<nat>, live: set<nat>, limit: nat) {
    forall b: nat :: Places(heapList, spanList, deferredList, live, b) == if b < limit then 1 else 0
  }

  ghost predicate Partition(s: State) { Divides(s.heapList, s.spanList, s.deferredList, s.live, s.limit) }

  /** The places add up. */
  lemma PartitionSizes(s: State)
    requires Partition(s)
    ensures |s.heapList| + |s.spanList| + |s.deferredList| + |s.live| == s.limit
  {
    var m := multiset(s.heapList) + multiset(s.spanList) + multiset(s.deferredList) + multiset(s.live);
    forall b: nat ensures m[b] == multiset(Upto(s.limit))[b] {
      assert Places(s.heapList, s.spanList, s.deferredList, s.live, b) == if b < s.limit then 1 else 0;
    }
    assert m == multiset(Upto(s.limit));
    assert |m| == |multiset(Upto(s.limit))|;
  }

  lemma OnePlace(s: State, b: nat)
    requires Partition(s)
    ensures Places(s.heapList, s.spanList, s.deferredList, s.live, b) == if b < s.limit then 1 else 0
  {}

  lemma InList(list: seq<nat>, b: nat)
    ensures b in list <==> multiset(list)[b] > 0
  {}

  lemma LiveNowhereElse(s: State, b: nat)
    requires Partition(s) && b in s.live
    ensures b < s.limit && b !in s.heapList && b !in s.spanList && b !in s.deferredList
  {
    OnePlace(s, b);
    InList(s.heapList, b);
    InList(s.spanList, b);
    InList(s.deferredList, b);
  }

  // ---------------------------------------------------------------------- the invariant

  predicate FullyUtilized(s: State) { s.freeList == Null && s.limit >= s.count }

  /** The block a remote thread is freeing but has not counted yet. */
  predicate Carries(r: Remote, b: nat) { (r.Wants? || r.Locked?) && r.block == b }

  function BlockCarried(o: Owner): nat {
    match o
    case Looking(b) => b
    case Extracting(b) => b
    case Extracted(b) => b
    case Finishing(b) => b
    case _ => 0
  }

  predicate OwnerCarries(o: Owner, b: nat) {
    (o.Looking? || o.Extracting? || o.Extracted? || o.Finishing?) && o.block == b
  }

  /** Nobody may free the block: it is being freed, or not yet returned. */
  ghost predicate InFlight(s: State, b: nat) {
    OwnerCarries(s.owner, b) || exists i :: 0 <= i < |s.remotes| && Carries(s.remotes[i], b)
  }

  predicate HoldsLock(r: Remote) { r.Locked? || r.Linked? }

  predicate OwnerHoldsLock(o: Owner) { o.Extracted? || o.Synced? }

  ghost predicate Sizes(s: State) {
    && |s.link| == s.count && s.limit <= s.count && 0 < s.count
    && s.listSize == |s.deferredList| && s.used + |s.spanList| == s.limit
  }

  /** At most one thread holds the lock, and the deferred list hangs off what that thread took. */
  ghost predicate Locking(s: State) {
    && (s.deferred == Invalid <==>
          OwnerHoldsLock(s.owner) || exists i :: 0 <= i < |s.remotes| && HoldsLock(s.remotes[i]))
    && (forall i, j :: 0 <= i < j < |s.remotes| ==> !(HoldsLock(s.remotes[i]) && HoldsLock(s.remotes[j])))
    && (forall i :: 0 <= i < |s.remotes| && HoldsLock(s.remotes[i]) ==> !OwnerHoldsLock(s.owner))
    && (s.deferred != Invalid ==> Chain(s.link, s.deferred, s.deferredList))
    && (forall i :: 0 <= i < |s.remotes| ==> RemoteList(s, s.remotes[i]))
    && (s.owner.Extracted? ==> Chain(s.link, s.freeList, s.deferredList))
    && (s.owner.Synced? ==> Chain(s.link, s.owner.list, s.deferredList))
  }

  ghost predicate RemoteList(s: State, r: Remote) {
    match r
    case Locked(_, list) => Chain(s.link, list, s.deferredList)
    case Linked(b, last) => Chain(s.link, At(b), s.deferredList) && (last <==> s.listSize == s.count)
    case _ => true
  }

  ghost predicate Flights(s: State) {
    && (forall b: nat :: OwnerCarries(s.owner, b) ==> b in s.live)
    && (forall i, b: nat :: 0 <= i < |s.remotes| && Carries(s.remotes[i], b) ==>
          b in s.live && !OwnerCarries(s.owner, b))
    && (forall i, j, b: nat :: 0 <= i < j < |s.remotes| ==> !(Carries(s.remotes[i], b) && Carries(s.remotes[j], b)))
  }

  /** The local lists, and how the status relates to them. */
  ghost predicate Local(s: State) {
    && Chain(s.link, s.heapFree, s.heapList)
    && (if s.owner.Extracting? || s.owner.Extracted? then s.spanList == [] else Chain(s.link, s.freeList, s.spanList))
    && (s.status == Full ==> s.owner == Resting && FullyUtilized(s))
    && (s.status == Partial && s.owner == Resting ==> !FullyUtilized(s))
    && ((s.owner.Syncing? || s.owner.Synced? || s.owner.Releasing?) ==> s.spanList != [] && s.used == s.listSize)
    && (s.owner.Releasing? ==> forall i :: 0 <= i < |s.remotes| ==> s.remotes[i].Away?)
    && ((s.owner.Looking? || s.owner.Extracting? || s.owner.Extracted?) ==> s.spanList == [])
    && (forall i :: 0 <= i < |s.remotes| && s.remotes[i].Passing? ==> s.listSize == s.count && s.deferred != Invalid)
    && (forall i, j :: 0 <= i < j < |s.remotes| ==> !(s.remotes[i].Passing? && s.remotes[j].Passing?))
  }

  ghost predicate Active(s: State) {
    s.status != Released && Sizes(s) && Partition(s) && Locking(s) && Flights(s) && Local(s)
  }

  /** A released span: nothing of it is live, on the heap's list, or on its way to a list. */
  ghost predicate Idle(s: State) {
    && s.status == Released && s.owner == Resting && Sizes(s) && Partition(s)
    && s.live == {} && s.heapList == [] && s.heapFree == Null
    && forall i :: 0 <= i < |s.remotes| ==> s.remotes[i].Away?
  }

  ghost predicate Inv(s: State) { Active(s) || Idle(s) }

  /** `used` counts the blocks that are live, on the heap's list, or deferred. */
  lemma UsedCounts(s: State)
    requires Inv(s)
    ensures s.used == |s.live| + |s.heapList| + |s.deferredList|
  {
    PartitionSizes(s);
  }

  // ------------------------------------------------------------------- remote threads

  function RemoteAt(s: State, i: nat, r: Remote): State
    requires i < |s.remotes|
  {
    s.(remotes := s.remotes[i := r])
  }

  lemma BeginKeeps(s: State, i: nat, b: nat)
    requires Active(s) && i < |s.remotes| && s.remotes[i] == Away && b in s.live && !InFlight(s, b)
    ensures Active(RemoteAt(s, i, Wants(b)))
  {
    hide Chain, Divides;
    var s' := RemoteAt(s, i, Wants(b));
    OthersStay(s, s', i);
    NotReleasing(s, b);
    forall j, c: nat | 0 <= j < |s'.remotes| && Carries(s'.remotes[j], c)
      ensures if j == i then c == b else Carries(s.remotes[j], c) && c != b
    {}
  }

  /** While a block is live the owner is not about to release the span. */
  lemma NotReleasing(s: State, b: nat)
    requires Active(s) && b in s.live
    ensures s.used > s.listSize && !s.owner.Releasing? && !s.owner.Syncing? && !s.owner.Synced? && s.listSize < s.count
    ensures forall j :: 0 <= j < |s.remotes| ==> !s.remotes[j].Passing?
  {
    hide Chain;
    PartitionSizes(s);
    assert |s.live| > 0;
  }

  /** The lock of a state in which one remote thread moved, without taking or giving back the lock. */
  lemma OthersStay(s: State, s': State, i: nat)
    requires Locking(s) && i < |s.remotes| && |s'.remotes| == |s.remotes| && s' == RemoteAt(s, i, s'.remotes[i])
    requires HoldsLock(s'.remotes[i]) == HoldsLock(s.remotes[i]) == false
    ensures Locking(s')
  {
    hide Chain;
    if j :| 0 <= j < |s.remotes| && HoldsLock(s.remotes[j]) {
      assert HoldsLock(s'.remotes[j]);
    }
    if j :| 0 <= j < |s.remotes| && HoldsLock(s'.remotes[j]) {
      assert HoldsLock(s.remotes[j]);
    }
    forall j | 0 <= j < |s'.remotes| ensures RemoteList(s', s'.remotes[j]) {
      assert RemoteList(s, s.remotes[j]);
    }
  }

  /** The exchange succeeds exactly when nobody holds the lock. */
  lemma LockKeeps(s: State, i: nat)
    requires Active(s) && i < |s.remotes| && s.remotes[i].Wants? && s.deferred != Invalid
    ensures Active(RemoteAt(s, i, Locked(s.remotes[i].block, s.deferred)).(deferred := Invalid))
  {
    hide Chain, Divides;
    var s' := RemoteAt(s, i, Locked(s.remotes[i].block, s.deferred)).(deferred := Invalid);
    CarriedIsLive(s, i);
    NotReleasing(s, s.remotes[i].block);
    assert HoldsLock(s'.remotes[i]);
    forall j | 0 <= j < |s'.remotes| ensures RemoteList(s', s'.remotes[j]) {
      assert RemoteList(s, s.remotes[j]);
    }
    forall j, b: nat | 0 <= j < |s'.remotes| && Carries(s'.remotes[j], b) ensures Carries(s.remotes[j], b) {}
  }

  function Counted(s: State, i: nat): State
    requires i < |s.remotes| && s.remotes[i].Locked? && s.remotes[i].block < |s.link|
  {
    var b := s.remotes[i].block;
    RemoteAt(s, i, Linked(b, s.listSize + 1 == s.count)).(
      link := s.link[b := s.remotes[i].list], listSize := s.listSize + 1,
      deferredList := [b] + s.deferredList, live := s.live - {b})
  }

  lemma CountKeeps(s: State, i: nat)
    requires Active(s) && i < |s.remotes| && s.remotes[i].Locked?
    ensures s.remotes[i].block < |s.link| && Active(Counted(s, i))
  {
    hide Chain;
    var b := s.remotes[i].block;
    assert Carries(s.remotes[i], b);
    LiveNowhereElse(s, b);
    NotReleasing(s, b);
    var s' := Counted(s, i);
    MovePartition(s, s', b);
    CountLocking(s, i);
    CountFlights(s, i);
    CountLocal(s, i);
  }

  lemma MovePartition(s: State, s': State, b: nat)
    requires Partition(s) && b in s.live && s'.limit == s.limit && s'.live == s.live - {b} && s'.heapList == s.heapList
    requires (s'.deferredList == [b] + s.deferredList && s'.spanList == s.spanList) ||
             (s'.spanList == [b] + s.spanList && s'.deferredList == s.deferredList)
    ensures Partition(s')
  {
    forall c: nat
      ensures Places(s'.heapList, s'.spanList, s'.deferredList, s'.live, c) ==
              Places(s.heapList, s.spanList, s.deferredList, s.live, c)
    {
      PushCounts(s.deferredList, b, c);
      PushCounts(s.spanList, b, c);
    }
  }

  lemma PushCounts(list: seq<nat>, x: nat, c: nat)
    ensures multiset([x] + list)[c] == multiset(list)[c] + (if c == x then 1 else 0)
    ensures multiset(list + [x])[c] == multiset(list)[c] + (if c == x then 1 else 0)
  {}

  lemma CountLocking(s: State, i: nat)
    requires Active(s) && i < |s.remotes| && s.remotes[i].Locked? && s.remotes[i].block < |s.link|
    requires s.remotes[i].block !in s.deferredList
    ensures Locking(Counted(s, i))
  {
    hide Chain, Divides, Flights, Local;
    var s', b := Counted(s, i), s.remotes[i].block;
    assert HoldsLock(s.remotes[i]) && HoldsLock(s'.remotes[i]);
    assert RemoteList(s, s.remotes[i]);
    ChainPush(s.link, s.remotes[i].list, s.deferredList, b);
    forall j | 0 <= j < |s'.remotes| ensures RemoteList(s', s'.remotes[j]) {
      if j != i {
        assert !HoldsLock(s.remotes[j]);
      }
    }
  }

  lemma CountFlights(s: State, i: nat)
    requires Active(s) && i < |s.remotes| && s.remotes[i].Locked? && s.remotes[i].block < |s.link|
    ensures Flights(Counted(s, i))
  {
    hide Chain, Divides, Locking, Local;
    var s', b := Counted(s, i), s.remotes[i].block;
    assert Carries(s.remotes[i], b);
    forall j, c: nat | 0 <= j < |s'.remotes| && Carries(s'.remotes[j], c)
        ensures Carries(s.remotes[j], c) && j != i && c != b {
      assert Carries(s.remotes[j], c);
    }
  }

  lemma CountLocal(s: State, i: nat)
    requires Active(s) && i < |s.remotes| && s.remotes[i].Locked? && s.remotes[i].block < |s.link|
    requires s.remotes[i].block !in s.heapList && s.remotes[i].block !in s.spanList
    requires !s.owner.Releasing? && !s.owner.Syncing? && !s.owner.Synced?
    requires forall j :: 0 <= j < |s.remotes| ==> !s.remotes[j].Passing?
    ensures Local(Counted(s, i))
  {
    hide Chain, Divides, Locking, Flights;
    var b := s.remotes[i].block;
    ChainFrame(s.link, s.heapFree, s.heapList, b, s.remotes[i].list);
    if !(s.owner.Extracting? || s.owner.Extracted?) {
      ChainFrame(s.link, s.freeList, s.spanList, b, s.remotes[i].list);
    }
  }

  function Stored(s: State, i: nat): State
    requires i < |s.remotes| && s.remotes[i].Linked?
  {
    RemoteAt(s, i, if s.remotes[i].last then Passing else Away).(deferred := At(s.remotes[i].block))
  }

  lemma StoreKeeps(s: State, i: nat)
    requires Active(s) && i < |s.remotes| && s.remotes[i].Linked?
    ensures Active(Stored(s, i))
  {
    hide Chain, Divides;
    var s' := Stored(s, i);
    assert HoldsLock(s.remotes[i]) && RemoteList(s, s.remotes[i]);
    if s.remotes[i].last {
      NobodyElse(s);
    }
    assert forall j :: 0 <= j < |s.remotes| ==> !s.remotes[j].Passing?;
    forall j | 0 <= j < |s'.remotes| ensures !HoldsLock(s'.remotes[j]) {
      assert j != i ==> !HoldsLock(s.remotes[j]);
    }
    forall j, b: nat | 0 <= j < |s'.remotes| && Carries(s'.remotes[j], b) ensures Carries(s.remotes[j], b) {}
  }

  lemma CarriedIsLive(s: State, i: nat)
    requires Flights(s) && i < |s.remotes| && (s.remotes[i].Wants? || s.remotes[i].Locked?)
    ensures s.remotes[i].block in s.live && !OwnerCarries(s.owner, s.remotes[i].block)
  {
    assert Carries(s.remotes[i], s.remotes[i].block);
  }

  /** Once every block is deferred nothing is live and the owner is not in the middle of anything. */
  lemma NobodyElse(s: State)
    requires Active(s) && s.listSize == s.count
    ensures s.live == {} && s.heapList == [] && s.spanList == [] && s.limit == s.count && s.owner == Resting
    ensures s.status == Full
    ensures forall j :: 0 <= j < |s.remotes| ==> !s.remotes[j].Wants? && !s.remotes[j].Locked?
  {
    hide Chain;
    PartitionSizes(s);
    assert s.live == {} && s.heapList == [] && s.spanList == [];
    forall j | 0 <= j < |s.remotes| ensures !s.remotes[j].Wants? && !s.remotes[j].Locked? {
      if s.remotes[j].Wants? || s.remotes[j].Locked? {
        CarriedIsLive(s, j);
      }
    }
    assert !OwnerCarries(s.owner, BlockCarried(s.owner));
    ChainHead(s.link, s.freeList, s.spanList);
  }

  /** A thread that deferred the last block hands the whole span over: every block is on the deferred list. */
  lemma PassKeeps(s: State, i: nat, p: Pointer)
    requires Active(s) && i < |s.remotes| && s.remotes[i] == Passing
    ensures Idle(RemoteAt(s, i, Away).(status := Released, freeList := p))
  {
    hide Chain;
    NobodyElse(s);
    ChainHead(s.link, s.heapFree, s.heapList);
    forall j | 0 <= j < |s.remotes| && j != i ensures s.remotes[j] == Away {
      assert !HoldsLock(s.remotes[j]);
    }
  }

  // ----------------------------------------------------------------- the owning thread

  /** A block moves from a list to the live blocks. */
  lemma TakePartition(s: State, s': State)
    requires Partition(s) && s'.limit == s.limit && s'.deferredList == s.deferredList
    requires
      || (s.heapList != [] && s'.heapList == s.heapList[1..] && s'.spanList == s.spanList &&
          s'.live == s.live + {s.heapList[0]})
      || (s.heapList == [] && s.spanList != [] && s'.heapList == s.spanList[1..] && s'.spanList == []
          && s'.live == s.live + {s.spanList[0]})
    ensures Partition(s') && |s'.live| == |s.live| + 1
  {
    var list := if s.heapList != [] then s.heapList else s.spanList;
    OnePlace(s, list[0]);
    InList(list, list[0]);
    var rest, x := list[1..], list[0];
    assert list == [x] + rest && x !in s.live;
    hide Places;
    forall c: nat
      ensures Places(s'.heapList, s'.spanList, s'.deferredList, s'.live, c) ==
              Places(s.heapList, s.spanList, s.deferredList, s.live, c)
    {
      if s.heapList != [] {
        TakePlaces(rest, s.spanList, s.deferredList, s.live, x, c);
      } else {
        TakePlaces(rest, [], s.deferredList, s.live, x, c);
      }
    }
  }

  lemma TakePlaces(rest: seq<nat>, other: seq<nat>, deferred: seq<nat>, live: set<nat>, x: nat, c: nat)
    requires x !in live
    ensures Places(rest, other, deferred, live + {x}, c) == Places([x] + rest, other, deferred, live, c)
    ensures Places(other, [x] + rest, deferred, live, c) == Places([x] + rest, other, deferred, live, c)
  {
    PushCounts(rest, x, c);
  }

  function Popped(s: State): State
    requires s.heapList != [] && s.heapList[0] < |s.link|
  {
    s.(heapFree := s.link[s.heapList[0]], heapList := s.heapList[1..], live := s.live + {s.heapList[0]})
  }

  /** An allocation from the heap's list. */
  lemma PopKeeps(s: State)
    requires Active(s) && s.owner == Resting && s.heapFree != Null
    ensures s.heapList != [] && s.heapFree == At(s.heapList[0]) && s.heapList[0] < |s.link|
    ensures s.heapList[0] !in s.live && Active(Popped(s)) && !InFlight(Popped(s), s.heapList[0])
  {
    hide Divides;
    ChainHead(s.link, s.heapFree, s.heapList);
    hide Chain;
    var b := s.heapList[0];
    TakePartition(s, Popped(s));
    OnePlace(s, b);
    InList(s.heapList, b);
    SameLocking(s, Popped(s));
    forall i | 0 <= i < |s.remotes| && (s.remotes[i].Wants? || s.remotes[i].Locked?)
        ensures s.remotes[i].block in s.live {
      CarriedIsLive(s, i);
    }
  }

  /** The lock depends only on the links, the deferred list, and who holds it. */
  lemma SameLocking(s: State, s': State)
    requires Locking(s) && s'.link == s.link && s'.deferred == s.deferred && s'.deferredList == s.deferredList
    requires s'.remotes == s.remotes && s'.listSize == s.listSize && s'.count == s.count
    requires !OwnerHoldsLock(s.owner) && !OwnerHoldsLock(s'.owner)
    ensures Locking(s')
  {
    hide Chain;
    forall i | 0 <= i < |s'.remotes| ensures RemoteList(s', s'.remotes[i]) {
      assert RemoteList(s, s.remotes[i]);
    }
  }

  /** The span's own list becomes the heap's list, and its first block is the result. */
  function Swapped(s: State): State
    requires s.spanList != [] && s.spanList[0] < |s.link|
  {
    s.(heapFree := s.link[s.spanList[0]], heapList := s.spanList[1..], freeList := Null, spanList := [],
       used := s.limit, live := s.live + {s.spanList[0]}, owner := Looking(s.spanList[0]))
  }

  lemma SwapKeeps(s: State)
    requires Active(s) && s.status == Partial && s.owner == Resting && s.heapFree == Null && s.freeList != Null
    ensures s.spanList != [] && s.freeList == At(s.spanList[0]) && s.spanList[0] < |s.link|
    ensures s.spanList[0] !in s.live && Active(Swapped(s))
  {
    hide Divides;
    ChainHead(s.link, s.heapFree, s.heapList);
    ChainHead(s.link, s.freeList, s.spanList);
    assert Chain(s.link, Null, []);
    hide Chain;
    var b := s.spanList[0];
    TakePartition(s, Swapped(s));
    OnePlace(s, b);
    InList(s.spanList, b);
    SameLocking(s, Swapped(s));
    StillFlying(s, Swapped(s), b);
    NobodyPassing(s, Swapped(s));
  }

  /** A block that becomes live was carried by nobody. */
  lemma StillFlying(s: State, s': State, b: nat)
    requires Flights(s) && s'.remotes == s.remotes && s'.live == s.live + {b} && b !in s.live
    requires s.owner == Resting && (s'.owner == Resting || (forall c: nat :: OwnerCarries(s'.owner, c) <==> c == b))
    ensures Flights(s')
  {
    forall i, c: nat | 0 <= i < |s'.remotes| && Carries(s'.remotes[i], c) ensures c in s'.live && c != b {
      CarriedIsLive(s, i);
    }
  }

  lemma NobodyPassing(s: State, s': State)
    requires Active(s) && s.status == Partial && s.owner == Resting && s'.remotes == s.remotes
    ensures forall i :: 0 <= i < |s'.remotes| ==> !s'.remotes[i].Passing?
  {
    hide Chain, Divides;
    if i :| 0 <= i < |s.remotes| && s.remotes[i].Passing? {
      NobodyElse(s);
    }
  }

  /** `n` fresh blocks: the first is the result, the others, already linked, the heap's list. */
  function Extended(s: State, n: nat, link: seq<Pointer>): State {
    s.(limit := s.limit + n, used := s.limit + n, heapFree := if n == 1 then Null else At(s.limit + 1), link := link,
       heapList := From(s.limit + 1, s.limit + n), live := s.live + {s.limit}, owner := Looking(s.limit))
  }

  /** `link'` chains the blocks from `a` to `c - 1` and leaves all other blocks alone. */
  ghost predicate ChainsRange(link: seq<Pointer>, link': seq<Pointer>, a: nat, c: nat) {
    && |link'| == |link| && a <= c <= |link|
    && (forall b :: 0 <= b < |link| && !(a <= b < c) ==> link'[b] == link[b])
    && (forall b :: a <= b < c ==> link'[b] == if b == c - 1 then Null else At(b + 1))
  }

  lemma {:induction false} RangeChain(link: seq<Pointer>, link': seq<Pointer>, a: nat, c: nat, m: nat)
    requires ChainsRange(link, link', a, c) && a <= m <= c
    ensures Chain(link', if m == c then Null else At(m), From(m, c))
    decreases c - m
  {
    if m < c {
      RangeChain(link, link', a, c, m + 1);
      FromHead(m, c);
    }
  }

  lemma {:induction false} FromCounts(a: nat, c: nat, b: nat)
    ensures multiset(From(a, c))[b] == if a <= b < c then 1 else 0
  {
    FromStep(a, c);
    if a < c {
      FromCounts(a, c - 1, b);
      hide From;
      PushCounts(From(a, c - 1), c - 1, b);
    }
  }

  lemma FromStep(a: nat, c: nat)
    ensures From(a, c) == if a < c then From(a, c - 1) + [c - 1] else []
  {}

  lemma ExtendPlaces(s: State, n: nat, list: seq<nat>, live: set<nat>, b: nat)
    requires Partition(s) && s.heapList == [] && 0 < n
    requires list == From(s.limit + 1, s.limit + n) && live == s.live + {s.limit}
    ensures Places(list, s.spanList, s.deferredList, live, b) == if b < s.limit + n then 1 else 0
  {
    hide From;
    OnePlace(s, b);
    FromCounts(s.limit + 1, s.limit + n, b);
  }

  /** The first block becomes live, the others make the list. */
  lemma ExtendPartition(s: State, n: nat)
    requires Partition(s) && s.heapList == [] && 0 < n
    ensures Divides(From(s.limit + 1, s.limit + n), s.spanList, s.deferredList, s.live + {s.limit}, s.limit + n)
  {
    hide From, Places;
    var list, live := From(s.limit + 1, s.limit + n), s.live + {s.limit};
    forall b: nat ensures Places(list, s.spanList, s.deferredList, live, b) == if b < s.limit + n then 1 else 0 {
      ExtendPlaces(s, n, list, live, b);
    }
  }

  lemma ListsBelowLimit(s: State)
    requires Partition(s)
    ensures forall b :: b in s.spanList || b in s.deferredList || b in s.heapList ==> b < s.limit
  {
    forall b | b in s.spanList || b in s.deferredList || b in s.heapList ensures b < s.limit {
      OnePlace(s, b);
      InList(s.spanList, b);
      InList(s.deferredList, b);
      InList(s.heapList, b);
    }
  }

  /** Links of uninitialised blocks do not matter to the lists. */
  lemma FreshLinksLocking(s: State, s': State)
    requires Locking(s) && |s'.link| == |s.link| && s'.deferred == s.deferred && s'.deferredList == s.deferredList
    requires forall b :: b in s.deferredList ==> b < |s.link| && s'.link[b] == s.link[b]
    requires s'.remotes == s.remotes && s'.listSize == s.listSize && s'.count == s.count
    requires !OwnerHoldsLock(s.owner) && !OwnerHoldsLock(s'.owner)
    ensures Locking(s')
  {
    hide Chain;
    if s.deferred != Invalid {
      ChainSame(s.link, s'.link, s.deferred, s.deferredList);
    }
    forall i | 0 <= i < |s'.remotes| ensures RemoteList(s', s'.remotes[i]) {
      assert RemoteList(s, s.remotes[i]);
      if s.remotes[i].Locked? {
        ChainSame(s.link, s'.link, s.remotes[i].list, s.deferredList);
      } else if s.remotes[i].Linked? {
        ChainSame(s.link, s'.link, At(s.remotes[i].block), s.deferredList);
      }
    }
  }

  lemma ExtendKeeps(s: State, n: nat, link: seq<Pointer>)
    requires Active(s) && s.status == Partial && s.owner == Resting && s.heapFree == Null && s.freeList == Null
    requires 0 < n && s.limit + n <= s.count && ChainsRange(s.link, link, s.limit + 1, s.limit + n)
    ensures s.limit !in s.live && Active(Extended(s, n, link))
  {
    hide Divides;
    ChainHead(s.link, s.heapFree, s.heapList);
    ChainHead(s.link, s.freeList, s.spanList);
    assert Chain(link, Null, []);
    hide Chain;
    RangeChain(s.link, link, s.limit + 1, s.limit + n, s.limit + 1);
    var s' := Extended(s, n, link);
    ExtendPartition(s, n);
    ListsBelowLimit(s);
    OnePlace(s, s.limit);
    FreshLinksLocking(s, s');
    StillFlying(s, s', s.limit);
    NobodyPassing(s, s');
  }

  function Looked(s: State): State
    requires s.owner.Looking?
  {
    s.(owner := if s.deferred == Null then Finishing(s.owner.block) else Extracting(s.owner.block))
  }

  lemma LookKeeps(s: State)
    requires Active(s) && s.owner.Looking?
    ensures Active(Looked(s))
  {
    hide Chain, Divides;
    SameLocking(s, Looked(s));
    assert forall b: nat :: OwnerCarries(Looked(s).owner, b) <==> OwnerCarries(s.owner, b);
  }

  /** One turn of the spin loop: the exchange puts the marker in place and hands out what was there. */
  function Tried(s: State): State
    requires s.owner.Extracting?
  {
    s.(freeList := s.deferred, deferred := Invalid,
       owner := if s.deferred == Invalid then s.owner else Extracted(s.owner.block))
  }

  lemma TryKeeps(s: State)
    requires Active(s) && s.owner.Extracting?
    ensures Active(Tried(s))
  {
    hide Chain, Divides;
    var s' := Tried(s);
    assert forall b: nat :: OwnerCarries(s'.owner, b) <==> OwnerCarries(s.owner, b);
    forall i | 0 <= i < |s.remotes| ensures RemoteList(s', s'.remotes[i]) {
      assert RemoteList(s, s.remotes[i]);
    }
    assert OwnerCarries(s.owner, s.owner.block);
    NotReleasing(s, s.owner.block);
    if s.deferred != Invalid {
      assert forall i :: 0 <= i < |s.remotes| ==> !HoldsLock(s.remotes[i]);
    }
  }

  /** The deferred blocks become the span's list; the lock is given back with an empty list. */
  function Collected(s: State): State
    requires s.owner.Extracted?
  {
    s.(used := s.used - s.listSize, listSize := 0, deferred := Null, spanList := s.deferredList, deferredList := [],
       owner := Finishing(s.owner.block))
  }

  lemma CollectKeeps(s: State)
    requires Active(s) && s.owner.Extracted?
    ensures Active(Collected(s))
  {
    assert Chain(s.link, Null, []);
    hide Chain;
    var s' := Collected(s);
    assert forall b: nat :: OwnerCarries(s'.owner, b) <==> OwnerCarries(s.owner, b);
    forall c: nat
      ensures Places(s'.heapList, s'.spanList, s'.deferredList, s'.live, c) ==
              Places(s.heapList, s.spanList, s.deferredList, s.live, c)
    {}
    assert OwnerCarries(s.owner, s.owner.block);
    NotReleasing(s, s.owner.block);
    forall i | 0 <= i < |s.remotes| ensures !HoldsLock(s.remotes[i]) {}
  }

  function Finished(s: State): State
    requires s.owner.Finishing?
  {
    s.(owner := Resting, status := if FullyUtilized(s) then Full else s.status)
  }

  lemma FinishKeeps(s: State)
    requires Active(s) && s.owner.Finishing?
    ensures Active(Finished(s)) && s.owner.block in s.live && !InFlight(Finished(s), s.owner.block)
  {
    hide Chain, Divides;
    SameLocking(s, Finished(s));
    assert OwnerCarries(s.owner, s.owner.block);
    forall i | 0 <= i < |s.remotes| && (s.remotes[i].Wants? || s.remotes[i].Locked?)
      ensures !OwnerCarries(s.owner, s.remotes[i].block)
    {
      CarriedIsLive(s, i);
    }
  }

  /** A block freed by the owning thread. The counter is first set to the block count if the span was fully utilised. */
  function Freed(s: State, b: nat): State
    requires b < |s.link|
  {
    var used := (if FullyUtilized(s) then s.count else s.used) - 1;
    s.(used := used, status := Partial, link := s.link[b := s.freeList], freeList := At(b),
       spanList := [b] + s.spanList, live := s.live - {b},
       owner := if used != s.listSize then Resting else if used != 0 then Syncing else Releasing)
  }

  lemma FreeKeeps(s: State, b: nat)
    requires Active(s) && s.owner == Resting && b in s.live && !InFlight(s, b)
    ensures b < |s.link| && Active(Freed(s, b))
    ensures FullyUtilized(s) ==> s.used == s.count
  {
    LiveNowhereElse(s, b);
    ChainHead(s.link, s.freeList, s.spanList);
    hide Chain;
    NotReleasing(s, b);
    var s' := Freed(s, b);
    MovePartition(s, s', b);
    FreeLocking(s, b);
    FreeFlights(s, b);
    ChainPush(s.link, s.freeList, s.spanList, b);
    ChainFrame(s.link, s.heapFree, s.heapList, b, s.freeList);
    if s'.owner.Releasing? {
      NobodyAround(s');
    }
  }

  lemma FreeLocking(s: State, b: nat)
    requires Locking(s) && s.owner == Resting && b < |s.link| && b !in s.deferredList
    ensures Locking(Freed(s, b))
  {
    hide Chain;
    var s' := Freed(s, b);
    if s.deferred != Invalid {
      ChainFrame(s.link, s.deferred, s.deferredList, b, s.freeList);
    }
    forall i | 0 <= i < |s'.remotes| ensures RemoteList(s', s'.remotes[i]) {
      FrameRemote(s, s', s.remotes[i], b);
    }
  }

  lemma FrameRemote(s: State, s': State, r: Remote, b: nat)
    requires RemoteList(s, r) && b < |s.link| && b !in s.deferredList
    requires |s'.link| == |s.link| && s'.link == s.link[b := s'.link[b]]
    requires s'.deferredList == s.deferredList && s'.listSize == s.listSize && s'.count == s.count
    ensures RemoteList(s', r)
  {
    hide Chain;
    if r.Locked? {
      ChainFrame(s.link, r.list, s.deferredList, b, s'.link[b]);
    } else if r.Linked? {
      ChainFrame(s.link, At(r.block), s.deferredList, b, s'.link[b]);
    }
  }

  lemma FreeFlights(s: State, b: nat)
    requires Flights(s) && s.owner == Resting && b < |s.link| && !InFlight(s, b)
    ensures Flights(Freed(s, b))
  {
    forall i, c: nat | 0 <= i < |s.remotes| && Carries(s.remotes[i], c) ensures c in s.live && c != b {}
  }

  /** When every used block is deferred, and the lock is free or the owner's, no other thread is around. */
  lemma NobodyAround(s: State)
    requires Sizes(s) && Partition(s) && Locking(s) && Flights(s) && s.used == s.listSize && s.spanList != []
    requires s.listSize == 0 || s.owner.Synced?
    requires forall i :: 0 <= i < |s.remotes| && s.remotes[i].Passing? ==> s.listSize == s.count
    ensures s.live == {} && s.heapList == [] && forall i :: 0 <= i < |s.remotes| ==> s.remotes[i] == Away
  {
    PartitionSizes(s);
    assert s.live == {} && s.heapList == [];
    hide Chain, Divides;
    forall i | 0 <= i < |s.remotes| ensures s.remotes[i] == Away {
      if s.remotes[i].Wants? || s.remotes[i].Locked? {
        CarriedIsLive(s, i);
      } else if s.remotes[i].Linked? {
        assert RemoteList(s, s.remotes[i]) && HoldsLock(s.remotes[i]);
        ChainHead(s.link, At(s.remotes[i].block), s.deferredList);
      }
    }
  }

  function SyncTried(s: State): State
    requires s.owner.Syncing?
  {
    s.(deferred := Invalid, owner := if s.deferred == Invalid then Syncing else Synced(s.deferred))
  }

  lemma SyncKeeps(s: State)
    requires Active(s) && s.owner.Syncing?
    ensures Active(SyncTried(s))
  {
    hide Chain, Divides;
    var s' := SyncTried(s);
    forall i | 0 <= i < |s.remotes| ensures RemoteList(s', s'.remotes[i]) {
      assert RemoteList(s, s.remotes[i]);
    }
    if s.deferred != Invalid {
      assert forall i :: 0 <= i < |s.remotes| ==> !HoldsLock(s.remotes[i]);
    }
  }

  function SyncDone(s: State): State
    requires s.owner.Synced?
  {
    s.(deferred := s.owner.list, owner := Releasing)
  }

  lemma SyncDoneKeeps(s: State)
    requires Active(s) && s.owner.Synced?
    ensures Active(SyncDone(s))
  {
    NobodyAround(s);
    ChainHead(s.link, s.owner.list, s.deferredList);
    hide Chain, Divides;
    forall i | 0 <= i < |s.remotes| ensures RemoteList(SyncDone(s), s.remotes[i]) {}
  }

  /** The span goes to a cache only when nothing of it is live and no other thread is about to touch it. */
  lemma ReleaseKeeps(s: State)
    requires Active(s) && s.owner.Releasing?
    ensures Idle(s.(status := Released, owner := Resting))
  {
    PartitionSizes(s);
    ChainHead(s.link, s.heapFree, s.heapList);
    assert s.live == {} && s.heapList == [];
  }

  /** The owner of a block writes to it as it likes. */
  lemma WriteKeeps(s: State, b: nat, p: Pointer)
    requires Active(s) && b in s.live
    ensures b < |s.link| && Active(s.(link := s.link[b := p]))
  {
    hide Chain, Divides;
    LiveNowhereElse(s, b);
    var s' := s.(link := s.link[b := p]);
    ChainFrame(s.link, s.heapFree, s.heapList, b, p);
    if !(s.owner.Extracting? || s.owner.Extracted?) {
      ChainFrame(s.link, s.freeList, s.spanList, b, p);
    }
    if s.deferred != Invalid {
      ChainFrame(s.link, s.deferred, s.deferredList, b, p);
    }
    if s.owner.Extracted? {
      ChainFrame(s.link, s.freeList, s.deferredList, b, p);
    }
    if s.owner.Synced? {
      ChainFrame(s.link, s.owner.list, s.deferredList, b, p);
    }
    forall i | 0 <= i < |s'.remotes| ensures RemoteList(s', s'.remotes[i]) {
      assert RemoteList(s, s.remotes[i]);
      FrameRemote(s, s', s.remotes[i], b);
    }
  }

  /** An idle span is given new blocks, of which the first `n` are initialised. */
  function Initialized(s: State, count: nat, n: nat, link: seq<Pointer>): State {
    s.(count := count, limit := n, used := if n < count then n else count, listSize := 0,
       freeList := Null, heapFree := if n == 1 then Null else At(1), deferred := Null, link := link,
       status := if n < count then Partial else Full,
       heapList := From(1, n), spanList := [], deferredList := [], live := {0})
  }

  lemma InitialPlaces(n: nat, b: nat)
    requires n > 0
    ensures Places(From(1, n), [], [], {0}, b) == if b < n then 1 else 0
  {
    hide From;
    FromCounts(1, n, b);
  }

  lemma InitializeKeeps(s: State, count: nat, n: nat, memory: seq<Pointer>, link: seq<Pointer>)
    requires Idle(s) && 0 < n <= count == |memory| && ChainsRange(memory, link, 1, n)
    ensures Active(Initialized(s, count, n, link))
  {
    RangeChain(memory, link, 1, n, 1);
    assert Chain(link, Null, []);
    hide Chain, From, Places;
    var s' := Initialized(s, count, n, link);
    forall b: nat ensures Places(s'.heapList, s'.spanList, s'.deferredList, s'.live, b) == if b < n then 1 else 0 {
      InitialPlaces(n, b);
    }
    forall i | 0 <= i < |s'.remotes| ensures s'.remotes[i] == Away {
      assert s.remotes[i].Away?;
    }
  }

  // ------------------------------------------------------------------------------ runs

  /** What can happen next: a step of a remote thread, a step of the owner, a program writing to its block, or
      the reuse of an idle span. */
  datatype Action =
    | DeferBegin(i: nat, b: nat) | DeferLock(i: nat) | DeferCount(i: nat) | DeferStore(i: nat)
    | DeferSpan(i: nat, p: Pointer)
    | AllocateFast | SwapLists | LinkUpBlocks(n: nat, links: seq<Pointer>)
    | LookAtDeferred | TryExtract | CollectDeferred
    | FinishAllocation | FreeDirect(b: nat) | SyncTry | SyncStore | ReleaseToCache
    | WriteBlock(b: nat, p: Pointer) | InitializeNew(count: nat, n: nat, memory: seq<Pointer>, links: seq<Pointer>)

  ghost predicate RemoteMoves(s: State, a: Action, s': State) {
    match a
    case DeferBegin(i, b) =>
      i < |s.remotes| && s.remotes[i] == Away && b in s.live && !InFlight(s, b) && s' == RemoteAt(s, i, Wants(b))
    case DeferLock(i) =>
      i < |s.remotes| && s.remotes[i].Wants? &&
      s' == if s.deferred == Invalid then s
            else RemoteAt(s, i, Locked(s.remotes[i].block, s.deferred)).(deferred := Invalid)
    case DeferCount(i) => i < |s.remotes| && s.remotes[i].Locked? && s.remotes[i].block < |s.link| &&
        s' == Counted(s, i)
    case DeferStore(i) => i < |s.remotes| && s.remotes[i].Linked? && s' == Stored(s, i)
    case DeferSpan(i, p) =>
      i < |s.remotes| && s.remotes[i] == Passing && s' == RemoteAt(s, i, Away).(status := Released, freeList := p)
    case _ => false
  }

  ghost predicate OwnerAllocates(s: State, a: Action, s': State) {
    match a
    case AllocateFast =>
      s.owner == Resting && s.heapFree != Null && s.heapList != [] && s.heapList[0] < |s.link| && s' == Popped(s)
    case SwapLists =>
      && s.status == Partial && s.owner == Resting && s.heapFree == Null && s.freeList != Null
      && s.spanList != [] && s.spanList[0] < |s.link| && s' == Swapped(s)
    case LinkUpBlocks(n, links) =>
      && s.status == Partial && s.owner == Resting && s.heapFree == Null && s.freeList == Null
      && 0 < n && s.limit + n <= s.count && ChainsRange(s.link, links, s.limit + 1, s.limit + n) &&
          s' == Extended(s, n, links)
    case LookAtDeferred => s.owner.Looking? && s' == Looked(s)
    case TryExtract => s.owner.Extracting? && s' == Tried(s)
    case CollectDeferred => s.owner.Extracted? && s' == Collected(s)
    case FinishAllocation => s.owner.Finishing? && s' == Finished(s)
    case _ => false
  }

  ghost predicate OwnerFrees(s: State, a: Action, s': State) {
    match a
    case FreeDirect(b) => s.owner == Resting && b in s.live && !InFlight(s, b) && b < |s.link| && s' == Freed(s, b)
    case SyncTry => s.owner.Syncing? && s' == SyncTried(s)
    case SyncStore => s.owner.Synced? && s' == SyncDone(s)
    case ReleaseToCache => s.owner.Releasing? && s' == s.(status := Released, owner := Resting)
    case WriteBlock(b, p) => b in s.live && b < |s.link| && s' == s.(link := s.link[b := p])
    case _ => false
  }

  ghost predicate Moves(s: State, a: Action, s': State) {
    if s.status == Released then
      a.InitializeNew? && 0 < a.n <= a.count == |a.memory| && ChainsRange(a.memory, a.links, 1, a.n)
      && s' == Initialized(s, a.count, a.n, a.links)
    else RemoteMoves(s, a, s') || OwnerAllocates(s, a, s') || OwnerFrees(s, a, s')
  }

  ghost predicate Steps(s: State, s': State) { exists a :: Moves(s, a, s') }

  lemma RemoteMovesKeep(s: State, a: Action, s': State)
    requires Active(s) && RemoteMoves(s, a, s')
    ensures Active(s') || Idle(s')
  {
    hide Active, Idle, InFlight, Counted, Stored;
    match a {
      case DeferBegin(i, b) => BeginKeeps(s, i, b);
      case DeferLock(i) => if s.deferred != Invalid { LockKeeps(s, i); }
      case DeferCount(i) => CountKeeps(s, i);
      case DeferStore(i) => StoreKeeps(s, i);
      case DeferSpan(i, p) => PassKeeps(s, i, p);
    }
  }

  lemma OwnerAllocatesKeeps(s: State, a: Action, s': State)
    requires Active(s) && OwnerAllocates(s, a, s')
    ensures Active(s')
  {
    hide Active, InFlight, ChainsRange, Popped, Swapped, Extended, Looked, Tried, Collected, Finished;
    match a {
      case AllocateFast => PopKeeps(s);
      case SwapLists => SwapKeeps(s);
      case LinkUpBlocks(n, links) => ExtendKeeps(s, n, links);
      case LookAtDeferred => LookKeeps(s);
      case TryExtract => TryKeeps(s);
      case CollectDeferred => CollectKeeps(s);
      case FinishAllocation => FinishKeeps(s);
    }
  }

  lemma OwnerFreesKeeps(s: State, a: Action, s': State)
    requires Active(s) && OwnerFrees(s, a, s')
    ensures Active(s') || Idle(s')
  {
    hide Active, Idle, InFlight, Freed, SyncTried, SyncDone;
    match a {
      case FreeDirect(b) => FreeKeeps(s, b);
      case SyncTry => SyncKeeps(s);
      case SyncStore => SyncDoneKeeps(s);
      case ReleaseToCache => ReleaseKeeps(s);
      case WriteBlock(b, p) => WriteKeeps(s, b, p);
    }
  }

  /** Whatever happens next keeps the invariant. */
  lemma StepsKeep(s: State, s': State)
    requires Inv(s) && Steps(s, s')
    ensures Inv(s')
  {
    hide Active, Idle, ChainsRange, RemoteMoves, OwnerAllocates, OwnerFrees, Initialized;
    StatusDecides(s);
    var a :| Moves(s, a, s');
    if s.status == Released {
      InitializeKeeps(s, a.count, a.n, a.memory, a.links);
    } else if RemoteMoves(s, a, s') {
      RemoteMovesKeep(s, a, s');
    } else if OwnerAllocates(s, a, s') {
      OwnerAllocatesKeeps(s, a, s');
    } else {
      OwnerFreesKeeps(s, a, s');
    }
  }

  lemma StatusDecides(s: State)
    requires Inv(s)
    ensures s.status == Released <==> Idle(s)
    ensures s.status != Released <==> Active(s)
  {}

  /** If every block is deferred, some thread is about to pass the span on. */
  ghost predicate HandedOver(s: State) {
    s.status != Released && s.listSize == s.count ==>
      exists i :: 0 <= i < |s.remotes| && (s.remotes[i].Linked? || s.remotes[i].Passing?)
  }

  lemma StepsHandOver(s: State, s': State)
    requires Inv(s) && HandedOver(s) && Steps(s, s')
    ensures HandedOver(s')
  {
    hide Active, Idle, ChainsRange, RemoteMoves, OwnerAllocates, OwnerFrees, Initialized, HandedOver;
    StatusDecides(s);
    var a :| Moves(s, a, s');
    if s.status == Released {
      NewNotDeferred(s, a, s');
    } else if RemoteMoves(s, a, s') {
      RemoteHandsOver(s, a, s');
    } else {
      OwnerHandsOver(s, a, s');
    }
  }

  lemma NewNotDeferred(s: State, a: Action, s': State)
    requires s.status == Released && Moves(s, a, s')
    ensures HandedOver(s')
  {
    hide ChainsRange;
  }

  lemma RemoteHandsOver(s: State, a: Action, s': State)
    requires Active(s) && HandedOver(s) && RemoteMoves(s, a, s')
    ensures HandedOver(s')
  {
    hide InFlight;
    if s'.status != Released && s'.listSize == s'.count {
      if a.DeferCount? {
        assert s'.remotes[a.i].Linked?;
      } else {
        var i :| 0 <= i < |s.remotes| && (s.remotes[i].Linked? || s.remotes[i].Passing?);
        assert i == a.i ==> RemoteList(s, s.remotes[i]);
        assert s'.remotes[i].Linked? || s'.remotes[i].Passing?;
      }
    }
  }

  lemma OwnerHandsOver(s: State, a: Action, s': State)
    requires Active(s) && HandedOver(s) && (OwnerAllocates(s, a, s') || OwnerFrees(s, a, s'))
    ensures HandedOver(s')
  {
    hide ChainsRange, InFlight, Chain, Divides, Locking, Flights, Local;
  }

  /** Each initialised block is in exactly one place; `used` counts those in use; a span in a cache has no live
      block, none on the heap's list, and nobody about to touch it; and a span all of whose blocks are deferred is
      not forgotten. */
  ghost predicate Accounted(s: State) {
    && s.limit <= s.count && Divides(s.heapList, s.spanList, s.deferredList, s.live, s.limit)
    && s.used == |s.live| + |s.heapList| + |s.deferredList| && s.listSize == |s.deferredList|
    && (s.status == Released ==>
         s.live == {} && s.heapList == [] && forall i :: 0 <= i < |s.remotes| ==> s.remotes[i] == Away)
    && HandedOver(s)
  }

  lemma InvAccounts(s: State)
    requires Inv(s) && HandedOver(s)
    ensures Accounted(s)
  {
    UsedCounts(s);
  }

  /** Over every run of allocations, local frees, frees by other threads, and reuses of the span, in every
      interleaving. */
  lemma {:induction false} EveryStateAccounted(run: seq<State>)
    requires run != [] && Idle(run[0])
    requires forall k :: 0 <= k < |run| - 1 ==> Steps(run[k], run[k + 1])
    ensures forall k :: 0 <= k < |run| ==> Accounted(run[k])
  {
    StatusDecides(run[0]);
    hide Active, Idle, Accounted, Steps;
    InvAccounts(run[0]);
    for k := 0 to |run| - 1
      invariant Inv(run[k]) && HandedOver(run[k])
      invariant forall j :: 0 <= j <= k ==> Accounted(run[j])
    {
      StepsKeep(run[k], run[k + 1]);
      StepsHandOver(run[k], run[k + 1]);
      InvAccounts(run[k + 1]);
    }
  }
}

/** The scheduler: streams with sequence numbers, and a map from keys to streams that is kept sorted. */
module BTreeScheduler {
  import opened Bytes
  import opened Scheduling
  import opened Sequences

  datatype Status = Ok | NotFound | AlreadyExists | FailedPrecondition

  /** A registered stream; its sequence number is there while it is scheduled. */
  datatype StreamEntry<P> = StreamEntry(priority: P, number: Option<int>)

  datatype Slot<Id, P> = Slot(priority: P, number: int, id: Id)

  const INT_MIN: int := -0x8000_0000
  const INT_MAX: int := 0x7fff_ffff

  /** The order of the schedule: decreasing priority, then decreasing sequence number. */
  predicate KeyLess<P>(less: Order<P>, p: P, m: int, q: P, n: int) {
    less(q, p) || (!less(p, q) && n < m)
  }

  predicate SlotLess<Id, P>(less: Order<P>, a: Slot<Id, P>, b: Slot<Id, P>) {
    KeyLess(less, a.priority, a.number, b.priority, b.number)
  }

  ghost predicate Sorted<Id, P>(less: Order<P>, slots: seq<Slot<Id, P>>) {
    forall i, j :: 0 <= i < j < |slots| ==> SlotLess(less, slots[i], slots[j])
  }

  // ---------------------------------------------------------------------------------------------
  // The ordered map

  lemma KeyLessTransitive<P(!new)>(less: Order<P>, p: P, l: int, q: P, m: int, r: P, n: int)
    requires IsStrictWeakOrder(less)
    requires KeyLess(less, p, l, q, m) && KeyLess(less, q, m, r, n)
    ensures KeyLess(less, p, l, r, n)
  {
  }

  /** Keys with different numbers are ordered one way or the other. */
  lemma KeyLessTotal<P(!new)>(less: Order<P>, p: P, m: int, q: P, n: int)
    requires IsStrictWeakOrder(less) && m != n
    ensures KeyLess(less, p, m, q, n) <==> !KeyLess(less, q, n, p, m)
  {
    assert less(p, q) && less(q, p) ==> less(p, p);
  }

  /** Puts a slot where it belongs. */
  method Insert<Id, P(!new)>(less: Order<P>, slots: seq<Slot<Id, P>>, slot: Slot<Id, P>)
    returns (r: seq<Slot<Id, P>>, ghost k: nat)
    requires IsStrictWeakOrder(less) && Sorted(less, slots)
    requires forall i :: 0 <= i < |slots| ==> slots[i].number != slot.number
    ensures Sorted(less, r)
    ensures k <= |slots| && r == Inserted(slots, k, slot)
  {
    var i := 0;
    while i < |slots| && SlotLess(less, slots[i], slot)
      invariant i <= |slots| && forall j :: 0 <= j < i ==> SlotLess(less, slots[j], slot)
    {
      i := i + 1;
    }
    k := i;
    r := slots[..i] + [slot] + slots[i..];
    InsertSorted(less, slots, slot, i);
  }

  ghost function Inserted<T>(s: seq<T>, k: nat, x: T): seq<T>
    requires k <= |s|
  {
    s[..k] + [x] + s[k..]
  }

  lemma InsertSorted<Id, P(!new)>(less: Order<P>, slots: seq<Slot<Id, P>>, slot: Slot<Id, P>, k: nat)
    requires IsStrictWeakOrder(less) && Sorted(less, slots)
    requires forall i :: 0 <= i < |slots| ==> slots[i].number != slot.number
    requires k <= |slots| && forall i :: 0 <= i < k ==> SlotLess(less, slots[i], slot)
    requires k < |slots| ==> !SlotLess(less, slots[k], slot)
    ensures Sorted(less, Inserted(slots, k, slot))
  {
    hide IsStrictWeakOrder;
    forall j | k <= j < |slots| ensures SlotLess(less, slot, slots[j]) {
      KeyLessTotal(less, slots[k].priority, slots[k].number, slot.priority, slot.number);
      if j > k {
        KeyLessTransitive(less, slot.priority, slot.number, slots[k].priority, slots[k].number,
                          slots[j].priority, slots[j].number);
      }
    }
    hide KeyLess;
  }

  /** Where the slot with a key is; keys are equal if neither is less. */
  method Find<Id, P(!new)>(less: Order<P>, slots: seq<Slot<Id, P>>, priority: P, number: int) returns (r: Option<nat>)
    ensures r.Some? ==> r.value < |slots| && slots[r.value].number == number
    ensures r.None? ==> forall i :: 0 <= i < |slots| ==>
              slots[i].number != number || less(slots[i].priority, priority) || less(priority, slots[i].priority)
  {
    var i := 0;
    while i < |slots|
      invariant i <= |slots|
      invariant forall j :: 0 <= j < i ==>
                  slots[j].number != number || less(slots[j].priority, priority) || less(priority, slots[j].priority)
    {
      if !KeyLess(less, slots[i].priority, slots[i].number, priority, number)
         && !KeyLess(less, priority, number, slots[i].priority, slots[i].number) {
        return Some(i);
      }
      i := i + 1;
    }
    return None;
  }

  // ---------------------------------------------------------------------------------------------
  // What every operation keeps

  /** The fields of a scheduler, and the scheduled streams in the order in which they were scheduled. */
  datatype Tree<Id(==), P> =
    Tree(streams: map<Id, StreamEntry<P>>, schedule: seq<Slot<Id, P>>, counter: int, queue: seq<Id>)

  ghost predicate IsScheduled<Id, P>(t: Tree<Id, P>, id: Id) {
    id in t.streams && t.streams[id].number.Some?
  }

  ghost function Number<Id, P>(t: Tree<Id, P>, id: Id): int
    requires IsScheduled(t, id)
  {
    t.streams[id].number.value
  }

  ghost function SlotOf<Id, P>(t: Tree<Id, P>, id: Id): Slot<Id, P>
    requires IsScheduled(t, id)
  {
    Slot(t.streams[id].priority, Number(t, id), id)
  }

  /** A slot says what its stream says. */
  ghost predicate SlotIsRight<Id, P>(t: Tree<Id, P>, slot: Slot<Id, P>) {
    IsScheduled(t, slot.id) && SlotOf(t, slot.id) == slot && t.counter <= slot.number < 0
  }

  /** Older streams have higher numbers. */
  ghost predicate QueueIsRight<Id, P>(t: Tree<Id, P>) {
    && (forall i :: 0 <= i < |t.queue| ==> IsScheduled(t, t.queue[i]))
    && (forall i, j :: 0 <= i < j < |t.queue| ==> Number(t, t.queue[j]) < Number(t, t.queue[i]))
  }

  ghost predicate Inv<Id(!new), P(!new)>(less: Order<P>, t: Tree<Id, P>) {
    && IsStrictWeakOrder(less)
    && Sorted(less, t.schedule)
    && (forall slot :: slot in t.schedule ==> SlotIsRight(t, slot))
    && QueueIsRight(t)
    && (forall id :: IsScheduled(t, id) ==> id in t.queue && SlotOf(t, id) in t.schedule)
    && |t.queue| == |t.schedule|
    && t.counter <= 0
  }

  ghost function Abs<Id, P>(t: Tree<Id, P>): Schedule<Id, P> {
    Schedule(map id | id in t.streams :: t.streams[id].priority, t.queue)
  }

  lemma AbsWf<Id(!new), P(!new)>(less: Order<P>, t: Tree<Id, P>)
    requires Inv(less, t)
    ensures Wf(Abs(t))
  {
    assert forall i :: 0 <= i < |t.queue| ==> IsScheduled(t, t.queue[i]);
  }

  /** No two streams have the same number. */
  lemma NumbersDiffer<Id(!new), P(!new)>(less: Order<P>, t: Tree<Id, P>, a: Id, b: Id)
    requires Inv(less, t) && IsScheduled(t, a) && IsScheduled(t, b) && Number(t, a) == Number(t, b)
    ensures a == b
  {
    var i := IndexOf(t.queue, a);
    var j := IndexOf(t.queue, b);
  }

  /** The slot in front is that of the best stream. */
  lemma FrontIsBest<Id(!new), P(!new)>(less: Order<P>, t: Tree<Id, P>)
    requires Inv(less, t) && t.schedule != []
    ensures Wf(Abs(t)) && t.queue != [] && Best(less, Abs(t)) == t.schedule[0].id
  {
    AbsWf(less, t);
    var s := Abs(t);
    var front := t.schedule[0];
    assert SlotIsRight(t, front);
    var k := IndexOf(t.queue, front.id);
    forall j | 0 <= j < |t.queue| && j != k ensures GoesBefore(less, s, k, j) {
      FrontGoesBefore(less, t, k, j);
    }
    hide Inv;
    GoesFirstIsBest(less, s, k);
  }

  lemma FrontGoesBefore<Id(!new), P(!new)>(less: Order<P>, t: Tree<Id, P>, k: nat, j: nat)
    requires Inv(less, t) && t.schedule != [] && k < |t.queue| && j < |t.queue| && j != k
    requires t.queue[k] == t.schedule[0].id
    ensures t.queue[k] in t.streams && t.queue[j] in t.streams
    ensures GoesBefore(less, Abs(t), k, j)
  {
    assert IsScheduled(t, t.queue[k]) && IsScheduled(t, t.queue[j]);
    assert SlotIsRight(t, t.schedule[0]);
    assert k < j ==> Number(t, t.queue[j]) < Number(t, t.queue[k]);
    assert j < k ==> Number(t, t.queue[k]) < Number(t, t.queue[j]);
    var i := IndexOf(t.schedule, SlotOf(t, t.queue[j]));
    assert i != 0;
    assert SlotLess(less, t.schedule[0], t.schedule[i]);
  }

  // ---------------------------------------------------------------------------------------------
  // Taking a slot out

  function Erased<T>(s: seq<T>, k: nat): seq<T>
    requires k < |s|
  {
    s[..k] + s[k + 1..]
  }

  lemma ErasedSorted<Id, P>(less: Order<P>, slots: seq<Slot<Id, P>>, k: nat)
    requires Sorted(less, slots) && k < |slots|
    ensures Sorted(less, Erased(slots, k))
  {
    hide SlotLess;
  }

  lemma ErasedMembers<T(!new)>(s: seq<T>, k: nat, x: T)
    requires k < |s|
    ensures x in Erased(s, k) ==> x in s
    ensures x in s && x != s[k] ==> x in Erased(s, k)
  {
    var r := Erased(s, k);
    if x in r {
      var i := IndexOf(r, x);
      assert r[i] == s[if i < k then i else i + 1];
    }
    if x in s && x != s[k] {
      var i := IndexOf(s, x);
      assert s[i] == r[if i < k then i else i - 1];
    }
  }

  lemma QueueIsDistinct<Id(!new), P(!new)>(t: Tree<Id, P>)
    requires QueueIsRight(t)
    ensures Distinct(t.queue)
  {
  }

  /** What is known of the queue after a stream has left it. */
  lemma QueueWithout<Id(!new), P(!new)>(t: Tree<Id, P>, id: Id, u: Tree<Id, P>)
    requires QueueIsRight(t) && id in t.queue
    requires u.queue == Without(t.queue, id)
    requires forall x :: x in t.streams && x != id ==> x in u.streams && u.streams[x] == t.streams[x]
    ensures QueueIsRight(u) && |u.queue| == |t.queue| - 1
    ensures forall x :: x in u.queue <==> x in t.queue && x != id
  {
    QueueIsDistinct(t);
    WithoutMembers(t.queue, id);
    var k := IndexOf(t.queue, id);
    WithoutAt(t.queue, k);
    hide Without, Distinct;
    QueueShifted(t, k, u);
  }

  lemma QueueShifted<Id(!new), P(!new)>(t: Tree<Id, P>, k: nat, u: Tree<Id, P>)
    requires QueueIsRight(t) && k < |t.queue| && u.queue == t.queue[..k] + t.queue[k + 1..]
    requires forall x :: x in u.queue ==> x in u.streams && x in t.streams && u.streams[x] == t.streams[x]
    ensures QueueIsRight(u)
  {
    forall i | 0 <= i < |u.queue|
      ensures u.queue[i] == t.queue[if i < k then i else i + 1]
      ensures IsScheduled(u, u.queue[i]) && Number(u, u.queue[i]) == Number(t, u.queue[i])
    {
      assert u.queue[i] in u.queue;
      assert IsScheduled(t, t.queue[if i < k then i else i + 1]);
    }
  }

  /** A stream that is taken out of the schedule: it stays registered without a number, or it goes away. */
  lemma RemoveInv<Id(!new), P(!new)>(less: Order<P>, t: Tree<Id, P>, k: nat, u: Tree<Id, P>)
    requires Inv(less, t) && k < |t.schedule|
    requires u.schedule == Erased(t.schedule, k)
    requires u.queue == Without(t.queue, t.schedule[k].id) && u.counter == t.counter
    requires forall x :: x in t.streams && x != t.schedule[k].id ==> x in u.streams && u.streams[x] == t.streams[x]
    requires forall x :: x in u.streams ==> x in t.streams
    requires t.schedule[k].id in u.streams ==> u.streams[t.schedule[k].id].number.None?
    ensures Inv(less, u)
  {
    var id := t.schedule[k].id;
    assert SlotIsRight(t, t.schedule[k]);
    QueueWithout(t, id, u);
    ErasedSorted(less, t.schedule, k);
    forall slot | slot in u.schedule ensures SlotIsRight(u, slot) {
      ErasedMembers(t.schedule, k, slot);
      assert SlotIsRight(t, slot);
      SlotsDiffer(less, t, k, slot);
    }
    forall x | IsScheduled(u, x) ensures x in u.queue && SlotOf(u, x) in u.schedule {
      assert IsScheduled(t, x) && SlotOf(u, x) == SlotOf(t, x);
      ErasedMembers(t.schedule, k, SlotOf(t, x));
    }
  }

  /** What is left after a slot was erased belongs to other streams. */
  lemma SlotsDiffer<Id(!new), P(!new)>(less: Order<P>, t: Tree<Id, P>, k: nat, slot: Slot<Id, P>)
    requires Inv(less, t) && k < |t.schedule| && slot in Erased(t.schedule, k)
    ensures slot.id != t.schedule[k].id
  {
    var r := Erased(t.schedule, k);
    var i := IndexOf(r, slot);
    var j := if i < k then i else i + 1;
    assert r[i] == t.schedule[j];
    assert SlotIsRight(t, t.schedule[j]) && SlotIsRight(t, t.schedule[k]);
    assert j < k ==> SlotLess(less, t.schedule[j], t.schedule[k]);
    assert k < j ==> SlotLess(less, t.schedule[k], t.schedule[j]);
    assert !SlotLess(less, slot, slot);
  }

  // ---------------------------------------------------------------------------------------------
  // Putting a slot in

  lemma InsertedMembers<T(!new)>(s: seq<T>, k: nat, x: T)
    requires k <= |s|
    ensures forall y :: y in Inserted(s, k, x) <==> y in s || y == x
  {
    assert s == s[..k] + s[k..];
  }

  lemma UnregisterInv<Id(!new), P(!new)>(less: Order<P>, t: Tree<Id, P>, id: Id)
    requires Inv(less, t) && !IsScheduled(t, id)
    ensures Inv(less, t.(streams := t.streams - {id}))
  {
    var u := t.(streams := t.streams - {id});
    assert forall x :: IsScheduled(u, x) <==> IsScheduled(t, x);
    assert forall slot :: slot in t.schedule ==> SlotIsRight(t, slot) && SlotIsRight(u, slot);
    assert forall i :: 0 <= i < |t.queue| ==>
        IsScheduled(t, t.queue[i]) && Number(u, t.queue[i]) == Number(t, t.queue[i]);
  }

  /** A stream that is not scheduled may get any priority, whether it is registered or not. */
  lemma SetPriorityInv<Id(!new), P(!new)>(less: Order<P>, t: Tree<Id, P>, id: Id, p: P)
    requires Inv(less, t) && !IsScheduled(t, id)
    ensures Inv(less, t.(streams := t.streams[id := StreamEntry(p, None)]))
  {
    var u := t.(streams := t.streams[id := StreamEntry(p, None)]);
    assert forall x :: IsScheduled(u, x) <==> IsScheduled(t, x);
    assert forall slot :: slot in t.schedule ==> SlotIsRight(t, slot) && SlotIsRight(u, slot);
    assert forall i :: 0 <= i < |t.queue| ==>
        IsScheduled(t, t.queue[i]) && Number(u, t.queue[i]) == Number(t, t.queue[i]);
  }

  /** A stream that is put into the schedule, with a number lower than all others. */
  lemma AddInv<Id(!new), P(!new)>(less: Order<P>, t: Tree<Id, P>, id: Id, k: nat, u: Tree<Id, P>)
    requires Inv(less, t) && id in t.streams && !IsScheduled(t, id) && k <= |t.schedule|
    requires u.counter == t.counter - 1
    requires u.streams == t.streams[id := StreamEntry(t.streams[id].priority, Some(u.counter))]
    requires u.schedule == Inserted(t.schedule, k, Slot(t.streams[id].priority, u.counter, id))
    requires u.queue == t.queue + [id]
    requires Sorted(less, u.schedule)
    ensures Inv(less, u)
  {
    var slot := Slot(t.streams[id].priority, u.counter, id);
    InsertedMembers(t.schedule, k, slot);
    hide Inserted, Sorted;
    assert forall x :: IsScheduled(u, x) <==> IsScheduled(t, x) || x == id;
    assert forall x :: IsScheduled(t, x) ==> SlotOf(u, x) == SlotOf(t, x);
    assert forall s :: s in t.schedule ==> SlotIsRight(t, s) && SlotIsRight(u, s);
    AddedQueue(less, t, id, u);
  }

  lemma AddedQueue<Id(!new), P(!new)>(less: Order<P>, t: Tree<Id, P>, id: Id, u: Tree<Id, P>)
    requires Inv(less, t) && id in t.streams && !IsScheduled(t, id)
    requires u.counter == t.counter - 1
    requires u.streams == t.streams[id := StreamEntry(t.streams[id].priority, Some(u.counter))]
    requires u.queue == t.queue + [id]
    ensures QueueIsRight(u)
  {
    forall i | 0 <= i < |t.queue|
      ensures IsScheduled(u, u.queue[i]) && Number(u, u.queue[i]) == Number(t, t.queue[i]) > u.counter
    {
      assert IsScheduled(t, t.queue[i]);
      assert SlotIsRight(t, SlotOf(t, t.queue[i]));
    }
  }

  /** A stream whose priority changes while it is scheduled; its number, and so its age, stays. */
  lemma ReplaceInv<Id(!new), P(!new)>(less: Order<P>, t: Tree<Id, P>, k: nat, p: P, m: nat, u: Tree<Id, P>)
    requires Inv(less, t) && k < |t.schedule| && m <= |t.schedule| - 1
    requires u.streams == t.streams[t.schedule[k].id := StreamEntry(p, Some(t.schedule[k].number))]
    requires u.schedule == Inserted(Erased(t.schedule, k), m, Slot(p, t.schedule[k].number, t.schedule[k].id))
    requires u.queue == t.queue && u.counter == t.counter
    requires Sorted(less, u.schedule)
    ensures Inv(less, u)
  {
    var slot := t.schedule[k];
    var id := slot.id;
    var rest := Erased(t.schedule, k);
    assert SlotIsRight(t, slot);
    InsertedMembers(rest, m, Slot(p, slot.number, id));
    hide Inserted, Sorted;
    assert forall x :: IsScheduled(u, x) <==> IsScheduled(t, x);
    assert forall i :: 0 <= i < |t.queue| ==>
        IsScheduled(t, t.queue[i]) && Number(u, t.queue[i]) == Number(t, t.queue[i]);
    forall s | s in u.schedule ensures SlotIsRight(u, s) {
      if s in rest {
        ErasedMembers(t.schedule, k, s);
        SlotsDiffer(less, t, k, s);
        assert SlotIsRight(t, s);
      }
    }
    forall x | IsScheduled(u, x) ensures x in u.queue && SlotOf(u, x) in u.schedule {
      assert IsScheduled(t, x);
      if x != id {
        ErasedMembers(t.schedule, k, SlotOf(t, x));
      }
    }
  }

  // ---------------------------------------------------------------------------------------------
  // Ranges of priorities

  predicate InRange<P>(less: Order<P>, low: Option<P>, high: Option<P>, p: P) {
    (low.Some? ==> !less(p, low.value)) && (high.Some? ==> !less(high.value, p))
  }

  /** How many of the slots at the front are above `high`. */
  method LowerBound<Id, P(!new)>(less: Order<P>, slots: seq<Slot<Id, P>>, high: P) returns (n: nat)
    requires IsStrictWeakOrder(less) && Sorted(less, slots)
    requires forall i :: 0 <= i < |slots| ==> slots[i].number <= INT_MAX
    ensures n <= |slots|
    ensures forall i :: 0 <= i < |slots| ==> (i < n <==> less(high, slots[i].priority))
  {
    n := 0;
    while n < |slots| && KeyLess(less, slots[n].priority, slots[n].number, high, INT_MAX)
      invariant n <= |slots| && forall i :: 0 <= i < n ==> less(high, slots[i].priority)
    {
      n := n + 1;
    }
    forall i | n < i < |slots| ensures !less(high, slots[i].priority) {
      assert SlotLess(less, slots[n], slots[i]);
    }
  }

  /** How many of the slots at the front are not below `low`. */
  method UpperBound<Id, P(!new)>(less: Order<P>, slots: seq<Slot<Id, P>>, low: P) returns (n: nat)
    requires IsStrictWeakOrder(less) && Sorted(less, slots)
    requires forall i :: 0 <= i < |slots| ==> slots[i].number >= INT_MIN
    ensures n <= |slots|
    ensures forall i :: 0 <= i < |slots| ==> (i < n <==> !less(slots[i].priority, low))
  {
    n := 0;
    while n < |slots| && !KeyLess(less, low, INT_MIN, slots[n].priority, slots[n].number)
      invariant n <= |slots| && forall i :: 0 <= i < n ==> !less(slots[i].priority, low)
    {
      n := n + 1;
    }
    forall i | n < i < |slots| ensures less(slots[i].priority, low) {
      assert SlotLess(less, slots[n], slots[i]);
    }
  }

  /** A run of slots holds as many streams as it is long. */
  lemma {:induction false} CountIds<Id(!new), P(!new)>(slots: seq<Slot<Id, P>>)
    requires forall i, j :: 0 <= i < j < |slots| ==> slots[i].id != slots[j].id
    ensures |set i | 0 <= i < |slots| :: slots[i].id| == |slots|
  {
    if slots != [] {
      var n := |slots| - 1;
      var init := slots[..n];
      CountIds(init);
      var ids := set i | 0 <= i < |init| :: init[i].id;
      assert (set i | 0 <= i < |slots| :: slots[i].id) == ids + {slots[n].id};
    }
  }

  /** The streams between two places of the schedule are those in the range. */
  lemma RangeIsCounted<Id(!new), P(!new)>(less: Order<P>, t: Tree<Id, P>, low: Option<P>, high: Option<P>,
                                          b: nat, e: nat)
    requires Inv(less, t) && b <= e <= |t.schedule|
    requires forall i :: 0 <= i < |t.schedule| ==> (b <= i < e <==> InRange(less, low, high, t.schedule[i].priority))
    ensures |set id | id in t.queue && InRange(less, low, high, t.streams[id].priority)| == e - b
  {
    var slots := t.schedule[b..e];
    forall i | 0 <= i < |t.schedule| ensures SlotIsRight(t, t.schedule[i]) {
      assert t.schedule[i] in t.schedule;
    }
    forall i, j | 0 <= i < j < |slots| ensures slots[i].id != slots[j].id {
      assert SlotLess(less, t.schedule[b + i], t.schedule[b + j]);
      assert SlotIsRight(t, t.schedule[b + i]) && SlotIsRight(t, t.schedule[b + j]);
    }
    CountIds(slots);
    var ids := set i | 0 <= i < |slots| :: slots[i].id;
    var wanted := set id | id in t.queue && InRange(less, low, high, t.streams[id].priority);
    forall id | id in wanted ensures id in ids {
      assert IsScheduled(t, id);
      var i := IndexOf(t.schedule, SlotOf(t, id));
      assert slots[i - b].id == id;
    }
    forall id | id in ids ensures id in wanted {
      var i :| 0 <= i < |slots| && slots[i].id == id;
      assert SlotIsRight(t, t.schedule[b + i]);
    }
    assert ids == wanted;
  }

  // ---------------------------------------------------------------------------------------------
  // The scheduler

  class BTreeScheduler<Id(==, !new), P(!new)> {
    const less: Order<P>
    var streams: map<Id, StreamEntry<P>>
    var schedule: seq<Slot<Id, P>>
    var counter: int
    ghost var queue: seq<Id>

    ghost function State(): Tree<Id, P>
      reads this
    {
      Tree(streams, schedule, counter, queue)
    }

    ghost predicate Valid()
      reads this
    {
      Inv(less, State()) && counter >= INT_MIN
    }

    /** What a client sees. */
    ghost function Abstract(): (s: Schedule<Id, P>)
      reads this
    {
      Abs(State())
    }

    constructor (less: Order<P>)
      requires IsStrictWeakOrder(less)
      ensures Valid() && this.less == less && Abstract() == Scheduling.Schedule(map[], [])
      ensures counter == 0
    {
      this.less := less;
      streams, schedule, counter, queue := map[], [], 0, [];
    }

    method HasRegistered() returns (r: bool)
      requires Valid()
      ensures r == (Abstract().priorities != map[])
    {
      r := streams != map[];
      if r {
        var id :| id in streams;
        assert id in Abstract().priorities;
      }
    }

    method HasScheduled() returns (r: bool)
      requires Valid()
      ensures r == (Abstract().queue != [])
    {
      r := schedule != [];
    }

    method NumScheduled() returns (n: nat)
      requires Valid()
      ensures n == |Abstract().queue|
    {
      n := |schedule|;
    }

    method GetPriorityFor(id: Id) returns (r: Option<P>)
      requires Valid()
      ensures r.Some? == (id in Abstract().priorities)
      ensures r.Some? ==> r.value == Abstract().priorities[id]
    {
      if id !in streams {
        return None;
      }
      return Some(streams[id].priority);
    }

    method IsScheduledStream(id: Id) returns (r: bool)
      requires Valid()
      ensures r == (id in Abstract().queue)
    {
      if id !in streams {
        return false;
      }
      return streams[id].number.Some?;
    }

    method Register(id: Id, priority: P) returns (r: Status)
      requires Valid()
      modifies this
      ensures Valid() && counter == old(counter)
      ensures r == if id in old(Abstract()).priorities then AlreadyExists else Ok
      ensures r == Ok ==> Abstract() == old(Abstract()).(priorities := old(Abstract()).priorities[id := priority])
      ensures r != Ok ==> Abstract() == old(Abstract())
    {
      if id in streams {
        return AlreadyExists;
      }
      SetPriorityInv(less, State(), id, priority);
      hide Inv;
      streams := streams[id := StreamEntry(priority, None)];
      r := Ok;
    }

    /** Takes the slot of a scheduled stream out of the schedule; it is always there. */
    method DescheduleStream(id: Id) returns (slot: Slot<Id, P>, ghost k: nat)
      requires Valid() && IsScheduled(State(), id)
      modifies this`schedule
      ensures k < |old(schedule)| && old(schedule)[k] == slot == SlotOf(old(State()), id)
      ensures schedule == Erased(old(schedule), k)
    {
      var entry := streams[id];
      ghost var i0 := IndexOf(schedule, SlotOf(State(), id));
      var i := Find(less, schedule, entry.priority, entry.number.value);
      assert schedule[i0].priority == entry.priority && schedule[i0].number == entry.number.value;
      assert i.Some?;
      assert SlotIsRight(State(), schedule[i.value]);
      NumbersDiffer(less, State(), schedule[i.value].id, id);
      slot, k := schedule[i.value], i.value;
      schedule := schedule[..i.value] + schedule[i.value + 1..];
    }

    method Unregister(id: Id) returns (r: Status)
      requires Valid()
      modifies this
      ensures Valid() && counter == old(counter)
      ensures r == if id in old(Abstract()).priorities then Ok else NotFound
      ensures r == Ok ==>
                Abstract() == Scheduling.Schedule(old(Abstract()).priorities - {id}, Without(old(Abstract()).queue, id))
      ensures r != Ok ==> Abstract() == old(Abstract())
    {
      if id !in streams {
        return NotFound;
      }
      ghost var before := State();
      if streams[id].number.Some? {
        var _, k := DescheduleStream(id);
        streams := streams - {id};
        queue := Without(queue, id);
        RemoveInv(less, before, k, State());
      } else {
        UnregisterInv(less, before, id);
        streams := streams - {id};
        assert id !in queue by { NotQueued(less, before, id); }
        assert State() == before.(streams := before.streams - {id});
      }
      hide Inv;
      r := Ok;
    }

    /** A scheduled stream keeps its age. */
    method UpdatePriority(id: Id, priority: P) returns (r: Status)
      requires Valid()
      modifies this
      ensures Valid() && counter == old(counter)
      ensures r == if id in old(Abstract()).priorities then Ok else NotFound
      ensures r == Ok ==> Abstract() == old(Abstract()).(priorities := old(Abstract()).priorities[id := priority])
      ensures r != Ok ==> Abstract() == old(Abstract())
    {
      if id !in streams {
        return NotFound;
      }
      ghost var before := State();
      if streams[id].number.Some? {
        ghost var m;
        var slot, k := DescheduleStream(id);
        streams := streams[id := StreamEntry(priority, Some(slot.number))];
        ErasedSorted(less, before.schedule, k);
        OtherNumbers(less, before, k);
        schedule, m := Insert(less, schedule, Slot(priority, slot.number, id));
        ReplaceInv(less, before, k, priority, m, State());
      } else {
        SetPriorityInv(less, before, id, priority);
        streams := streams[id := StreamEntry(priority, None)];
        assert State() == before.(streams := before.streams[id := StreamEntry(priority, None)]);
      }
      hide Inv;
      r := Ok;
    }

    method Schedule(id: Id) returns (r: Status)
      requires Valid()
      requires id in Abstract().priorities && id !in Abstract().queue ==> counter > INT_MIN
      modifies this
      ensures Valid()
      ensures counter == if r == Ok && id !in old(Abstract()).queue then old(counter) - 1 else old(counter)
      ensures r == if id in old(Abstract()).priorities then Ok else NotFound
      ensures Abstract() == if r == Ok && id !in old(Abstract()).queue
                            then old(Abstract()).(queue := old(Abstract()).queue + [id]) else old(Abstract())
    {
      if id !in streams {
        return NotFound;
      }
      ghost var before := State();
      if streams[id].number.Some? {
        assert IsScheduled(before, id);
        return Ok;
      }
      NotQueued(less, before, id);
      NumbersAbove(less, before);
      counter := counter - 1;
      ghost var k;
      schedule, k := Insert(less, schedule, Slot(streams[id].priority, counter, id));
      streams := streams[id := StreamEntry(streams[id].priority, Some(counter))];
      queue := queue + [id];
      AddInv(less, before, id, k, State());
      hide Inv;
      r := Ok;
    }

    method Deschedule(id: Id) returns (r: Status)
      requires Valid()
      modifies this
      ensures Valid() && counter == old(counter)
      ensures r == if id !in old(Abstract()).priorities then NotFound
                   else if id !in old(Abstract()).queue then FailedPrecondition else Ok
      ensures Abstract() == if r == Ok then old(Abstract()).(queue := Without(old(Abstract()).queue, id))
                            else old(Abstract())
    {
      if id !in streams {
        return NotFound;
      }
      ghost var before := State();
      if streams[id].number.None? {
        NotQueued(less, before, id);
        return FailedPrecondition;
      }
      var _, k := DescheduleStream(id);
      streams := streams[id := StreamEntry(streams[id].priority, None)];
      queue := Without(queue, id);
      RemoveInv(less, before, k, State());
      hide Inv;
      r := Ok;
    }

    /** The best stream, which leaves the schedule. */
    method PopFront() returns (r: Option<Id>)
      requires Valid()
      modifies this
      ensures Valid() && counter == old(counter)
      ensures r.None? ==> old(Abstract()).queue == [] && Abstract() == old(Abstract())
      ensures r.Some? ==> old(Abstract()).queue != [] && Wf(old(Abstract())) && r.value == Best(less, old(Abstract()))
      ensures r.Some? ==> Abstract() == old(Abstract()).(queue := Without(old(Abstract()).queue, r.value))
    {
      hide Inv, Best;
      ghost var before := State();
      QueueLength(less, before);
      if schedule == [] {
        return None;
      }
      FrontIsBest(less, before);
      FrontIsRight(less, before);
      var id := schedule[0].id;
      streams := streams[id := StreamEntry(streams[id].priority, None)];
      schedule := schedule[1..];
      queue := Without(queue, id);
      assert schedule == Erased(before.schedule, 0);
      RemoveInv(less, before, 0, State());
      r := Some(id);
    }

    /** All of the schedule, best stream first. */
    method PopAll() returns (ids: seq<Id>)
      requires Valid()
      modifies this
      ensures Valid() && counter == old(counter)
      ensures Wf(old(Abstract())) && ids == Drain(less, old(Abstract()))
      ensures Abstract() == old(Abstract()).(queue := [])
    {
      hide Inv, Best, Drain;
      ghost var before := Abstract();
      AbsWf(less, State());
      ids := [];
      assert ids + Drain(less, before) == Drain(less, before);
      while true
        invariant Valid() && counter == old(counter) && Wf(Abstract())
        invariant Abstract().priorities == before.priorities
        invariant ids + Drain(less, Abstract()) == Drain(less, before)
        decreases |Abstract().queue|
      {
        DrainStep(less, Abstract());
        var r := PopFront();
        if r.None? {
          return;
        }
        ids := ids + [r.value];
      }
    }

    /** Whether another stream would go before this one; `None` if it is not registered. */
    method ShouldYield(id: Id) returns (r: Option<bool>)
      requires Valid()
      ensures Wf(Abstract())
      ensures r.None? == (id !in Abstract().priorities)
      ensures r.Some? ==> r.value == MustYield(less, Abstract(), id)
    {
      AbsWf(less, State());
      if id !in streams {
        return None;
      }
      if schedule == [] {
        return Some(false);
      }
      FrontIsBest(less, State());
      var next := schedule[0];
      assert SlotIsRight(State(), next);
      if next.id == id {
        return Some(false);
      }
      return Some(!less(next.priority, streams[id].priority));
    }

    /** How many scheduled streams have a priority between two bounds, if there are any. */
    method NumScheduledInPriorityRange(low: Option<P>, high: Option<P>) returns (n: nat)
      requires Valid()
      requires low.Some? && high.Some? ==> !less(high.value, low.value)
      ensures Wf(Abstract())
      ensures n == |set id | id in Abstract().queue && InRange(less, low, high, Abstract().priorities[id])|
    {
      AbsWf(less, State());
      var b, e := 0, |schedule|;
      forall i | 0 <= i < |schedule| ensures SlotIsRight(State(), schedule[i]) {
        assert schedule[i] in schedule;
      }
      if high.Some? {
        b := LowerBound(less, schedule, high.value);
      }
      if low.Some? {
        e := UpperBound(less, schedule, low.value);
      }
      if low.Some? && high.Some? {
        BoundsInOrder(less, schedule, low.value, high.value, b, e);
      }
      RangeIsCounted(less, State(), low, high, b, e);
      assert (set id | id in queue && InRange(less, low, high, Abstract().priorities[id]))
          == (set id | id in queue && InRange(less, low, high, streams[id].priority));
      n := e - b;
    }
  }

  lemma BoundsInOrder<Id, P(!new)>(less: Order<P>, slots: seq<Slot<Id, P>>, low: P, high: P, b: nat, e: nat)
    requires IsStrictWeakOrder(less) && !less(high, low) && b <= |slots| && e <= |slots|
    requires forall i :: 0 <= i < |slots| ==> (i < b <==> less(high, slots[i].priority))
    requires forall i :: 0 <= i < |slots| ==> (i < e <==> !less(slots[i].priority, low))
    ensures b <= e
  {
    if e < |slots| {
      assert less(slots[e].priority, low);
      assert !less(high, slots[e].priority);
    }
  }

  lemma QueueLength<Id(!new), P(!new)>(less: Order<P>, t: Tree<Id, P>)
    requires Inv(less, t)
    ensures |t.queue| == |t.schedule|
  {
  }

  lemma FrontIsRight<Id(!new), P(!new)>(less: Order<P>, t: Tree<Id, P>)
    requires Inv(less, t) && t.schedule != []
    ensures SlotIsRight(t, t.schedule[0])
  {
  }

  lemma NotQueued<Id(!new), P(!new)>(less: Order<P>, t: Tree<Id, P>, id: Id)
    requires Inv(less, t) && !IsScheduled(t, id)
    ensures id !in t.queue
  {
  }

  lemma NumbersAbove<Id(!new), P(!new)>(less: Order<P>, t: Tree<Id, P>)
    requires Inv(less, t)
    ensures forall i :: 0 <= i < |t.schedule| ==> t.schedule[i].number >= t.counter
  {
    forall i | 0 <= i < |t.schedule| ensures t.schedule[i].number >= t.counter {
      assert SlotIsRight(t, t.schedule[i]);
    }
  }

  lemma OtherNumbers<Id(!new), P(!new)>(less: Order<P>, t: Tree<Id, P>, k: nat)
    requires Inv(less, t) && k < |t.schedule|
    ensures forall i :: 0 <= i < |t.schedule| - 1 ==> Erased(t.schedule, k)[i].number != t.schedule[k].number
  {
    forall i | 0 <= i < |t.schedule| - 1 ensures Erased(t.schedule, k)[i].number != t.schedule[k].number {
      var slot := Erased(t.schedule, k)[i];
      ErasedMembers(t.schedule, k, slot);
      SlotsDiffer(less, t, k, slot);
      assert SlotIsRight(t, slot) && SlotIsRight(t, t.schedule[k]);
      if slot.number == t.schedule[k].number {
        NumbersDiffer(less, t, slot.id, t.schedule[k].id);
      }
    }
  }
}

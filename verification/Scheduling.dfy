/** What a stream scheduler promises: highest priority first, and among equals who came first. */
module Scheduling {
  import opened Sequences

  /** Priorities are compared by a strict weak order. */
  type Order<!P> = (P, P) -> bool

  ghost predicate IsStrictWeakOrder<P(!new)>(less: Order<P>) {
    && (forall a :: !less(a, a))
    && (forall a, b, c :: less(a, b) && less(b, c) ==> less(a, c))
    && (forall a, b, c :: !less(a, b) && !less(b, c) ==> !less(a, c))
  }

  /** Registered streams with their priorities, and the scheduled ones in the order they came. */
  datatype Schedule<Id(==), P> = Schedule(priorities: map<Id, P>, queue: seq<Id>)

  ghost predicate Wf<Id, P>(s: Schedule<Id, P>) {
    && (forall i :: 0 <= i < |s.queue| ==> s.queue[i] in s.priorities)
    && Distinct(s.queue)
  }

  /** The stream to go first: a later one wins only with a higher priority. */
  function Best<Id, P>(less: Order<P>, s: Schedule<Id, P>): (id: Id)
    requires Wf(s) && s.queue != []
    ensures id in s.queue && id in s.priorities
    decreases |s.queue|
  {
    var last := s.queue[|s.queue| - 1];
    if |s.queue| == 1 then last
    else
      var best := Best(less, Schedule(s.priorities, s.queue[..|s.queue| - 1]));
      if less(s.priorities[best], s.priorities[last]) then last else best
  }

  /** Removes one stream from the queue. */
  function Without<Id(==)>(queue: seq<Id>, id: Id): (r: seq<Id>)
    ensures id !in queue ==> r == queue
  {
    if queue == [] then [] else if queue[0] == id then queue[1..] else [queue[0]] + Without(queue[1..], id)
  }

  /** `a` goes before `b`: it has the higher priority, or the same and it came first. */
  predicate GoesBefore<Id(==), P>(less: Order<P>, s: Schedule<Id, P>, i: nat, j: nat)
    requires i < |s.queue| && j < |s.queue|
    requires s.queue[i] in s.priorities && s.queue[j] in s.priorities
  {
    var p, q := s.priorities[s.queue[i]], s.priorities[s.queue[j]];
    less(q, p) || (!less(p, q) && i < j)
  }

  /** The best stream goes before all others, and it is the only one that does. */
  lemma {:induction false} BestGoesFirst<Id, P(!new)>(less: Order<P>, s: Schedule<Id, P>) returns (k: nat)
    requires IsStrictWeakOrder(less) && Wf(s) && s.queue != []
    ensures k < |s.queue| && s.queue[k] == Best(less, s)
    ensures forall j :: 0 <= j < |s.queue| && j != k ==> GoesBefore(less, s, k, j)
    decreases |s.queue|
  {
    var n := |s.queue| - 1;
    if n == 0 {
      k := 0;
    } else {
      var t := Schedule(s.priorities, s.queue[..n]);
      assert Wf(t);
      hide IsStrictWeakOrder, Distinct;
      var m := BestGoesFirst(less, t);
      var p, q := s.priorities[s.queue[m]], s.priorities[s.queue[n]];
      k := if less(p, q) then n else m;
      forall j | 0 <= j < |s.queue| && j != k ensures GoesBefore(less, s, k, j) {
        if j < n && j != m {
          assert GoesBefore(less, t, m, j);
          if less(p, q) {
            LowerStill(less, p, s.priorities[s.queue[j]], q);
          }
        }
      }
    }
  }

  lemma LowerStill<P(!new)>(less: Order<P>, a: P, b: P, c: P)
    requires IsStrictWeakOrder(less)
    requires !less(a, b) && less(a, c)
    ensures less(b, c)
  {
  }

  lemma GoesFirstIsBest<Id, P(!new)>(less: Order<P>, s: Schedule<Id, P>, k: nat)
    requires IsStrictWeakOrder(less) && Wf(s) && k < |s.queue|
    requires forall j :: 0 <= j < |s.queue| && j != k ==> GoesBefore(less, s, k, j)
    ensures Best(less, s) == s.queue[k]
  {
    var m := BestGoesFirst(less, s);
    hide Best;
    if m != k {
      NotBothWays(less, s, k, m);
    }
  }

  lemma NotBothWays<Id, P(!new)>(less: Order<P>, s: Schedule<Id, P>, i: nat, j: nat)
    requires IsStrictWeakOrder(less) && Wf(s) && i < |s.queue| && j < |s.queue|
    ensures !(GoesBefore(less, s, i, j) && GoesBefore(less, s, j, i))
  {
    var p, q := s.priorities[s.queue[i]], s.priorities[s.queue[j]];
    assert less(p, q) && less(q, p) ==> less(p, p);
  }

  // ---------------------------------------------------------------------------------------------
  // Removing a stream

  lemma {:induction false} WithoutAt<Id>(queue: seq<Id>, k: nat)
    requires k < |queue| && forall i :: 0 <= i < k ==> queue[i] != queue[k]
    ensures Without(queue, queue[k]) == queue[..k] + queue[k + 1..]
  {
    if k > 0 {
      WithoutAt(queue[1..], k - 1);
    }
  }

  lemma IndexOf<Id>(queue: seq<Id>, id: Id) returns (k: nat)
    requires id in queue
    ensures k < |queue| && queue[k] == id
  {
    k :| k < |queue| && queue[k] == id;
  }

  lemma {:induction false} WithoutMembers<Id(!new)>(queue: seq<Id>, id: Id)
    requires Distinct(queue)
    ensures var r := Without(queue, id);
            && Distinct(r) && |r| == |queue| - (if id in queue then 1 else 0)
            && (forall x :: x in r <==> x in queue && x != id)
  {
    if queue != [] {
      var head, tail := queue[0], queue[1..];
      assert queue == [head] + tail && head !in tail;
      WithoutMembers(tail, id);
      if head != id {
        var r := Without(tail, id);
        assert forall i :: 0 < i < |[head] + r| ==> ([head] + r)[i] in r;
      }
    }
  }

  lemma WithoutWf<Id(!new), P>(s: Schedule<Id, P>, id: Id)
    requires Wf(s)
    ensures var r := Schedule(s.priorities, Without(s.queue, id));
            && Wf(r) && |r.queue| == |s.queue| - (if id in s.queue then 1 else 0)
            && (forall x :: x in r.queue <==> x in s.queue && x != id)
  {
    hide Without, Distinct;
    WithoutMembers(s.queue, id);
    assert forall i :: 0 <= i < |Without(s.queue, id)| ==> Without(s.queue, id)[i] in s.queue;
  }

  // ---------------------------------------------------------------------------------------------
  // Taking everything out

  /** The order in which the scheduled streams come out. */
  function Drain<Id(==, !new), P>(less: Order<P>, s: Schedule<Id, P>): (r: seq<Id>)
    requires Wf(s)
    decreases |s.queue|
  {
    if s.queue == [] then []
    else
      var id := Best(less, s);
      WithoutWf(s, id);
      [id] + Drain(less, Schedule(s.priorities, Without(s.queue, id)))
  }

  lemma DrainStep<Id(!new), P>(less: Order<P>, s: Schedule<Id, P>)
    requires Wf(s)
    ensures s.queue == [] ==> Drain(less, s) == []
    ensures s.queue != [] ==>
              var r := Schedule(s.priorities, Without(s.queue, Best(less, s)));
              Wf(r) && |r.queue| < |s.queue| && Drain(less, s) == [Best(less, s)] + Drain(less, r)
  {
    if s.queue != [] {
      var id := Best(less, s);
      hide Best;
      WithoutWf(s, id);
    }
  }

  /** Where a stream stands in the queue. */
  ghost function Place<Id>(queue: seq<Id>, id: Id): (k: nat)
    requires id in queue
    ensures k < |queue| && queue[k] == id
  {
    if queue[0] == id then 0 else 1 + Place(queue[1..], id)
  }

  /** `a` comes out before `b`. */
  ghost predicate Precedes<Id, P>(less: Order<P>, s: Schedule<Id, P>, a: Id, b: Id)
    requires Wf(s) && a in s.queue && b in s.queue
  {
    GoesBefore(less, s, Place(s.queue, a), Place(s.queue, b))
  }

  lemma {:induction false} DrainIsAll<Id(!new), P>(less: Order<P>, s: Schedule<Id, P>)
    requires Wf(s)
    ensures |Drain(less, s)| == |s.queue|
    ensures forall x :: x in Drain(less, s) <==> x in s.queue
    decreases |s.queue|
  {
    if s.queue != [] {
      var id := Best(less, s);
      hide Best;
      WithoutWf(s, id);
      DrainIsAll(less, Schedule(s.priorities, Without(s.queue, id)));
    }
  }

  lemma PlaceIsUnique<Id, P>(s: Schedule<Id, P>, k: nat)
    requires Wf(s) && k < |s.queue|
    ensures Place(s.queue, s.queue[k]) == k
  {
  }

  lemma PlaceWithout<Id(!new), P>(s: Schedule<Id, P>, k: nat, a: Id)
    requires Wf(s) && k < |s.queue| && a in s.queue && a != s.queue[k]
    ensures var r := Without(s.queue, s.queue[k]);
            a in r && Place(r, a) == Place(s.queue, a) - if Place(s.queue, a) < k then 0 else 1
  {
    var r := Schedule(s.priorities, Without(s.queue, s.queue[k]));
    WithoutWf(s, s.queue[k]);
    WithoutAt(s.queue, k);
    var i := Place(s.queue, a);
    hide Place;
    PlaceIsUnique(r, if i < k then i else i - 1);
  }

  /** Taking one stream out does not change how the others stand to each other. */
  lemma PrecedesWithout<Id(!new), P>(less: Order<P>, s: Schedule<Id, P>, id: Id, a: Id, b: Id)
    requires Wf(s) && a in s.queue && b in s.queue && a != id && b != id
    ensures var r := Schedule(s.priorities, Without(s.queue, id));
            Wf(r) && a in r.queue && b in r.queue && (Precedes(less, r, a, b) <==> Precedes(less, s, a, b))
  {
    hide Without, Place, Distinct;
    WithoutWf(s, id);
    if id in s.queue {
      var k := IndexOf(s.queue, id);
      PlaceWithout(s, k, a);
      PlaceWithout(s, k, b);
    }
  }

  /** Everything comes out once, by decreasing priority, and first come first out among equals. */
  lemma {:induction false} DrainIsOrdered<Id(!new), P(!new)>(less: Order<P>, s: Schedule<Id, P>, i: nat, j: nat)
    requires IsStrictWeakOrder(less) && Wf(s)
    requires i < j < |Drain(less, s)|
    ensures Drain(less, s)[i] in s.queue && Drain(less, s)[j] in s.queue
    ensures Drain(less, s)[i] != Drain(less, s)[j]
    ensures Precedes(less, s, Drain(less, s)[i], Drain(less, s)[j])
    decreases |s.queue|
  {
    hide Best, Drain, Without, IsStrictWeakOrder, Place, Wf, Precedes;
    DrainStep(less, s);
    var id := Best(less, s);
    var r := Schedule(s.priorities, Without(s.queue, id));
    var d := Drain(less, s);
    WithoutWf(s, id);
    DrainIsAll(less, r);
    assert d[j] == Drain(less, r)[j - 1] && d[j] in Drain(less, r);
    assert d[j] in r.queue;
    if i == 0 {
      BestPrecedes(less, s, d[j]);
    } else {
      DrainIsOrdered(less, r, i - 1, j - 1);
      PrecedesWithout(less, s, id, d[i], d[j]);
    }
  }

  lemma BestPrecedes<Id(!new), P(!new)>(less: Order<P>, s: Schedule<Id, P>, a: Id)
    requires IsStrictWeakOrder(less) && Wf(s) && a in s.queue && a != Best(less, s)
    ensures Precedes(less, s, Best(less, s), a)
  {
    var k := BestGoesFirst(less, s);
    PlaceIsUnique(s, k);
    hide Best, Place;
    assert GoesBefore(less, s, k, Place(s.queue, a));
  }

  // ---------------------------------------------------------------------------------------------
  // Yielding

  /** Whether a stream has to let another one go first. */
  predicate MustYield<Id(==), P>(less: Order<P>, s: Schedule<Id, P>, id: Id)
    requires Wf(s) && id in s.priorities
  {
    s.queue != [] && Best(less, s) != id && !less(s.priorities[Best(less, s)], s.priorities[id])
  }

  /** A stream need not yield exactly if, once it is scheduled, it is the one to go first. */
  lemma YieldIsExact<Id, P(!new)>(less: Order<P>, s: Schedule<Id, P>, id: Id)
    requires IsStrictWeakOrder(less) && Wf(s) && id in s.priorities
    ensures var t := if id in s.queue then s else Schedule(s.priorities, s.queue + [id]);
            Wf(t) && t.queue != [] && (MustYield(less, s, id) <==> Best(less, t) != id)
  {
    if id in s.queue {
      var k := BestGoesFirst(less, s);
      var j := IndexOf(s.queue, id);
      if k != j {
        assert GoesBefore(less, s, k, j);
      }
    } else {
      var t := Schedule(s.priorities, s.queue + [id]);
      assert t.queue[..|s.queue|] == s.queue;
      assert Schedule(t.priorities, t.queue[..|t.queue| - 1]) == s;
    }
  }
}

/** A circular list whose links are part of its elements. */
module IntrusiveList {
  import opened Sequences

  class Link {
    var next: Link?
    var prev: Link?

    constructor ()
      ensures next == null && prev == null
    {
      next, prev := null, null;
    }
  }

  /** The place after `i` on a ring of `n` links. */
  function Succ(n: nat, i: nat): nat {
    if i + 1 == n then 0 else i + 1
  }

  ghost predicate Linked(a: Link, b: Link)
    reads a, b
  {
    a.next == b && b.prev == a
  }

  /** Every link points to the one after it and is pointed back to, and the last is followed by the first. */
  ghost predicate IsCycle(ring: seq<Link>)
    reads ring
  {
    && ring != [] && Distinct(ring)
    && forall i :: 0 <= i < |ring| ==> Linked(ring[i], ring[Succ(|ring|, i)])
  }

  /** The link at a place where an iterator can stand: one of the elements, or the sentinel behind the last. */
  ghost function At(ring: seq<Link>, k: nat): Link
    requires 1 <= k <= |ring|
  {
    if k == |ring| then ring[0] else ring[k]
  }

  ghost function Before(ring: seq<Link>, k: nat): Link
    requires 1 <= k <= |ring|
  {
    ring[k - 1]
  }

  ghost function Inserted(ring: seq<Link>, k: nat, links: seq<Link>): seq<Link>
    requires 1 <= k <= |ring|
  {
    ring[..k] + links + ring[k..]
  }

  ghost function Cut(ring: seq<Link>, f: nat, l: nat): seq<Link>
    requires f <= l <= |ring|
  {
    ring[..f] + ring[l..]
  }

  /** Puts a link in front of another one. */
  method InsertLink(nextLink: Link, obj: Link, ghost ring: seq<Link>, ghost k: nat)
    requires IsCycle(ring) && 1 <= k <= |ring| && At(ring, k) == nextLink && obj !in ring
    modifies ring, obj
    ensures IsCycle(Inserted(ring, k, [obj]))
  {
    obj.next := nextLink;
    var initialNextPrev := nextLink.prev;
    assert Linked(ring[k - 1], ring[Succ(|ring|, k - 1)]);
    obj.prev := initialNextPrev;
    initialNextPrev.next := obj;
    nextLink.prev := obj;
    ghost var r := Inserted(ring, k, [obj]);
    forall i | 0 <= i < |r| ensures Linked(r[i], r[Succ(|r|, i)]) {
      if i < k - 1 || i > k {
        ghost var j := if i < k then i else i - 1;
        assert r[i] == ring[j] && r[Succ(|r|, i)] == ring[Succ(|ring|, j)];
        assert old(Linked(ring[j], ring[Succ(|ring|, j)]));
      }
    }
  }

  /** Takes a link out; what comes after it is returned. */
  method Erase(obj: Link, ghost ring: seq<Link>, ghost k: nat) returns (nextLink: Link)
    requires IsCycle(ring) && 1 <= k < |ring| && ring[k] == obj
    modifies ring
    ensures IsCycle(Cut(ring, k, k + 1)) && obj.next == null && obj.prev == null
    ensures nextLink == At(ring, k + 1)
  {
    assert Linked(ring[k - 1], ring[Succ(|ring|, k - 1)]) && Linked(ring[k], ring[Succ(|ring|, k)]);
    obj.next.prev := obj.prev;
    obj.prev.next := obj.next;
    nextLink := obj.next;
    obj.next := null;
    obj.prev := null;
    ghost var r := Cut(ring, k, k + 1);
    forall i | 0 <= i < |r| ensures Linked(r[i], r[Succ(|r|, i)]) {
      ghost var j := if i < k then i else i + 1;
      assert r[i] == ring[j];
      assert old(Linked(ring[j], ring[Succ(|ring|, j)]));
      if i != k - 1 {
        assert r[Succ(|r|, i)] == ring[Succ(|ring|, j)];
      }
    }
  }

  ghost predicate Disjoint(a: seq<Link>, b: seq<Link>) {
    forall i, j :: 0 <= i < |a| && 0 <= j < |b| ==> a[i] != b[j]
  }

  lemma InsertedDistinct(a: seq<Link>, p: nat, c: seq<Link>)
    requires 1 <= p <= |a| && Distinct(a) && Distinct(c) && Disjoint(a, c)
    ensures Distinct(Inserted(a, p, c))
  {
    var r := Inserted(a, p, c);
    forall i, j | 0 <= i < j < |r| ensures r[i] != r[j] {
    }
  }

  /** Links in a row; what is before the first and after the last is left open. */
  ghost predicate IsChain(c: seq<Link>)
    reads c
  {
    Distinct(c) && forall i :: 0 <= i < |c| - 1 ==> Linked(c[i], c[i + 1])
  }

  /** Closes the ring over the links from `first` up to but not including `last`. */
  method Detach(first: Link, last: Link, ghost b: seq<Link>, ghost f: nat, ghost l: nat)
    requires IsCycle(b) && 1 <= f < l <= |b| && b[f] == first && At(b, l) == last
    modifies Before(b, f)`next, last`prev
    ensures IsCycle(Cut(b, f, l)) && IsChain(b[f..l])
  {
    assert Linked(b[f - 1], b[Succ(|b|, f - 1)]);
    first.prev.next := last;
    last.prev := first.prev;
    ghost var u := Cut(b, f, l);
    forall i | 0 <= i < |u| ensures Linked(u[i], u[Succ(|u|, i)]) {
      ghost var j := if i < f then i else i + l - f;
      assert u[i] == b[j] && old(Linked(b[j], b[Succ(|b|, j)]));
    }
    ghost var c := b[f..l];
    forall i | 0 <= i < |c| - 1 ensures Linked(c[i], c[i + 1]) {
      assert old(Linked(b[f + i], b[Succ(|b|, f + i)]));
    }
  }

  /** Opens a ring in front of `pos` and closes it over a chain. */
  method Attach(pos: Link, first: Link, lastPrev: Link, ghost a: seq<Link>, ghost p: nat, ghost c: seq<Link>)
    requires IsCycle(a) && 1 <= p <= |a| && At(a, p) == pos
    requires IsChain(c) && c != [] && c[0] == first && c[|c| - 1] == lastPrev && Disjoint(a, c)
    modifies first`prev, Before(a, p)`next, lastPrev`next, pos`prev
    ensures IsCycle(Inserted(a, p, c))
  {
    assert Linked(a[p - 1], a[Succ(|a|, p - 1)]);
    first.prev := pos.prev;
    pos.prev.next := first;
    lastPrev.next := pos;
    pos.prev := lastPrev;
    InsertedDistinct(a, p, c);
    ghost var r := Inserted(a, p, c);
    forall i | 0 <= i < |r| ensures Linked(r[i], r[Succ(|r|, i)]) {
      if i < p {
        assert r[i] == a[i] && old(Linked(a[i], a[Succ(|a|, i)]));
      } else if i < p + |c| {
        assert r[i] == c[i - p];
        assert i < p + |c| - 1 ==> old(Linked(c[i - p], c[i - p + 1]));
      } else {
        assert r[i] == a[i - |c|] && old(Linked(a[i - |c|], a[Succ(|a|, i - |c|)]));
      }
    }
  }

  lemma CutDisjoint(b: seq<Link>, f: nat, l: nat)
    requires IsCycle(b) && 1 <= f <= l <= |b|
    ensures Disjoint(Cut(b, f, l), b[f..l])
  {
  }

  /** Two places with the same link are the same, and the link points back to the one before it. */
  lemma PlacesOf(b: seq<Link>, f: nat, l: nat)
    requires IsCycle(b) && 1 <= f <= l <= |b|
    ensures At(b, f) == At(b, l) <==> f == l
    ensures At(b, l).prev == b[l - 1]
  {
    assert Linked(b[l - 1], b[Succ(|b|, l - 1)]);
  }

  /**
   * Moves the links from `first` up to but not including `last` in front of `pos`, which is on another
   * ring, or on what is left of the same one.
   */
  method Splice(pos: Link, first: Link, last: Link,
                ghost a: seq<Link>, ghost p: nat, ghost b: seq<Link>, ghost f: nat, ghost l: nat)
    requires IsCycle(b) && 1 <= f <= l <= |b| && At(b, f) == first && At(b, l) == last
    requires (IsCycle(a) && Disjoint(a, b)) || a == Cut(b, f, l)
    requires 1 <= p <= |a| && At(a, p) == pos
    modifies a, b
    ensures IsCycle(Inserted(a, p, b[f..l]))
    ensures Disjoint(a, b) ==> IsCycle(Cut(b, f, l))
  {
    hide IsCycle, Disjoint;
    PlacesOf(b, f, l);
    if first == last {
      assert Cut(b, f, l) == b && b[f..l] == [] && Inserted(a, p, []) == a;
      return;
    }
    SpliceSome(pos, first, last, a, p, b, f, l);
  }

  /** The same for at least one link. */
  method SpliceSome(pos: Link, first: Link, last: Link,
                    ghost a: seq<Link>, ghost p: nat, ghost b: seq<Link>, ghost f: nat, ghost l: nat)
    requires IsCycle(b) && 1 <= f < l <= |b| && b[f] == first && At(b, l) == last && last.prev == b[l - 1]
    requires (IsCycle(a) && Disjoint(a, b)) || a == Cut(b, f, l)
    requires 1 <= p <= |a| && At(a, p) == pos
    modifies a, b
    ensures IsCycle(Inserted(a, p, b[f..l]))
    ensures Disjoint(a, b) ==> IsCycle(Cut(b, f, l))
  {
    hide IsCycle, IsChain;
    var lastPrev := last.prev;
    ghost var c := b[f..l];
    CutDisjoint(b, f, l);
    Detach(first, last, b, f, l);
    assert Disjoint(a, c) && IsCycle(a);
    Attach(pos, first, lastPrev, a, p, c);
  }

  // ---------------------------------------------------------------------------------------------
  // Lists

  /** The ring of a list that has taken over the elements of another. */
  ghost function Merged(a: seq<Link>, b: seq<Link>): seq<Link>
    requires a != [] && b != []
  {
    [a[0]] + b[1..] + a[1..]
  }

  lemma MergedDisjoint(a: seq<Link>, b: seq<Link>)
    requires IsCycle(a) && IsCycle(b) && Disjoint(a, b)
    ensures Disjoint(Merged(a, b), [b[0]])
  {
    var r := Merged(a, b);
    forall i | 0 <= i < |r| ensures r[i] != b[0] {
    }
  }

  class QuicheIntrusiveList {
    const sentinel: Link
    /** The sentinel and the elements. */
    ghost var ring: seq<Link>

    ghost predicate Valid()
      reads this, ring
    {
      ring != [] && ring[0] == sentinel && IsCycle(ring)
    }

    ghost function Elements(): seq<Link>
      requires ring != []
      reads this
    {
      ring[1..]
    }

    constructor ()
      ensures Valid() && fresh(sentinel) && Elements() == []
    {
      sentinel := new Link();
      new;
      sentinel.next, sentinel.prev := sentinel, sentinel;
      ring := [sentinel];
    }

    method IsEmpty() returns (r: bool)
      requires Valid()
      ensures r == (Elements() == [])
    {
      assert Linked(ring[0], ring[Succ(|ring|, 0)]);
      r := sentinel.next == sentinel;
    }

    method Begin() returns (first: Link)
      requires Valid()
      ensures first == At(ring, 1)
    {
      assert Linked(ring[0], ring[Succ(|ring|, 0)]);
      first := sentinel.next;
    }

    method PushBack(obj: Link)
      requires Valid() && obj !in ring
      modifies this`ring, ring, obj
      ensures Valid() && Elements() == old(Elements()) + [obj]
    {
      InsertLink(sentinel, obj, ring, |ring|);
      ring := Inserted(ring, |ring|, [obj]);
    }

    method PushFront(obj: Link)
      requires Valid() && obj !in ring
      modifies this`ring, ring, obj
      ensures Valid() && Elements() == [obj] + old(Elements())
    {
      var first := Begin();
      InsertLink(first, obj, ring, 1);
      ring := Inserted(ring, 1, [obj]);
    }

    method EraseElement(obj: Link, ghost k: nat)
      requires Valid() && k < |Elements()| && Elements()[k] == obj
      modifies this`ring, ring
      ensures Valid() && Elements() == old(Elements())[..k] + old(Elements())[k + 1..]
      ensures obj.next == null && obj.prev == null
    {
      var _ := Erase(obj, ring, k + 1);
      ring := Cut(ring, k + 1, k + 2);
    }

    method PopFront()
      requires Valid() && Elements() != []
      modifies this`ring, ring
      ensures Valid() && Elements() == old(Elements())[1..]
    {
      var first := Begin();
      EraseElement(first, 0);
    }

    method PopBack()
      requires Valid() && Elements() != []
      modifies this`ring, ring
      ensures Valid() && Elements() == old(Elements())[..|old(Elements())| - 1]
    {
      assert Linked(ring[|ring| - 1], ring[Succ(|ring|, |ring| - 1)]);
      EraseElement(sentinel.prev, |ring| - 2);
    }

    /** The links of the elements stay as they are. */
    method Clear()
      requires Valid()
      modifies this`ring, sentinel
      ensures Valid() && Elements() == []
    {
      sentinel.next, sentinel.prev := sentinel, sentinel;
      ring := [sentinel];
    }

    /** Takes all elements of another list, in front of its own. */
    method SpliceAll(src: QuicheIntrusiveList)
      requires Valid() && src.Valid() && src != this && Disjoint(ring, src.ring)
      modifies this`ring, src`ring, ring, src.ring
      ensures Valid() && src.Valid() && Disjoint(ring, src.ring)
      ensures Elements() == old(src.Elements()) + old(Elements()) && src.Elements() == []
      ensures ring == Merged(old(ring), old(src.ring)) && src.ring == [src.sentinel]
    {
      var pos := Begin();
      var first := src.Begin();
      ghost var a, b := ring, src.ring;
      MergedDisjoint(a, b);
      hide IsCycle;
      Splice(pos, first, src.sentinel, a, 1, b, 1, |b|);
      assert Inserted(a, 1, b[1..|b|]) == Merged(a, b);
      assert Cut(b, 1, |b|) == [b[0]];
      ring := Merged(a, b);
      src.ring := [b[0]];
      assert Elements() == b[1..] + a[1..];
    }

    method Swap(x: QuicheIntrusiveList)
      requires Valid() && x.Valid() && x != this && Disjoint(ring, x.ring)
      modifies this`ring, x`ring, ring, x.ring
      ensures Valid() && x.Valid()
      ensures Elements() == old(x.Elements()) && x.Elements() == old(Elements())
    {
      hide IsCycle;
      var tmp := new QuicheIntrusiveList();
      assert tmp.ring == [tmp.sentinel];
      SwapBy(x, tmp);
    }

    /** By way of a third list, which is empty. */
    method SwapBy(x: QuicheIntrusiveList, tmp: QuicheIntrusiveList)
      requires Valid() && x.Valid() && x != this && Disjoint(ring, x.ring)
      requires tmp.Valid() && tmp != this && tmp != x && tmp.ring == [tmp.sentinel]
      requires Disjoint(tmp.ring, ring) && Disjoint(tmp.ring, x.ring)
      modifies this`ring, x`ring, tmp`ring, ring, x.ring, tmp.sentinel
      ensures Valid() && x.Valid()
      ensures Elements() == old(x.Elements()) && x.Elements() == old(Elements())
    {
      hide IsCycle;
      ghost var mine, other := ring, x.ring;
      tmp.SpliceAll(this);
      assert tmp.ring == [tmp.sentinel] + mine[1..];
      this.SpliceAll(x);
      assert ring == [sentinel] + other[1..];
      x.SpliceAll(tmp);
    }

    /** How many elements there are, counted one by one. */
    method Size() returns (n: nat)
      requires Valid()
      ensures n == |Elements()|
    {
      var at := Begin();
      n := 0;
      while at != sentinel
        invariant n < |ring| && at == At(ring, n + 1)
        decreases |ring| - n
      {
        assert Linked(ring[n + 1], ring[Succ(|ring|, n + 1)]);
        at := at.next;
        n := n + 1;
      }
    }
  }
}

/** A double-ended queue in a circular buffer. */
module CircularDeque {
  import opened Bytes

  const MIN_CAPACITY_INCREMENT: nat := 3

  // ---------------------------------------------------------------------------------------------
  // The buffer: a cell holds an element from its construction to its destruction

  /** From `b` to `e`, or from `b` to the end of the buffer and from its start to `e`. */
  predicate InUse(b: nat, e: nat, i: nat) {
    if b <= e then b <= i < e else i < e || b <= i
  }

  predicate IsRing<T>(cells: seq<Option<T>>, b: nat, e: nat) {
    if cells == [] then b == 0 && e == 0
    else
      && b < |cells| && e < |cells|
      && forall i :: 0 <= i < |cells| ==> (cells[i].Some? <==> InUse(b, e, i))
  }

  function SizeOf(length: nat, b: nat, e: nat): nat
    requires b <= length
  {
    if b <= e then e - b else length + e - b
  }

  /** The cell of the element at a position, counted from the front. */
  function CellOf(length: nat, b: nat, pos: nat): (i: nat)
    ensures b < length && pos < length ==> i < length
  {
    if b + pos < length then b + pos else b + pos - length
  }

  function Elements<T>(cells: seq<Option<T>>, b: nat, e: nat): (r: seq<T>)
    requires IsRing(cells, b, e)
    ensures |r| == SizeOf(|cells|, b, e)
    ensures forall p :: 0 <= p < |r| ==>
              var i := CellOf(|cells|, b, p); i < |cells| && cells[i] == Some(r[p])
  {
    seq(SizeOf(|cells|, b, e), p requires 0 <= p < SizeOf(|cells|, b, e) =>
      (assert InUse(b, e, CellOf(|cells|, b, p)); cells[CellOf(|cells|, b, p)].value))
  }

  function Next(length: nat, i: nat): nat {
    if i == length - 1 then 0 else i + 1
  }

  function Prev(length: nat, i: nat): nat
    requires length > 0
  {
    if i == 0 then length - 1 else i - 1
  }

  lemma NotEmptyRing<T>(cells: seq<Option<T>>, b: nat, e: nat)
    requires IsRing(cells, b, e) && Elements(cells, b, e) != []
    ensures cells != [] && b != e
  {
  }

  lemma RingSize<T>(cells: seq<Option<T>>, b: nat, e: nat)
    requires IsRing(cells, b, e)
    ensures b <= |cells| && SizeOf(|cells|, b, e) == |Elements(cells, b, e)|
    ensures SizeOf(|cells|, b, e) <= if cells == [] then 0 else |cells| - 1
  {
  }

  lemma RingBounds<T>(cells: seq<Option<T>>, b: nat, e: nat)
    requires IsRing(cells, b, e) && cells != []
    ensures b < |cells| && e < |cells|
    ensures SizeOf(|cells|, b, e) == |Elements(cells, b, e)|
  {
  }

  /** A new element behind the last one; its cell was empty. */
  lemma PushBackRing<T>(cells: seq<Option<T>>, b: nat, e: nat, x: T)
    requires IsRing(cells, b, e) && SizeOf(|cells|, b, e) + 1 < |cells|
    ensures cells[e].None?
    ensures IsRing(cells[e := Some(x)], b, Next(|cells|, e))
    ensures Elements(cells[e := Some(x)], b, Next(|cells|, e)) == Elements(cells, b, e) + [x]
  {
  }

  lemma PushFrontIsRing<T>(cells: seq<Option<T>>, b: nat, e: nat, x: T)
    requires IsRing(cells, b, e) && SizeOf(|cells|, b, e) + 1 < |cells|
    ensures var f := Prev(|cells|, b); cells[f].None? && IsRing(cells[f := Some(x)], f, e)
  {
  }

  /** A new element in front of the first one; its cell was empty. */
  lemma PushFrontRing<T>(cells: seq<Option<T>>, b: nat, e: nat, x: T)
    requires IsRing(cells, b, e) && SizeOf(|cells|, b, e) + 1 < |cells|
    ensures var f := Prev(|cells|, b);
            && cells[f].None?
            && IsRing(cells[f := Some(x)], f, e)
            && Elements(cells[f := Some(x)], f, e) == [x] + Elements(cells, b, e)
  {
    PushFrontIsRing(cells, b, e, x);
    RingBounds(cells, b, e);
    hide IsRing, InUse;
    var f := Prev(|cells|, b);
    var u := cells[f := Some(x)];
    SizeAfterPrev(|cells|, b, e);
    forall p | 0 <= p < SizeOf(|cells|, b, e) + 1
      ensures Elements(u, f, e)[p] == ([x] + Elements(cells, b, e))[p]
    {
      assert u[CellOf(|cells|, f, p)] == Some(Elements(u, f, e)[p]);
      if p > 0 {
        assert CellOf(|cells|, f, p) == CellOf(|cells|, b, p - 1) != f;
        assert cells[CellOf(|cells|, b, p - 1)] == Some(Elements(cells, b, e)[p - 1]);
      }
    }
  }

  /** The first element goes; its cell held it. */
  lemma PopFrontRing<T>(cells: seq<Option<T>>, b: nat, e: nat)
    requires IsRing(cells, b, e) && b != e
    ensures cells[b].Some? && IsRing(cells[b := None], Next(|cells|, b), e)
    ensures Elements(cells, b, e) == [cells[b].value] + Elements(cells[b := None], Next(|cells|, b), e)
    ensures Elements(cells[b := None], Next(|cells|, b), e) == Elements(cells, b, e)[1..]
  {
    var f := Next(|cells|, b);
    assert forall p :: 0 <= p < SizeOf(|cells|, f, e) ==> CellOf(|cells|, b, p + 1) == CellOf(|cells|, f, p);
  }

  /** The last element goes; its cell held it. */
  lemma PopBackRing<T>(cells: seq<Option<T>>, b: nat, e: nat)
    requires IsRing(cells, b, e) && b != e
    ensures var f := Prev(|cells|, e);
            && cells[f].Some? && IsRing(cells[f := None], b, f)
            && Elements(cells, b, e) == Elements(cells[f := None], b, f) + [cells[f].value]
            && Elements(cells[f := None], b, f) == Elements(cells, b, e)[..|Elements(cells, b, e)| - 1]
  {
  }

  /** The first `n` elements go. */
  lemma DropFrontRing<T>(cells: seq<Option<T>>, b: nat, e: nat, n: nat, u: seq<Option<T>>)
    requires IsRing(cells, b, e) && cells != [] && n <= SizeOf(|cells|, b, e) && |u| == |cells|
    requires forall i :: 0 <= i < |u| ==> u[i] == if InUse(b, CellOf(|cells|, b, n), i) then None else cells[i]
    ensures IsRing(u, CellOf(|cells|, b, n), e)
    ensures Elements(u, CellOf(|cells|, b, n), e) == Elements(cells, b, e)[n..]
  {
    var f := CellOf(|cells|, b, n);
    assert forall p :: 0 <= p < SizeOf(|cells|, f, e) ==> CellOf(|cells|, b, p + n) == CellOf(|cells|, f, p);
  }

  /** The cells of the first `n` elements, and of all but those, are in use. */
  lemma PartsInUse<T>(cells: seq<Option<T>>, b: nat, e: nat, n: nat)
    requires IsRing(cells, b, e) && cells != [] && n <= SizeOf(|cells|, b, e)
    ensures forall i :: 0 <= i < |cells| && InUse(b, CellOf(|cells|, b, n), i) ==> cells[i].Some?
    ensures forall i :: 0 <= i < |cells| && InUse(CellOf(|cells|, b, n), e, i) ==> cells[i].Some?
    ensures CellOf(|cells|, b, n) < |cells|
  {
  }

  /** All but the first `n` elements go. */
  lemma DropBackRing<T>(cells: seq<Option<T>>, b: nat, e: nat, n: nat, u: seq<Option<T>>)
    requires IsRing(cells, b, e) && cells != [] && n <= SizeOf(|cells|, b, e) && |u| == |cells|
    requires forall i :: 0 <= i < |u| ==> u[i] == if InUse(CellOf(|cells|, b, n), e, i) then None else cells[i]
    ensures IsRing(u, b, CellOf(|cells|, b, n))
    ensures Elements(u, b, CellOf(|cells|, b, n)) == Elements(cells, b, e)[..n]
  {
  }

  /** A range that starts at the front of the buffer. */
  lemma UnwrappedRing<T>(cells: seq<Option<T>>, xs: seq<T>)
    requires |xs| < |cells|
    requires forall i :: 0 <= i < |cells| ==> cells[i] == if i < |xs| then Some(xs[i]) else None
    ensures IsRing(cells, 0, |xs|) && Elements(cells, 0, |xs|) == xs
  {
  }

  /** Where the elements are: in one part of the buffer, or in its end and its start. */
  lemma RingParts<T>(cells: seq<Option<T>>, b: nat, e: nat)
    requires IsRing(cells, b, e)
    ensures forall p :: 0 <= p < |Elements(cells, b, e)| ==>
              Some(Elements(cells, b, e)[p]) == if b + p < |cells| then cells[b + p] else cells[b + p - |cells|]
  {
  }

  /** How much more room is made when there is none left. */
  function Growth(capacity: nat): nat {
    Max(MIN_CAPACITY_INCREMENT, capacity / 4)
  }

  /** What a deque grows by is at least a sixth of what it has then. */
  lemma GrowthIsLarge(capacity: nat)
    ensures 6 * Growth(capacity) >= capacity + Growth(capacity)
  {
  }

  /** Six for every push cover the moves so far, and enough is set aside for the next one. */
  ghost predicate Paid(pushes: nat, moves: nat, threshold: int, size: nat, capacity: nat) {
    && 6 * pushes - moves >= 6 * Max(0, size - threshold)
    && 6 * (capacity - threshold) >= capacity
  }

  lemma PaidSmaller(pushes: nat, moves: nat, threshold: int, size: nat, capacity: nat, size': nat)
    requires Paid(pushes, moves, threshold, size, capacity) && size' <= size
    ensures Paid(pushes, moves, threshold, size', capacity)
  {
  }

  lemma PaidPush(pushes: nat, moves: nat, threshold: int, size: nat, capacity: nat)
    requires Paid(pushes, moves, threshold, size, capacity)
    ensures Paid(pushes + 1, moves, threshold, size + 1, capacity)
  {
  }

  lemma PaidPushes(pushes: nat, moves: nat, threshold: int, size: nat, capacity: nat, n: nat)
    requires Paid(pushes, moves, threshold, size, capacity)
    ensures Paid(pushes + n, moves, threshold, size + n, capacity)
  {
  }

  lemma PaidReserve(pushes: nat, moves: nat, threshold: int, size: nat, capacity: nat, capacity': nat)
    requires Paid(pushes, moves, threshold, size, capacity) && capacity <= capacity'
    ensures Paid(pushes, moves, threshold, size, capacity')
  {
  }

  lemma PaidGrowth(pushes: nat, moves: nat, threshold: int, capacity: nat)
    requires Paid(pushes, moves, threshold, capacity, capacity)
    ensures Paid(pushes, moves + capacity, capacity, capacity, capacity + Growth(capacity))
  {
    GrowthIsLarge(capacity);
  }

  /** The pushes beyond the old capacity pay for the move that makes room for all of them at once. */
  lemma PaidExtend(pushes: nat, moves: nat, threshold: int, size: nat, capacity: nat, count: nat)
    requires Paid(pushes, moves, threshold, size, capacity) && size <= capacity < count
    ensures Paid(pushes + (count - size), moves + size, capacity, count, Max(count, capacity + Growth(capacity)))
  {
    GrowthIsLarge(capacity);
  }

  lemma PaidShrink(pushes: nat, moves: nat, threshold: int, size: nat, capacity: nat)
    requires Paid(pushes, moves, threshold, size, capacity)
    ensures Paid(pushes, moves, size, size, size + Growth(size))
  {
    GrowthIsLarge(size);
  }

  // ---------------------------------------------------------------------------------------------
  // The cost of a run

  /** What a client can do to the size and the capacity. */
  datatype Operation =
    | Push
    | Remove(n: nat)
    | GrowTo(count: nat)
    | ReserveRoom(room: nat)
    | ShrinkToFit

  /** How full a deque is, how many elements were pushed, and how many were moved without being asked to. */
  datatype Load = Load(size: nat, capacity: nat, pushes: nat, moves: nat)

  function Perform(l: Load, op: Operation): (r: Load)
    requires l.size <= l.capacity
    ensures r.size <= r.capacity
  {
    match op
    case Push =>
      if l.size < l.capacity then l.(size := l.size + 1, pushes := l.pushes + 1)
      else Load(l.size + 1, l.capacity + Growth(l.capacity), l.pushes + 1, l.moves + l.size)
    case Remove(n) => l.(size := Max(0, l.size - n))
    case GrowTo(count) =>
      if count <= l.size then l
      else if count <= l.capacity then l.(size := count, pushes := l.pushes + (count - l.size))
      else Load(count, Max(count, l.capacity + Growth(l.capacity)), l.pushes + (count - l.size), l.moves + l.size)
    case ReserveRoom(room) => l.(capacity := Max(room, l.capacity))
    case ShrinkToFit => if l.capacity > l.size + Growth(l.size) then l.(capacity := l.size + Growth(l.size)) else l
  }

  function PerformAll(l: Load, ops: seq<Operation>): (r: Load)
    requires l.size <= l.capacity
    decreases |ops|
  {
    if ops == [] then l else PerformAll(Perform(l, ops[0]), ops[1..])
  }

  lemma PerformPays(l: Load, threshold: int, op: Operation) returns (threshold': int)
    requires l.size <= l.capacity && Paid(l.pushes, l.moves, threshold, l.size, l.capacity)
    ensures var r := Perform(l, op); Paid(r.pushes, r.moves, threshold', r.size, r.capacity)
  {
    threshold' := threshold;
    match op
    case Push =>
      if l.size < l.capacity {
        PaidPush(l.pushes, l.moves, threshold, l.size, l.capacity);
      } else {
        PaidGrowth(l.pushes, l.moves, threshold, l.capacity);
        threshold' := l.capacity;
        PaidPush(l.pushes, l.moves + l.size, threshold', l.size, l.capacity + Growth(l.capacity));
      }
    case Remove(n) => PaidSmaller(l.pushes, l.moves, threshold, l.size, l.capacity, Max(0, l.size - n));
    case GrowTo(count) =>
      if l.capacity < count {
        PaidExtend(l.pushes, l.moves, threshold, l.size, l.capacity, count);
        threshold' := l.capacity;
      } else if l.size < count {
        PaidPushes(l.pushes, l.moves, threshold, l.size, l.capacity, count - l.size);
      }
    case ReserveRoom(room) => PaidReserve(l.pushes, l.moves, threshold, l.size, l.capacity, Max(room, l.capacity));
    case ShrinkToFit =>
      if l.capacity > l.size + Growth(l.size) {
        PaidShrink(l.pushes, l.moves, threshold, l.size, l.capacity);
        threshold' := l.size;
      }
  }

  lemma {:induction false} RunPays(l: Load, threshold: int, ops: seq<Operation>)
    requires l.size <= l.capacity && Paid(l.pushes, l.moves, threshold, l.size, l.capacity)
    ensures PerformAll(l, ops).moves <= 6 * PerformAll(l, ops).pushes
    decreases |ops|
  {
    if ops != [] {
      var threshold' := PerformPays(l, threshold, ops[0]);
      hide Paid, Perform;
      RunPays(Perform(l, ops[0]), threshold', ops[1..]);
    }
  }

  /** Over every run of operations from an empty deque, at most six elements are moved for each one that is
      pushed, not counting the moves that were asked for. */
  lemma PushesPayForMoves(ops: seq<Operation>)
    ensures var r := PerformAll(Load(0, 0, 0, 0), ops); r.moves <= 6 * r.pushes
  {
    RunPays(Load(0, 0, 0, 0), 0, ops);
  }

  class QuicheCircularDeque<T> {
    var data: array<Option<T>>
    var begin: nat
    var end: nat

    /** Elements pushed so far, elements moved so far, and how many of the moves were asked for. */
    ghost var pushes: nat
    ghost var moves: nat
    ghost var requested: nat
    /** A size below which no push has been set aside for the next move. */
    ghost var threshold: int

    ghost predicate Valid()
      reads this, data
    {
      && IsRing(data[..], begin, end) && requested <= moves
      && Paid(pushes, moves - requested, threshold, Size(), Capacity())
    }

    ghost function Contents(): (s: seq<T>)
      requires IsRing(data[..], begin, end)
      reads this, data
    {
      Elements(data[..], begin, end)
    }

    function Capacity(): (n: nat)
      reads this, data
    {
      if data.Length == 0 then 0 else data.Length - 1
    }

    function Size(): (n: nat)
      requires begin <= data.Length
      reads this, data
    {
      SizeOf(data.Length, begin, end)
    }

    lemma SizeIsRight()
      requires Valid()
      ensures begin <= data.Length && Size() == |Contents()|
    {
    }

    /** How full the deque is, and what its pushes have cost. */
    ghost function Cost(): (l: Load)
      requires IsRing(data[..], begin, end) && requested <= moves
      reads this, data
      ensures l.size <= l.capacity
    {
      Load(Size(), Capacity(), pushes, moves - requested)
    }

    constructor ()
      ensures Valid() && fresh(data) && Contents() == [] && Cost() == Load(0, 0, 0, 0)
    {
      data := new Option<T>[0];
      begin, end, pushes, moves, requested, threshold := 0, 0, 0, 0, 0, 0;
    }

    method IsEmpty() returns (r: bool)
      requires Valid()
      ensures r == (Contents() == [])
    {
      r := begin == end;
    }

    method At(pos: nat) returns (x: T)
      requires Valid() && pos < |Contents()|
      ensures x == Contents()[pos]
    {
      var index := begin + pos;
      assert data[..][CellOf(data.Length, begin, pos)] == Some(Contents()[pos]);
      if index < data.Length {
        return data[index].value;
      }
      return data[index - data.Length].value;
    }

    method Front() returns (x: T)
      requires Valid() && Contents() != []
      ensures x == Contents()[0]
    {
      assert data[..][CellOf(data.Length, begin, 0)] == Some(Contents()[0]);
      return data[begin].value;
    }

    method Back() returns (x: T)
      requires Valid() && Contents() != []
      ensures x == Contents()[|Contents()| - 1]
    {
      assert data[..][CellOf(data.Length, begin, |Contents()| - 1)] == Some(Contents()[|Contents()| - 1]);
      return data[if end == 0 then data.Length - 1 else end - 1].value;
    }

    /** Moves `n` elements to empty cells and leaves empty cells behind. */
    method MoveRange(src: array<Option<T>>, from: nat, n: nat, dest: array<Option<T>>, at: nat)
      requires src != dest && from + n <= src.Length && at + n <= dest.Length
      requires forall i :: from <= i < from + n ==> src[i].Some?
      requires forall i :: at <= i < at + n ==> dest[i].None?
      modifies this`moves, src, dest
      ensures moves == old(moves) + n
      ensures forall i :: 0 <= i < dest.Length ==>
                dest[i] == if at <= i < at + n then old(src[i - at + from]) else old(dest[i])
      ensures forall i :: 0 <= i < src.Length ==> src[i] == if from <= i < from + n then None else old(src[i])
    {
      var k := 0;
      while k < n
        invariant k <= n && moves == old(moves) + k
        invariant forall i :: 0 <= i < dest.Length ==>
                    dest[i] == if at <= i < at + k then old(src[i - at + from]) else old(dest[i])
        invariant forall i :: 0 <= i < src.Length ==> src[i] == if from <= i < from + k then None else old(src[i])
      {
        dest[at + k] := src[from + k];
        src[from + k] := None;
        moves := moves + 1;
        k := k + 1;
      }
    }

    /** Moves everything to the front of another buffer. */
    method MoveOut(newData: array<Option<T>>)
      requires IsRing(data[..], begin, end) && newData != data && Size() <= newData.Length
      requires forall i :: 0 <= i < newData.Length ==> newData[i].None?
      modifies this`moves, data, newData
      ensures moves == old(moves) + |old(Contents())|
      ensures forall i :: 0 <= i < data.Length ==> data[i].None?
      ensures forall i :: 0 <= i < newData.Length ==>
                newData[i] == if i < |old(Contents())| then Some(old(Contents())[i]) else None
    {
      ghost var xs := Contents();
      RingParts(data[..], begin, end);
      assert forall p :: 0 <= p < |xs| ==>
        Some(xs[p]) == if begin + p < data.Length then data[begin + p] else data[begin + p - data.Length];
      assert forall i :: 0 <= i < data.Length && data[i].Some? ==> InUse(begin, end, i);
      hide Elements, CellOf;
      if begin <= end {
        MoveRange(data, begin, end - begin, newData, 0);
      } else {
        var beforeWrap := data.Length - begin;
        MoveRange(data, begin, beforeWrap, newData, 0);
        MoveRange(data, 0, end, newData, beforeWrap);
      }
    }

    /** Moves everything to a new buffer, once, and leaves nothing in the old one. */
    method Relocate(newCapacity: nat)
      requires IsRing(data[..], begin, end) && newCapacity > Size()
      modifies this`data, this`begin, this`end, this`moves, data
      ensures fresh(data) && data.Length == newCapacity + 1
      ensures IsRing(data[..], begin, end) && Contents() == old(Contents())
      ensures moves == old(moves) + |Contents()|
      ensures forall i :: 0 <= i < old(data).Length ==> old(data)[i].None?
    {
      hide IsRing, Elements, InUse, CellOf;
      RingSize(data[..], begin, end);
      var n := Size();
      ghost var xs, was := Contents(), data;
      var newData := new Option<T>[newCapacity + 1](_ => None);
      MoveOut(newData);
      assert data == was;
      data := newData;
      begin, end := 0, n;
      UnwrappedRing(data[..], xs);
    }

    method Reserve(newCapacity: nat)
      requires Valid()
      modifies this`data, this`begin, this`end, this`moves, this`requested, data
      ensures Valid() && Contents() == old(Contents())
      ensures Cost() == Perform(old(Cost()), ReserveRoom(newCapacity))
      ensures data == old(data) || fresh(data)
    {
      if newCapacity > Capacity() {
        PaidReserve(pushes, moves - requested, threshold, Size(), Capacity(), newCapacity);
        hide Paid;
        Relocate(newCapacity);
        requested := requested + Size();
      }
    }

    method ShrinkToFit()
      requires Valid()
      modifies this`data, this`begin, this`end, this`moves, this`requested, this`threshold, data
      ensures Valid() && Contents() == old(Contents())
      ensures Cost() == Perform(old(Cost()), Operation.ShrinkToFit)
      ensures data == old(data) || fresh(data)
    {
      var newCapacity := Size() + Max(MIN_CAPACITY_INCREMENT, Size() / 4);
      if Capacity() > newCapacity {
        PaidShrink(pushes, moves - requested, threshold, Size(), Capacity());
        hide Paid;
        Relocate(newCapacity);
        requested := requested + Size();
        threshold := Size();
      }
    }

    /** Room for one more. */
    method ExpandForPush()
      requires Valid()
      modifies this`data, this`begin, this`end, this`moves, this`threshold, data
      ensures Valid() && Contents() == old(Contents()) && Capacity() > |Contents()|
      ensures data == old(data) || fresh(data)
      ensures Capacity() == old(Capacity()) + if old(Size()) < old(Capacity()) then 0 else Growth(old(Capacity()))
      ensures moves == old(moves) + if old(Size()) < old(Capacity()) then 0 else old(Size())
    {
      if Capacity() >= Size() + 1 {
        return;
      }
      var newCapacity := Max(Size() + 1, Capacity() + Max(MIN_CAPACITY_INCREMENT, Capacity() / 4));
      ghost var full := Capacity();
      PaidGrowth(pushes, moves - requested, threshold, full);
      hide Paid;
      Relocate(newCapacity);
      threshold := full;
    }

    /** Constructs or destroys an element in its cell. */
    method SetCell(i: nat, cell: Option<T>)
      requires i < data.Length && data[i].Some? != cell.Some?
      modifies data
      ensures data[..] == old(data[..])[i := cell]
    {
      data[i] := cell;
    }

    /** Into the cell behind the last element, which is free. */
    method PlaceBack(x: T)
      requires IsRing(data[..], begin, end) && Size() < Capacity()
      modifies this`end, data
      ensures IsRing(data[..], begin, end) && Contents() == old(Contents()) + [x]
      ensures Size() == old(Size()) + 1
    {
      hide IsRing, Elements, InUse, CellOf;
      ghost var cells := data[..];
      RingBounds(cells, begin, end);
      PushBackRing(cells, begin, end, x);
      SizeAfterNext(data.Length, begin, end);
      SetCell(end, Some(x));
      end := if end == data.Length - 1 then 0 else end + 1;
    }

    method EmplaceBack(x: T)
      requires Valid()
      modifies this, data
      ensures Valid() && Contents() == old(Contents()) + [x]
      ensures Cost() == Perform(old(Cost()), Push) && requested == old(requested)
      ensures data == old(data) || fresh(data)
    {
      hide IsRing, Elements, InUse, CellOf, Paid;
      ExpandForPush();
      RingBounds(data[..], begin, end);
      PaidPush(pushes, moves - requested, threshold, Size(), Capacity());
      PlaceBack(x);
      pushes := pushes + 1;
    }

    method EmplaceFront(x: T)
      requires Valid()
      modifies this, data
      ensures Valid() && Contents() == [x] + old(Contents())
      ensures Cost() == Perform(old(Cost()), Push) && requested == old(requested)
      ensures data == old(data) || fresh(data)
    {
      hide IsRing, Elements, InUse, CellOf, Paid;
      ExpandForPush();
      ghost var cells := data[..];
      RingBounds(cells, begin, end);
      PushFrontRing(cells, begin, end, x);
      PaidPush(pushes, moves - requested, threshold, Size(), Capacity());
      SizeAfterPrev(data.Length, begin, end);
      begin := if begin == 0 then data.Length - 1 else begin - 1;
      SetCell(begin, Some(x));
      pushes := pushes + 1;
    }

    method PopFront()
      requires Valid() && Contents() != []
      modifies this`begin, data
      ensures Valid() && Contents() == old(Contents())[1..]
      ensures Cost() == Perform(old(Cost()), Remove(1))
    {
      hide IsRing, Elements, InUse, CellOf, Paid;
      NotEmptyRing(data[..], begin, end);
      ghost var cells := data[..];
      RingBounds(cells, begin, end);
      PopFrontRing(cells, begin, end);
      PaidSmaller(pushes, moves - requested, threshold, Size(), Capacity(), Size() - 1);
      SizeAfterPop(data.Length, begin, end);
      SetCell(begin, None);
      begin := if begin == data.Length - 1 then 0 else begin + 1;
    }

    method PopBack()
      requires Valid() && Contents() != []
      modifies this`end, data
      ensures Valid() && Contents() == old(Contents())[..|old(Contents())| - 1]
      ensures Cost() == Perform(old(Cost()), Remove(1))
    {
      hide IsRing, Elements, InUse, CellOf, Paid;
      NotEmptyRing(data[..], begin, end);
      ghost var cells := data[..];
      RingBounds(cells, begin, end);
      PopBackRing(cells, begin, end);
      PaidSmaller(pushes, moves - requested, threshold, Size(), Capacity(), Size() - 1);
      SizeAfterPop(data.Length, begin, end);
      end := if end == 0 then data.Length - 1 else end - 1;
      SetCell(end, None);
    }

    /** Destroys the elements from one place of the ring to another. */
    method DestroyRange(b: nat, e: nat)
      requires b <= data.Length && e <= data.Length
      requires forall i :: 0 <= i < data.Length && InUse(b, e, i) ==> data[i].Some?
      modifies data
      ensures forall i :: 0 <= i < data.Length ==> data[i] == if InUse(b, e, i) then None else old(data[i])
    {
      if e >= b {
        DestroyUnwrappedRange(b, e);
      } else {
        DestroyUnwrappedRange(b, data.Length);
        DestroyUnwrappedRange(0, e);
      }
    }

    method DestroyUnwrappedRange(b: nat, e: nat)
      requires b <= e <= data.Length
      requires forall i :: b <= i < e ==> data[i].Some?
      modifies data
      ensures forall i :: 0 <= i < data.Length ==> data[i] == if b <= i < e then None else old(data[i])
    {
      var k := b;
      while k != e
        invariant b <= k <= e
        invariant forall i :: 0 <= i < data.Length ==> data[i] == if b <= i < k then None else old(data[i])
      {
        data[k] := None;
        k := k + 1;
      }
    }

    method Clear()
      requires Valid()
      modifies this`begin, this`end, data
      ensures Valid() && Contents() == []
      ensures Cost() == Perform(old(Cost()), Remove(old(Size())))
    {
      PaidSmaller(pushes, moves - requested, threshold, Size(), Capacity(), 0);
      DestroyRange(begin, end);
      begin, end := 0, 0;
    }

    method PopFrontN(count: nat) returns (n: nat)
      requires Valid()
      modifies this`begin, data
      ensures Valid() && n == (if count < |old(Contents())| then count else |old(Contents())|)
      ensures Contents() == old(Contents())[n..]
      ensures Cost() == Perform(old(Cost()), Remove(count))
    {
      hide IsRing, Elements, InUse, CellOf, Paid;
      ghost var cells := data[..];
      RingSize(cells, begin, end);
      n := if count < Size() then count else Size();
      assert Contents()[0..] == Contents();
      if n == 0 {
        return;
      }
      RingBounds(cells, begin, end);
      PartsInUse(cells, begin, end, n);
      var newBegin := (begin + data.Length + n) % data.Length;
      WrapsOnce(data.Length, begin, n);
      DestroyRange(begin, newBegin);
      DropFrontRing(cells, begin, end, n, data[..]);
      ghost var size := Size();
      begin := newBegin;
      RingSize(data[..], begin, end);
      PaidSmaller(pushes, moves - requested, threshold, size, Capacity(), Size());
    }

    method PopBackN(count: nat) returns (n: nat)
      requires Valid()
      modifies this`end, data
      ensures Valid() && n == (if count < |old(Contents())| then count else |old(Contents())|)
      ensures Contents() == old(Contents())[..|old(Contents())| - n]
      ensures Cost() == Perform(old(Cost()), Remove(count))
    {
      n := if count < Size() then count else Size();
      if n == 0 {
        return;
      }
      var newEnd := (end + data.Length - n) % data.Length;
      WrapsBack(data.Length, begin, end, n);
      CutBack(newEnd, Size() - n);
    }

    /** Lets the deque end after `keep` elements. */
    method CutBack(newEnd: nat, ghost keep: nat)
      requires Valid() && data.Length > 0 && keep <= |Contents()| && newEnd == CellOf(data.Length, begin, keep)
      modifies this`end, data
      ensures Valid() && Contents() == old(Contents())[..keep]
      ensures Cost() == Perform(old(Cost()), Remove(old(Size()) - keep))
    {
      hide IsRing, Elements, InUse, CellOf, Paid;
      ghost var cells, e := data[..], end;
      RingSize(cells, begin, end);
      RingBounds(cells, begin, end);
      PartsInUse(cells, begin, end, keep);
      PaidSmaller(pushes, moves - requested, threshold, Size(), Capacity(), keep);
      DestroyRange(newEnd, end);
      DropBackRing(cells, begin, e, keep, data[..]);
      end := newEnd;
      RingSize(data[..], begin, end);
    }

    /** Keeps the first `count` elements. */
    method Truncate(count: nat)
      requires Valid() && data.Length > 0 && count <= |Contents()|
      modifies this`end, data
      ensures Valid() && Contents() == old(Contents())[..count]
      ensures Cost() == Perform(old(Cost()), Remove(old(Size()) - count))
    {
      var newEnd := (begin + count) % data.Length;
      Wraps(data.Length, begin, count);
      CutBack(newEnd, count);
    }

    /** Room for `count` elements, where there is none; the pushes that are to come pay for it. */
    method ExpandTo(count: nat)
      requires IsRing(data[..], begin, end) && requested <= moves && Capacity() < count
      modifies this`data, this`begin, this`end, this`moves, data
      ensures IsRing(data[..], begin, end) && Contents() == old(Contents()) && fresh(data)
      ensures Capacity() == Max(count, old(Capacity()) + Growth(old(Capacity())))
      ensures moves == old(moves) + |Contents()|
    {
      Relocate(Max(count, Capacity() + Max(MIN_CAPACITY_INCREMENT, Capacity() / 4)));
    }

    /** Adds copies of `x` until there are `count` elements. */
    method Extend(count: nat, x: T)
      requires Valid() && count > |Contents()|
      modifies this, data
      ensures Valid() && Contents() == old(Contents()) + seq(count - |old(Contents())|, _ => x)
      ensures Cost() == Perform(old(Cost()), GrowTo(count)) && requested == old(requested)
      ensures data == old(data) || fresh(data)
    {
      hide IsRing, Elements, Paid, Growth;
      RingSize(data[..], begin, end);
      if Capacity() < count {
        PaidExtend(pushes, moves - requested, threshold, Size(), Capacity(), count);
        threshold := Capacity();
        ExpandTo(count);
        RingSize(data[..], begin, end);
      } else {
        PaidPushes(pushes, moves - requested, threshold, Size(), Capacity(), count - Size());
      }
      Fill(count, x);
    }

    /** Pushes copies of `x` where there is room for them. */
    method Fill(count: nat, x: T)
      requires IsRing(data[..], begin, end) && Size() < count <= Capacity()
      modifies this`end, this`pushes, data
      ensures IsRing(data[..], begin, end)
      ensures Contents() == old(Contents()) + seq(count - |old(Contents())|, _ => x)
      ensures Size() == count && pushes == old(pushes) + (count - old(Size()))
    {
      ghost var xs := Contents();
      assert xs == xs + seq(0, _ => x);
      while Size() < count
        invariant IsRing(data[..], begin, end) && |xs| <= Size() <= count <= Capacity()
        invariant pushes == old(pushes) + (Size() - |xs|)
        invariant Contents() == xs + seq(Size() - |xs|, _ => x)
        decreases count - Size()
      {
        PlaceBack(x);
        pushes := pushes + 1;
      }
    }

    /** A buffer is needed unless the deque grows: the place of the new end is taken modulo its length. */
    method Resize(count: nat, x: T)
      requires Valid()
      requires data.Length > 0 || count > |Contents()|
      modifies this, data
      ensures Valid()
      ensures count <= |old(Contents())| ==> Contents() == old(Contents())[..count]
      ensures count > |old(Contents())| ==> Contents() == old(Contents()) + seq(count - |old(Contents())|, _ => x)
      ensures Cost() == Perform(old(Cost()), if count > old(Size()) then GrowTo(count) else Remove(old(Size()) - count))
      ensures requested == old(requested)
    {
      if count > Size() {
        Extend(count, x);
      } else {
        Truncate(count);
      }
    }

    /** Pushes pay for the growth: on average no more than six elements are moved for each. */
    lemma GrowthIsAmortized()
      requires Valid()
      ensures moves - requested <= 6 * pushes
    {
    }
  }

  lemma SizeAfterNext(length: nat, b: nat, e: nat)
    requires b < length && e < length && SizeOf(length, b, e) + 1 < length
    ensures SizeOf(length, b, Next(length, e)) == SizeOf(length, b, e) + 1
  {
  }

  lemma SizeAfterPrev(length: nat, b: nat, e: nat)
    requires b < length && e < length && SizeOf(length, b, e) + 1 < length
    ensures SizeOf(length, Prev(length, b), e) == SizeOf(length, b, e) + 1
  {
  }

  lemma SizeAfterPop(length: nat, b: nat, e: nat)
    requires b < length && e < length && b != e
    ensures SizeOf(length, Next(length, b), e) == SizeOf(length, b, e) - 1
    ensures SizeOf(length, b, Prev(length, e)) == SizeOf(length, b, e) - 1
  {
  }

  lemma WrapsOnce(length: nat, b: nat, n: nat)
    requires b < length && n < length
    ensures (b + length + n) % length == CellOf(length, b, n)
  {
    if b + n < length {
      ModOnce(length, b + n, 1);
    } else {
      ModOnce(length, b + n - length, 2);
    }
  }

  lemma Wraps(length: nat, b: nat, n: nat)
    requires b < length && n < length
    ensures (b + n) % length == CellOf(length, b, n)
  {
    ModOnce(length, CellOf(length, b, n), if b + n < length then 0 else 1);
  }

  lemma WrapsBack(length: nat, b: nat, e: nat, n: nat)
    requires b < length && e < length && n <= SizeOf(length, b, e)
    ensures (e + length - n) % length == CellOf(length, b, SizeOf(length, b, e) - n)
  {
    ModOnce(length, CellOf(length, b, SizeOf(length, b, e) - n), if e < n then 0 else 1);
  }

  lemma ModOnce(length: nat, r: nat, k: nat)
    requires r < length
    ensures (length * k + r) % length == r
  {
    QuotientUnique(length * k + r, length, k, r);
  }
}

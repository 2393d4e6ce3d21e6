/**
 * The ring buffer of iceoryx2-bb/container/src/queue.rs with its real 64-bit `start`,
 * which wraps around after 2^64 pushes.
 */
module QueueWrap {
  import opened Prelude
  import opened Math

  datatype Ring<T> = Ring(cells: seq<Option<T>>, start: nat, len: nat) {
    function Capacity(): nat { |cells| }

    predicate IsWord() { start < WORD && len <= |cells| < WORD && |cells| > 0 }
  }

  datatype Op<T> = Push(value: T) | PushWithOverflow(value: T) | Pop

  datatype Output<T> = Pushed(done: bool) | Popped(value: Option<T>)

  function New<T>(capacity: nat): Ring<T> {
    Ring(seq(capacity, _ => None), 0, 0)
  }

  /** `(start - len) % capacity` with wrapping subtraction. */
  function OldestCell<T>(q: Ring<T>): (c: nat)
    requires q.IsWord()
    ensures c < q.Capacity()
  {
    (q.start + WORD - q.len) % WORD % q.Capacity()
  }

  function UncheckedPush<T>(q: Ring<T>, value: T): (r: Ring<T>)
    requires q.IsWord() && q.len < q.Capacity()
    ensures r.IsWord() && r.Capacity() == q.Capacity()
  {
    Ring(q.cells[q.start % q.Capacity() := Some(value)], (q.start + 1) % WORD, q.len + 1)
  }

  function Remove<T>(q: Ring<T>): (r: Ring<T>)
    requires q.IsWord() && q.len > 0
    ensures r.IsWord() && r.Capacity() == q.Capacity()
  {
    q.(cells := q.cells[OldestCell(q) := None], len := q.len - 1)
  }

  function Step<T>(q: Ring<T>, op: Op<T>): (r: (Ring<T>, Output<T>))
    requires q.IsWord()
    ensures r.0.IsWord() && r.0.Capacity() == q.Capacity()
  {
    match op
    case Push(value) =>
      if q.len == q.Capacity() then (q, Pushed(false)) else (UncheckedPush(q, value), Pushed(true))
    case PushWithOverflow(value) =>
      if q.len == q.Capacity() then (UncheckedPush(Remove(q), value), Popped(q.cells[OldestCell(q)]))
      else (UncheckedPush(q, value), Popped(None))
    case Pop =>
      if q.len == 0 then (q, Popped(None)) else (Remove(q), Popped(q.cells[OldestCell(q)]))
  }

  /** The first-in-first-out queue that it is meant to be. */
  function Fifo<T>(c: seq<T>, capacity: nat, op: Op<T>): (r: (seq<T>, Output<T>))
    requires |c| <= capacity && capacity > 0
    ensures |r.0| <= capacity
  {
    match op
    case Push(value) =>
      if |c| == capacity then (c, Pushed(false)) else (c + [value], Pushed(true))
    case PushWithOverflow(value) =>
      if |c| == capacity then (c[1..] + [value], Popped(Some(c[0]))) else (c + [value], Popped(None))
    case Pop =>
      if c == [] then (c, Popped(None)) else (c[1..], Popped(Some(c[0])))
  }

  /** Along the run, the ring answers as the queue does. */
  ghost predicate Agrees<T>(q: Ring<T>, c: seq<T>, ops: seq<Op<T>>)
    requires q.IsWord() && |c| <= q.Capacity()
    decreases |ops|
  {
    ops != [] ==>
      && Step(q, ops[0]).1 == Fifo(c, q.Capacity(), ops[0]).1
      && Agrees(Step(q, ops[0]).0, Fifo(c, q.Capacity(), ops[0]).0, ops[1..])
  }

  // ----------------------------------------------------------------- the good case

  /** The cell of the `p`-th push ever. */
  function Cell(p: nat, capacity: nat): (c: nat)
    requires capacity > 0
    ensures c < capacity
  {
    p % WORD % capacity
  }

  /** `pushes` elements were pushed so far, and the last of them are the contents. */
  ghost predicate Holds<T>(q: Ring<T>, pushes: nat, c: seq<T>) {
    && q.IsWord()
    && |c| == q.len <= pushes
    && q.start == pushes % WORD
    && (forall p {:trigger Cell(p, q.Capacity())} :: pushes - q.len <= p < pushes ==>
          q.cells[Cell(p, q.Capacity())] == Some(c[p - (pushes - q.len)]))
  }

  /** The next push keeps to the cell that an unbounded counter would choose. */
  predicate NoHarmfulWrap(pushes: nat, capacity: nat)
    requires capacity > 0
  {
    pushes < WORD || WORD % capacity == 0
  }

  lemma CellsDiffer(p: nat, q: nat, capacity: nat)
    requires capacity > 0 && p < q < p + capacity && NoHarmfulWrap(q, capacity)
    ensures Cell(p, capacity) != Cell(q, capacity)
  {
    ResiduesDiffer(p, q, capacity);
    if WORD % capacity == 0 {
      ModOfMod(p, WORD, capacity);
      ModOfMod(q, WORD, capacity);
    }
  }

  lemma OldestCellIs<T>(q: Ring<T>, pushes: nat, c: seq<T>)
    requires Holds(q, pushes, c)
    ensures OldestCell(q) == Cell(pushes - q.len, q.Capacity())
  {
    var quotient := pushes / WORD;
    assert pushes == quotient * WORD + q.start;
    assert (q.start + WORD - q.len) % WORD == (pushes - q.len) % WORD;
  }

  lemma WrappingIncrement(pushes: nat)
    ensures (pushes % WORD + 1) % WORD == (pushes + 1) % WORD
  {
  }

  lemma PushHolds<T>(q: Ring<T>, pushes: nat, c: seq<T>, value: T)
    requires Holds(q, pushes, c) && q.len < q.Capacity() && NoHarmfulWrap(pushes, q.Capacity())
    ensures Holds(UncheckedPush(q, value), pushes + 1, c + [value])
  {
    var n, cell := q.Capacity(), Cell(pushes, q.Capacity());
    var r := UncheckedPush(q, value);
    WrappingIncrement(pushes);
    assert r == Ring(q.cells[cell := Some(value)], (pushes + 1) % WORD, q.len + 1);
    forall p | pushes - q.len <= p < pushes + 1
      ensures r.cells[Cell(p, n)] == Some((c + [value])[p - (pushes - q.len)])
    {
      if p < pushes {
        CellsDiffer(p, pushes, n);
      }
    }
  }

  lemma RemoveHolds<T>(q: Ring<T>, pushes: nat, c: seq<T>)
    requires Holds(q, pushes, c) && q.len > 0 && NoHarmfulWrap(pushes - 1, q.Capacity())
    ensures q.cells[OldestCell(q)] == Some(c[0]) && Holds(Remove(q), pushes, c[1..])
  {
    var n, oldest := q.Capacity(), pushes - q.len;
    OldestCellIs(q, pushes, c);
    var r := Remove(q);
    assert r == Ring(q.cells[Cell(oldest, n) := None], q.start, q.len - 1);
    forall p | oldest < p < pushes ensures r.cells[Cell(p, n)] == Some(c[1..][p - (oldest + 1)]) {
      CellsDiffer(oldest, p, n);
    }
  }

  /**
   * First in, first out over every run, across any number of wrap-arounds when the capacity
   * divides 2^64, and for every capacity as long as fewer than 2^64 elements were pushed.
   */
  lemma {:induction false} RunIsFifo<T>(q: Ring<T>, pushes: nat, c: seq<T>, ops: seq<Op<T>>)
    requires Holds(q, pushes, c)
    requires WORD % q.Capacity() == 0 || pushes + |ops| <= WORD
    ensures Agrees(q, c, ops)
    decreases |ops|
  {
    if ops != [] {
      var full := q.len == q.Capacity();
      match ops[0]
      case Push(value) =>
        if full {
          RunIsFifo(q, pushes, c, ops[1..]);
        } else {
          PushHolds(q, pushes, c, value);
          RunIsFifo(UncheckedPush(q, value), pushes + 1, c + [value], ops[1..]);
        }
      case PushWithOverflow(value) =>
        if full {
          RemoveHolds(q, pushes, c);
          PushHolds(Remove(q), pushes, c[1..], value);
          RunIsFifo(UncheckedPush(Remove(q), value), pushes + 1, c[1..] + [value], ops[1..]);
        } else {
          PushHolds(q, pushes, c, value);
          RunIsFifo(UncheckedPush(q, value), pushes + 1, c + [value], ops[1..]);
        }
      case Pop =>
        if q.len == 0 {
          RunIsFifo(q, pushes, c, ops[1..]);
        } else {
          RemoveHolds(q, pushes, c);
          RunIsFifo(Remove(q), pushes, c[1..], ops[1..]);
        }
    }
  }

  // ------------------------------------------------------------------ the bad case

  function Vacant(capacity: nat, start: nat): Ring<nat> {
    Ring(seq(capacity, _ => None), start, 0)
  }

  /** A disagreement later in the run is one of the whole run. */
  lemma AgreesStep<T>(q: Ring<T>, c: seq<T>, op: Op<T>, rest: seq<Op<T>>)
    requires q.IsWord() && |c| <= q.Capacity()
    ensures Agrees(q, c, [op] + rest) ==> Agrees(Step(q, op).0, Fifo(c, q.Capacity(), op).0, rest)
  {
    assert ([op] + rest)[1..] == rest;
  }

  lemma PairMovesStart(capacity: nat, start: nat)
    requires 0 < capacity < WORD && start + 1 < WORD
    ensures Step(Step(Vacant(capacity, start), Push(0)).0, Pop).0 == Vacant(capacity, start + 1)
  {
    var q := Vacant(capacity, start);
    var cell := start % capacity;
    var pushed := Step(q, Push(0)).0;
    assert pushed == Ring(q.cells[cell := Some(0)], start + 1, 1);
    assert OldestCell(pushed) == cell by {
      assert (start + 1 + WORD - 1) % WORD == start;
    }
    assert q.cells[cell := Some(0)][cell := None] == q.cells;
  }

  /** Pushing and popping one element `n` times only moves `start`. */
  lemma {:induction false} PairsMoveStart(capacity: nat, start: nat, n: nat, rest: seq<Op<nat>>) returns (ops: seq<Op<nat>>)
    requires 0 < capacity < WORD && start + n < WORD && !Agrees(Vacant(capacity, start + n), [], rest)
    ensures !Agrees(Vacant(capacity, start), [], ops)
    decreases n
  {
    if n == 0 {
      return rest;
    }
    var tail := PairsMoveStart(capacity, start + 1, n - 1, rest);
    var q := Vacant(capacity, start);
    PairMovesStart(capacity, start);
    AgreesStep(Step(q, Push(0)).0, [0], Pop, tail);
    AgreesStep(q, [], Push(0), [Pop] + tail);
    assert Fifo([0], capacity, Pop).0 == [];
    assert Fifo([], capacity, Push(0)).0 == [0];
    ops := [Push(0)] + ([Pop] + tail);
  }

  /**
   * The oldest element 0 lies in cell 0 at position `WORD - r`, where `r` is the number of
   * positions between the last full lap and the wrap-around. Enough pushes of 1 reach cell 0 again.
   */
  ghost predicate BeforeOverwrite(q: Ring<nat>, c: seq<nat>, r: nat) {
    && q.IsWord() && r == WORD % q.Capacity() && 1 <= q.len <= r
    && |c| == q.len && c[0] == 0 && q.cells[0] == Some(0)
    && q.start == if q.len < r then WORD - r + q.len else 0
  }

  lemma PushComesCloser(q: Ring<nat>, c: seq<nat>, r: nat)
    requires BeforeOverwrite(q, c, r) && q.len < r
    ensures BeforeOverwrite(UncheckedPush(q, 1), c + [1], r)
  {
    LastLap(q.Capacity(), q.len);
    assert q.start % q.Capacity() == q.len;
  }

  lemma PushHitsOldest(q: Ring<nat>, c: seq<nat>, r: nat)
    requires BeforeOverwrite(q, c, r) && q.len == r
    ensures !Agrees(UncheckedPush(q, 1), c + [1], [Pop])
  {
    var after := UncheckedPush(q, 1);
    LastLap(q.Capacity(), 0);
    assert after.cells[0] == Some(1) && after.start == 1 && after.len == r + 1;
    assert OldestCell(after) == 0 by {
      assert (1 + WORD - (r + 1)) % WORD == WORD - r;
    }
    assert Step(after, Pop).1 == Popped(Some(1));
    assert Fifo(c + [1], q.Capacity(), Pop).1 == Popped(Some(0)) by {
      assert (c + [1])[0] == c[0];
    }
  }

  lemma {:induction false} PushesOverwrite(q: Ring<nat>, c: seq<nat>, r: nat) returns (ops: seq<Op<nat>>)
    requires BeforeOverwrite(q, c, r)
    ensures !Agrees(q, c, ops)
    decreases r - q.len
  {
    var rest;
    if q.len < r {
      PushComesCloser(q, c, r);
      rest := PushesOverwrite(UncheckedPush(q, 1), c + [1], r);
    } else {
      PushHitsOldest(q, c, r);
      rest := [Pop];
    }
    AgreesStep(q, c, Push(1), rest);
    ops := [Push(1)] + rest;
  }

  lemma LastLap(capacity: nat, k: nat)
    requires 0 < capacity < WORD && k < WORD % capacity
    ensures 0 < WORD - WORD % capacity && (WORD - WORD % capacity + k) % capacity == k
  {
    DivModEquation(WORD, capacity);
    DivModUnique(WORD - WORD % capacity + k, capacity, WORD / capacity, k);
  }

  /** The queue answers first in, first out, however long it is used. */
  ghost predicate AlwaysFifo(capacity: nat)
    requires 0 < capacity < WORD
  {
    forall ops :: Agrees(New<nat>(capacity), [], ops)
  }

  lemma DividingIsFifo(capacity: nat)
    requires 0 < capacity < WORD && WORD % capacity == 0
    ensures AlwaysFifo(capacity)
  {
    forall ops ensures Agrees(New<nat>(capacity), [], ops) {
      RunIsFifo(New<nat>(capacity), 0, [], ops);
    }
  }

  /** From an empty ring whose next push starts the last lap. */
  lemma LastLapFails(capacity: nat) returns (start: nat, ops: seq<Op<nat>>)
    requires 0 < capacity < WORD && WORD % capacity != 0
    ensures start < WORD && !Agrees(Vacant(capacity, start), [], ops)
  {
    var r := WORD % capacity;
    LastLap(capacity, 0);
    start := WORD - r;
    var q := Vacant(capacity, start);
    var rest := PushesOverwrite(UncheckedPush(q, 0), [0], r);
    AgreesStep(q, [], Push(0), rest);
    assert Fifo([], capacity, Push(0)).0 == [0];
    ops := [Push(0)] + rest;
  }

  lemma NotDividingFails(capacity: nat) returns (ops: seq<Op<nat>>)
    requires 0 < capacity < WORD && WORD % capacity != 0
    ensures !Agrees(New<nat>(capacity), [], ops)
  {
    var start, last := LastLapFails(capacity);
    ops := PairsMoveStart(capacity, 0, start, last);
    assert New<nat>(capacity) == Vacant(capacity, 0);
  }

  /** That is so exactly for the capacities that divide 2^64. */
  lemma FifoForEverIff(capacity: nat)
    requires 0 < capacity < WORD
    ensures AlwaysFifo(capacity) <==> WORD % capacity == 0
  {
    if WORD % capacity == 0 {
      DividingIsFifo(capacity);
    } else {
      var ops := NotDividingFails(capacity);
    }
  }

  /** With three cells, two pushes around the wrap-around share a cell: the older element is lost. */
  lemma CapacityThreeLosesElement(a: nat, b: nat)
    ensures !AlwaysFifo(3)
    ensures var q := UncheckedPush(UncheckedPush(Vacant(3, WORD - 1), a), b);
            q.len == 2 && Step(q, Pop).1 == Popped(Some(b)) && Step(Step(q, Pop).0, Pop).1 == Popped(None)
  {
    FifoForEverIff(3);
  }
}

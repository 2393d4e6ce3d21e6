/** Whole runs of the slot map operations, from the empty map on. */
module SlotMapRuns {
  import opened Prelude
  import opened SlotMapState
  import opened SlotMapFreeList

  datatype Op<T> = Insert(value: T) | InsertAt(key: nat, value: T) | Remove(key: nat)

  /** Keys equal to the capacity are out of bounds in the source; larger ones are refused. */
  predicate InBounds<T>(op: Op<T>, capacity: nat) {
    op.Insert? || op.key != capacity
  }

  function Apply<T>(s: Slots<T>, op: Op<T>): (t: Slots<T>)
    requires IndexInv(s) && InBounds(op, s.Capacity())
    ensures IndexInv(t) && t.Capacity() == s.Capacity()
  {
    match op
    case Insert(value) =>
      InsertRefinesUpdate(s, value);
      SlotMapState.Insert(s, value).0
    case InsertAt(key, value) =>
      InsertAtRefinesUpdate(s, key, value);
      SlotMapState.InsertAt(s, key, value).0
    case Remove(key) =>
      RemoveRefinesDeletion(s, key);
      SlotMapState.Remove(s, key).0
  }

  ghost predicate AllInBounds<T>(capacity: nat, ops: seq<Op<T>>) {
    1 <= capacity <= INVALID && forall i :: 0 <= i < |ops| ==> InBounds(ops[i], capacity)
  }

  /**
   * The state after a run. Its contract is the index invariant over every run
   * of in-bounds operations, whichever keys they name.
   */
  function Run<T>(capacity: nat, ops: seq<Op<T>>): (s: Slots<T>)
    requires AllInBounds(capacity, ops)
    ensures IndexInv(s) && s.Capacity() == capacity
  {
    if ops == [] then
      InitEstablishesIndexInv<T>(capacity);
      Init(capacity)
    else
      Apply(Run(capacity, ops[..|ops| - 1]), ops[|ops| - 1])
  }

  /** What the caller is told: the key of an `insert`, or whether the operation was done. */
  datatype Answer = Key(key: Option<nat>) | Done(done: bool)

  function Answered<T>(s: Slots<T>, op: Op<T>): Answer
    requires IndexInv(s) && InBounds(op, s.Capacity())
  {
    match op
    case Insert(value) => Key(SlotMapState.Insert(s, value).1)
    case InsertAt(key, value) => Done(SlotMapState.InsertAt(s, key, value).1)
    case Remove(key) => Done(SlotMapState.Remove(s, key).1)
  }

  /** What one operation and its answer say about the map, without any list invariant. */
  ghost predicate MapStep<T>(capacity: nat, m: map<nat, T>, op: Op<T>, answer: Answer, m': map<nat, T>) {
    match op
    case Insert(value) =>
      && answer.Key?
      && (answer.key.None? ==> m' == m)
      && (answer.key.Some? ==> answer.key.value < capacity && m' == m[answer.key.value := value])
    case InsertAt(key, value) =>
      answer == Done(key < capacity) && m' == if key < capacity then m[key := value] else m
    case Remove(key) =>
      answer == Done(key in m) && m' == m - {key}
  }

  /** With the list intact, `insert` moreover is refused exactly when full and never overwrites. */
  ghost predicate FreshMapStep<T>(capacity: nat, m: map<nat, T>, op: Op<T>, answer: Answer, m': map<nat, T>) {
    && MapStep(capacity, m, op, answer, m')
    && (op.Insert? ==>
          && (answer.key.None? <==> |m| == capacity)
          && (answer.key.Some? ==> answer.key.value !in m))
  }

  /** Every step of every in-bounds run acts on the stored map as its operation and its answer say. */
  lemma RunRefinesMap<T>(capacity: nat, ops: seq<Op<T>>, op: Op<T>)
    requires AllInBounds(capacity, ops) && InBounds(op, capacity)
    ensures AllInBounds(capacity, ops + [op])
    ensures var s := Run(capacity, ops);
            MapStep(capacity, Model(s), op, Answered(s, op), Model(Run(capacity, ops + [op])))
  {
    assert (ops + [op])[..|ops|] == ops;
    StepRefinesMap(Run(capacity, ops), op);
  }

  lemma StepRefinesMap<T>(s: Slots<T>, op: Op<T>)
    requires IndexInv(s) && InBounds(op, s.Capacity())
    ensures MapStep(s.Capacity(), Model(s), op, Answered(s, op), Model(Apply(s, op)))
  {
    match op
    case Insert(value) => InsertRefinesUpdate(s, value);
    case InsertAt(key, value) => InsertAtRefinesUpdate(s, key, value);
    case Remove(key) => RemoveRefinesDeletion(s, key);
  }

  predicate Safe<T>(s: Slots<T>, op: Op<T>) {
    op.InsertAt? && op.key < |s.links| ==> ClaimIsSafe(s, op.key)
  }

  /** Each operation is safe in the state it is applied to. */
  ghost predicate SafeRun<T>(capacity: nat, ops: seq<Op<T>>)
    requires AllInBounds(capacity, ops)
  {
    ops != [] ==>
      var front := ops[..|ops| - 1];
      SafeRun(capacity, front) && Safe(Run(capacity, front), ops[|ops| - 1])
  }

  lemma SafeStepKeepsList<T>(s: Slots<T>, op: Op<T>)
    requires HasListInv(s) && InBounds(op, s.Capacity()) && Safe(s, op)
    ensures HasListInv(Apply(s, op))
  {
    match op {
      case Insert(value) =>
        InsertKeepsList(s, value);
      case InsertAt(key, value) =>
        if key < s.Capacity() {
          var l :| ListInv(s, l);
          InsertAtKeepsListIff(s, l, key, value);
        }
      case Remove(key) =>
        if key < s.Capacity() { RemoveKeepsList(s, key); }
    }
  }

  /** Over every run whose `insert_at` keys are safe, the free list enumerates the unused keys. */
  lemma {:induction false} SafeRunKeepsList<T>(capacity: nat, ops: seq<Op<T>>)
    requires AllInBounds(capacity, ops) && SafeRun(capacity, ops)
    ensures HasListInv(Run(capacity, ops))
  {
    if ops == [] {
      InitEstablishesListInv<T>(capacity);
    } else {
      var front := ops[..|ops| - 1];
      SafeRunKeepsList(capacity, front);
      SafeStepKeepsList(Run(capacity, front), ops[|ops| - 1]);
    }
  }

  /** So the last `insert` of such a run extends the map by a fresh key, unless the map was full. */
  lemma SafeRunRefinesFreshMap<T>(capacity: nat, ops: seq<Op<T>>, op: Op<T>)
    requires AllInBounds(capacity, ops) && InBounds(op, capacity) && SafeRun(capacity, ops)
    ensures AllInBounds(capacity, ops + [op])
    ensures var s := Run(capacity, ops);
            FreshMapStep(capacity, Model(s), op, Answered(s, op), Model(Run(capacity, ops + [op])))
  {
    SafeRunKeepsList(capacity, ops);
    RunRefinesMap(capacity, ops, op);
    if op.Insert? {
      InsertExtendsMap(Run(capacity, ops), op.value);
    }
  }

  lemma InsertExtendsMap<T>(s: Slots<T>, value: T)
    requires HasListInv(s)
    ensures var op := Op.Insert(value); FreshMapStep(s.Capacity(), Model(s), op, Answered(s, op), Model(Apply(s, op)))
  {
    InsertKeepsList(s, value);
    StepRefinesMap(s, Op.Insert(value));
  }

  /**
   * Claiming the list head: the next `insert` then returns a key that is in use
   * and overwrites its value, although the map may be full.
   */
  lemma HeadClaimBreaksInsert<T>(capacity: nat, a: T, b: T)
    requires 1 <= capacity <= INVALID
    ensures var s := Run(capacity, [InsertAt(0, a)]);
            && s.head in Model(s)
            && SlotMapState.Insert(s, b).1 == Some(s.head)
            && Model(SlotMapState.Insert(s, b).0) == Model(s)[0 := b]
            && SlotMapState.Insert(s, b).0.len == s.len
  {
    var ops: seq<Op<T>> := [InsertAt(0, a)];
    assert ops[..0] == [];
    assert Run(capacity, ops[..0]) == Init<T>(capacity);
    InitEstablishesIndexInv<T>(capacity);
    var s := Run(capacity, ops);
    InsertAtRefinesUpdate(Init<T>(capacity), 0, a);
    assert s.head == 0;
    InsertRefinesUpdate(s, b);
    assert Model(s).Keys == Model(s)[0 := b].Keys;
  }

  /**
   * After three inserts and two removes the list is 2, 1, 3 while the entry of key 0,
   * which is in use, still names key 1 as its successor.
   */
  lemma StaleState<T(!new)>(a: T) returns (s: Slots<T>)
    ensures Reachable(4, s) && HasListInv(s) && s.Capacity() == 4 && s.Used(0) && |s.links| == 4
    ensures !ClaimIsSafe(s, 0)
  {
    s := OneRemove(a);
    assert [2] + [1, 3] == [2, 1, 3];
    s := RemoveStep(4, s, [1, 3], 2);
    StaleNextIsUnsafe(s, [2, 1, 3], 0, 1);
  }

  lemma OneRemove<T(!new)>(a: T) returns (t: Slots<T>)
    ensures Reachable(4, t) && ListInv(t, [1, 3]) && t.Capacity() == 4 && t.Used(0) && t.Used(2) && t.links[0].next == 1
  {
    t := ThreeInserts(a);
    t := RemoveStep(4, t, [3], 1);
    assert [1] + [3] == [1, 3];
  }

  lemma ThreeInserts<T(!new)>(a: T) returns (t: Slots<T>)
    ensures Reachable(4, t) && ListInv(t, [3]) && t.Capacity() == 4
    ensures t.Used(0) && t.Used(1) && t.Used(2) && t.links[0].next == 1
  {
    InitEstablishesListInv<T>(4);
    assert seq(4, n => n) == [0, 1, 2, 3];
    assert ReachedBy<T>(4, [], Init(4));
    assert Reachable<T>(4, Init(4));
    var s1 := InsertStep(4, Init(4), [0, 1, 2, 3], a);
    assert [0, 1, 2, 3][1..] == [1, 2, 3] && [1, 2, 3][1..] == [2, 3] && [2, 3][1..] == [3];
    var s2 := InsertStep(4, s1, [1, 2, 3], a);
    t := InsertStep(4, s2, [2, 3], a);
  }

  /** `s` is the state after some safe run. */
  ghost predicate Reachable<T(!new)>(capacity: nat, s: Slots<T>) {
    exists ops :: ReachedBy(capacity, ops, s)
  }

  ghost predicate ReachedBy<T>(capacity: nat, ops: seq<Op<T>>, s: Slots<T>) {
    AllInBounds(capacity, ops) && SafeRun(capacity, ops) && Run(capacity, ops) == s
  }

  lemma ReachableExtends<T(!new)>(capacity: nat, s: Slots<T>, op: Op<T>)
    requires Reachable(capacity, s) && InBounds(op, capacity) && Safe(s, op)
    ensures IndexInv(s) && s.Capacity() == capacity && Reachable(capacity, Apply(s, op))
  {
    var ops :| ReachedBy(capacity, ops, s);
    SafeRunExtends(capacity, ops, op);
    assert ReachedBy(capacity, ops + [op], Apply(s, op));
  }

  lemma SafeRunExtends<T>(capacity: nat, ops: seq<Op<T>>, op: Op<T>)
    requires AllInBounds(capacity, ops) && SafeRun(capacity, ops)
    requires InBounds(op, capacity) && Safe(Run(capacity, ops), op)
    ensures AllInBounds(capacity, ops + [op]) && SafeRun(capacity, ops + [op])
    ensures Run(capacity, ops + [op]) == Apply(Run(capacity, ops), op)
  {
    var all := ops + [op];
    assert all[..|all| - 1] == ops;
  }

  /** An `insert` into a reachable map whose free list is known. */
  lemma InsertStep<T(!new)>(capacity: nat, s: Slots<T>, l: seq<nat>, value: T) returns (t: Slots<T>)
    requires Reachable(capacity, s) && ListInv(s, l) && l != []
    ensures Reachable(capacity, t) && ListInv(t, l[1..]) && t.Capacity() == s.Capacity()
    ensures t.Used(l[0]) && t.links[l[0]].next == At(l, 1)
    ensures forall k :: 0 <= k < s.Capacity() && k != l[0] ==> t.links[k].next == s.links[k].next && t.Used(k) == s.Used(k)
  {
    ReachableExtends(capacity, s, Insert(value));
    t := SlotMapState.Insert(s, value).0;
    InsertUsesFreshKey(s, l, value);
    ListLength(s, l);
    assert s.links[l[0]].next == At(l, 1);
    InsertEffect(s, value);
  }

  /** A `remove` of a used key from a reachable map whose free list is known. */
  lemma RemoveStep<T(!new)>(capacity: nat, s: Slots<T>, l: seq<nat>, key: nat) returns (t: Slots<T>)
    requires Reachable(capacity, s) && ListInv(s, l) && s.Used(key) && key != capacity
    ensures Reachable(capacity, t) && ListInv(t, [key] + l) && t.Capacity() == s.Capacity()
    ensures forall k :: 0 <= k < s.Capacity() && k != key ==> t.links[k].next == s.links[k].next && t.Used(k) == s.Used(k)
  {
    ReachableExtends(capacity, s, Remove(key));
    t := SlotMapState.Remove(s, key).0;
    RemoveReturnsKey(s, l, key);
    RemoveEffect(s, key);
  }
}

/**
 * The lock-free index set of iceoryx2-bb/lock-free/src/mpmc/unique_index_set.rs,
 * as interleaved steps of any number of threads.
 *
 * The free indices form a singly linked list through `next`. The head word holds
 * the first free index, a 16-bit tag and the number of borrowed indices, and is
 * only changed by compare-and-swap. Here the tag is kept unbounded as `version`;
 * an exchange compares it modulo 2^16 as the source does. Reading and writing a
 * list cell are separate, unprotected steps. A release may ask to lock the set when
 * it returns the last borrowed index; the lock is a reserved number of borrowed indices.
 */
module UniqueIndexSet {
  import opened Prelude

  type ThreadId = nat

  const TAGS: nat := 0x1_0000

  /** `LOCK_ACQUIRE`, the largest value of the 24-bit field; capacities are below it. */
  const LOCK: nat := 0xff_ffff

  datatype Head = Head(index: nat, version: nat, borrowed: nat) {
    predicate Locked() { borrowed == LOCK }

    /** `borrowed_indices()`. */
    function Count(): nat { if Locked() then 0 else borrowed }
  }

  /** The word comparison of the exchange. */
  predicate SameWord(a: Head, b: Head) {
    a.index == b.index && a.version % TAGS == b.version % TAGS && a.borrowed == b.borrowed
  }

  datatype Phase =
    | Acquiring(seen: Head)                    // loaded the head
    | Following(seen: Head, successor: nat)    // also read the head's cell
    | Poisoning(index: nat)                    // owns the index, cell not yet overwritten
    | Releasing(index: nat, seen: Head, lockIfLast: bool)   // loaded the head
    | Linked(index: nat, seen: Head, lockIfLast: bool)      // also wrote the seen head into the cell
  {
    predicate Owns() { Poisoning? || Releasing? || Linked? }
  }

  datatype IndexSet = IndexSet(
    next: seq<nat>,                   // capacity + 1 cells
    head: Head,
    threads: map<ThreadId, Phase>,
    held: set<nat>)                   // indices in the hands of callers
  {
    function Capacity(): int { |next| - 1 }
  }

  datatype Event =
    | StartAcquire(thread: ThreadId)
    | ReadCell(thread: ThreadId)
    | ExchangeAcquire(thread: ThreadId)
    | Poison(thread: ThreadId)
    | StartRelease(thread: ThreadId, released: nat, lockIfLast: bool)
    | WriteCell(thread: ThreadId)
    | ExchangeRelease(thread: ThreadId)

  datatype Outcome =
    | Continues
    | OutOfIndices
    | IsLocked
    | Acquired(index: nat)
    | Released(index: nat, locked: bool)

  function Create(capacity: nat): IndexSet
    requires capacity < LOCK
  {
    IndexSet(seq(capacity + 1, i => i + 1), Head(0, 0, 0), map[], {})
  }

  predicate Enabled(s: IndexSet, e: Event) {
    match e
    case StartAcquire(t) => t !in s.threads
    case ReadCell(t) => t in s.threads && s.threads[t].Acquiring? && s.threads[t].seen.index < |s.next|
    case ExchangeAcquire(t) => t in s.threads && s.threads[t].Following?
    case Poison(t) => t in s.threads && s.threads[t].Poisoning? && s.threads[t].index < |s.next|
    case StartRelease(t, index, _) => t !in s.threads && index in s.held
    case WriteCell(t) => t in s.threads && s.threads[t].Releasing? && s.threads[t].index < |s.next|
    case ExchangeRelease(t) => t in s.threads && s.threads[t].Linked? && s.head.borrowed > 0
  }

  /** An acquiring thread that has just seen the head gives up when the list is empty or locked. */
  function AfterLoad(s: IndexSet, t: ThreadId): (IndexSet, Outcome) {
    if s.head.index >= s.Capacity() then (s.(threads := s.threads - {t}), OutOfIndices)
    else if s.head.Locked() then (s.(threads := s.threads - {t}), IsLocked)
    else (s.(threads := s.threads[t := Acquiring(s.head)]), Continues)
  }

  function Step(s: IndexSet, e: Event): (IndexSet, Outcome)
    requires Enabled(s, e)
  {
    match e
    case StartAcquire(t) =>
      AfterLoad(s, t)
    case ReadCell(t) =>
      var seen := s.threads[t].seen;
      (s.(threads := s.threads[t := Following(seen, s.next[seen.index])]), Continues)
    case ExchangeAcquire(t) =>
      var p := s.threads[t];
      if SameWord(s.head, p.seen) then
        (s.(head := Head(p.successor, s.head.version + 1, s.head.borrowed + 1),
            threads := s.threads[t := Poisoning(p.seen.index)]), Continues)
      else
        AfterLoad(s, t)
    case Poison(t) =>
      var index := s.threads[t].index;
      (s.(next := s.next[index := |s.next|], threads := s.threads - {t}, held := s.held + {index}), Acquired(index))
    case StartRelease(t, index, lockIfLast) =>
      (s.(threads := s.threads[t := Releasing(index, s.head, lockIfLast)], held := s.held - {index}), Continues)
    case WriteCell(t) =>
      var p := s.threads[t];
      (s.(next := s.next[p.index := p.seen.index],
          threads := s.threads[t := Linked(p.index, p.seen, p.lockIfLast)]), Continues)
    case ExchangeRelease(t) =>
      var p := s.threads[t];
      if SameWord(s.head, p.seen) then
        var locked := p.lockIfLast && p.seen.borrowed == 1;
        (s.(head := Head(p.index, s.head.version + 1, if locked then LOCK else s.head.borrowed - 1),
            threads := s.threads - {t}), Released(p.index, locked))
      else
        (s.(threads := s.threads[t := Releasing(p.index, s.head, p.lockIfLast)]), Continues)
  }

  // ------------------------------------------------------------------ invariant

  function Cell(l: seq<nat>, i: nat, capacity: nat): nat {
    if i < |l| then l[i] else capacity
  }

  /** Following the cells from the head visits exactly `l`. */
  ghost predicate IsList(next: seq<nat>, first: nat, l: seq<nat>) {
    && |next| > 0
    && Distinct(l)
    && first == Cell(l, 0, |next| - 1)
    && (forall i :: 0 <= i < |l| ==> l[i] < |next| - 1)
    && (forall i {:trigger next[l[i]]} :: 0 <= i < |l| ==> next[l[i]] == Cell(l, i + 1, |next| - 1))
  }

  /** Listed, held and thread-owned indices are all different. */
  ghost predicate OwnershipIsExclusive(s: IndexSet, l: seq<nat>) {
    && (forall i :: i in s.held ==> i < s.Capacity() && i !in l)
    && (forall t :: t in s.threads && s.threads[t].Owns() ==>
          s.threads[t].index < s.Capacity() && s.threads[t].index !in l && s.threads[t].index !in s.held)
    && (forall t, u :: t in s.threads && u in s.threads && t != u && s.threads[t].Owns() && s.threads[u].Owns() ==>
          s.threads[t].index != s.threads[u].index)
  }

  /** What a thread has seen is what is there, as long as nobody exchanged the head since. */
  ghost predicate ViewIsCurrent(s: IndexSet, phase: Phase) {
    match phase
    case Acquiring(seen) => seen.index < s.Capacity() && !seen.Locked() && Recent(s, seen)
    case Following(seen, successor) =>
      && seen.index < s.Capacity() && !seen.Locked() && Recent(s, seen)
      && (seen.version == s.head.version ==> successor == s.next[seen.index])
    case Poisoning(_) => true
    case Releasing(_, seen, _) => Recent(s, seen)
    case Linked(index, seen, _) => Recent(s, seen) && index < |s.next| && s.next[index] == seen.index
  }

  ghost predicate ViewsAreCurrent(s: IndexSet) {
    forall t :: t in s.threads ==> ViewIsCurrent(s, s.threads[t])
  }

  ghost predicate Recent(s: IndexSet, seen: Head) {
    seen.version <= s.head.version && (seen.version == s.head.version ==> seen == s.head)
  }

  /** No index is lost: each is listed, held, or owned by a thread. */
  ghost predicate NothingIsLost(s: IndexSet, l: seq<nat>) {
    forall i :: 0 <= i < s.Capacity() ==> i in l || i in s.held || OwnedByThread(s, i)
  }

  ghost predicate OwnedByThread(s: IndexSet, i: nat) {
    exists t :: t in s.threads && s.threads[t].Owns() && s.threads[t].index == i
  }

  ghost predicate ListInv(s: IndexSet, l: seq<nat>) {
    && IsList(s.next, s.head.index, l)
    && |l| + s.head.Count() == s.Capacity() < LOCK
    && (s.head.Locked() ==> l != [])
    && OwnershipIsExclusive(s, l)
    && ViewsAreCurrent(s)
    && NothingIsLost(s, l)
  }

  ghost predicate Inv(s: IndexSet) {
    exists l :: ListInv(s, l)
  }

  /** At most 2^16 - 1 exchanges succeeded since the thread saw the head. */
  predicate WithinTagWindow(s: IndexSet, e: Event) {
    e.ExchangeAcquire? && e.thread in s.threads && s.threads[e.thread].Following? ==>
      s.head.version < s.threads[e.thread].seen.version + TAGS
  }

  lemma CreateEstablishesInv(capacity: nat)
    requires capacity < LOCK
    ensures ListInv(Create(capacity), seq(capacity, i => i))
  {
    var s, l := Create(capacity), seq(capacity, i => i);
    forall i | 0 <= i < capacity ensures i in l {
      assert l[i] == i;
    }
  }

  // ----------------------------------------------------------------------- steps

  /** Within the window an equal word means an equal head: nobody exchanged it in between. */
  lemma EqualWordIsEqualHead(s: IndexSet, seen: Head)
    requires Recent(s, seen) && s.head.version < seen.version + TAGS && SameWord(s.head, seen)
    ensures s.head == seen
  {
  }

  lemma TailIsList(next: seq<nat>, first: nat, l: seq<nat>)
    requires IsList(next, first, l) && l != []
    ensures IsList(next, next[l[0]], l[1..])
  {
    var m := l[1..];
    assert next[l[0]] == Cell(l, 1, |next| - 1);
    forall i | 0 <= i < |m| ensures next[m[i]] == Cell(m, i + 1, |next| - 1) {
      assert m[i] == l[i + 1];
    }
  }

  lemma LongerIsList(next: seq<nat>, first: nat, l: seq<nat>, index: nat)
    requires IsList(next, first, l) && index < |next| - 1 && index !in l && next[index] == first
    ensures IsList(next, index, [index] + l)
  {
    var m := [index] + l;
    forall i | 0 <= i < |m| ensures next[m[i]] == Cell(m, i + 1, |next| - 1) {
      if i > 0 {
        assert m[i] == l[i - 1];
      }
    }
  }

  /** A successful acquire takes the first index off the list. */
  lemma AcquireTakesFirst(s: IndexSet, l: seq<nat>, t: ThreadId)
    requires ListInv(s, l) && Enabled(s, ExchangeAcquire(t)) && SameWord(s.head, s.threads[t].seen)
    requires s.head.index < s.Capacity() && s.threads[t].successor == s.next[s.head.index]
    ensures l != [] && s.threads[t].seen.index == l[0]
    ensures ListInv(Step(s, ExchangeAcquire(t)).0, l[1..])
  {
    TailIsList(s.next, s.head.index, l);
    var r, m := Step(s, ExchangeAcquire(t)).0, l[1..];
    assert forall i :: i in m ==> i in l;
    forall u | u in r.threads && u != t ensures ViewIsCurrent(r, r.threads[u]) {
      assert ViewIsCurrent(s, s.threads[u]);
    }
    FirstIsNotLost(s, r, l, t);
  }

  /** The first index of the list passes to the thread. */
  lemma FirstIsNotLost(s: IndexSet, r: IndexSet, l: seq<nat>, t: ThreadId)
    requires NothingIsLost(s, l) && l != [] && |r.next| == |s.next| && r.held == s.held
    requires t in s.threads && !s.threads[t].Owns() && r.threads == s.threads[t := Poisoning(l[0])]
    ensures NothingIsLost(r, l[1..])
  {
    forall i | 0 <= i < s.Capacity() && i !in l[1..] && i !in r.held ensures OwnedByThread(r, i) {
      if i == l[0] {
        assert r.threads[t].Owns() && r.threads[t].index == i;
      } else {
        assert i !in l by {
          assert l == [l[0]] + l[1..];
        }
        var u :| u in s.threads && s.threads[u].Owns() && s.threads[u].index == i;
        assert r.threads[u] == s.threads[u];
      }
    }
  }

  /** A successful release puts the index in front of the list. */
  lemma ReleasePutsFirst(s: IndexSet, l: seq<nat>, t: ThreadId)
    requires ListInv(s, l) && Enabled(s, ExchangeRelease(t)) && SameWord(s.head, s.threads[t].seen)
    ensures ListInv(Step(s, ExchangeRelease(t)).0, [s.threads[t].index] + l)
  {
    var index := s.threads[t].index;
    var r, m := Step(s, ExchangeRelease(t)).0, [index] + l;
    assert ViewIsCurrent(s, s.threads[t]);
    LongerIsList(s.next, s.head.index, l, index);
    NotAllListed(l, s.Capacity(), index);
    assert forall i :: i in m <==> i == index || i in l;
    forall u | u in r.threads ensures ViewIsCurrent(r, r.threads[u]) {
      assert ViewIsCurrent(s, s.threads[u]);
    }
    forall i | 0 <= i < s.Capacity() ensures i in m || i in r.held || OwnedByThread(r, i) {
      if i == index {
        assert m[0] == i;
      } else if i in l {
        var j :| 0 <= j < |l| && l[j] == i;
        assert m[j + 1] == i;
      } else if OwnedByThread(s, i) {
        var u :| u in s.threads && s.threads[u].Owns() && s.threads[u].index == i;
        assert r.threads[u] == s.threads[u];
      }
    }
  }

  /** Steps of an acquiring thread, and failed exchanges, only change the thread's own view. */
  lemma LocalStepKeepsInv(s: IndexSet, l: seq<nat>, e: Event)
    requires ListInv(s, l) && Enabled(s, e)
    requires e.StartAcquire? || e.ReadCell? || e.ExchangeAcquire? || e.ExchangeRelease?
    requires e.ExchangeAcquire? || e.ExchangeRelease? ==> !SameWord(s.head, s.threads[e.thread].seen)
    ensures ListInv(Step(s, e).0, l)
  {
    var t := e.thread;
    assert t in s.threads ==> ViewIsCurrent(s, s.threads[t]);
    ViewChangeKeepsInv(s, l, Step(s, e).0, t);
  }

  lemma ViewChangeKeepsInv(s: IndexSet, l: seq<nat>, r: IndexSet, t: ThreadId)
    requires ListInv(s, l) && r == s.(threads := r.threads)
    requires forall u :: u != t ==> (u in r.threads <==> u in s.threads) && (u in s.threads ==> r.threads[u] == s.threads[u])
    requires t in r.threads ==> ViewIsCurrent(r, r.threads[t])
    requires (t in r.threads && r.threads[t].Owns()) <==> (t in s.threads && s.threads[t].Owns())
    requires t in r.threads && r.threads[t].Owns() ==> r.threads[t].index == s.threads[t].index
    ensures ListInv(r, l)
  {
    forall u | u in r.threads && u != t ensures ViewIsCurrent(r, r.threads[u]) {
      assert ViewIsCurrent(s, s.threads[u]);
    }
    KeepsNothingLost(s, r, l, t);
  }

  lemma KeepsNothingLost(s: IndexSet, r: IndexSet, l: seq<nat>, t: ThreadId)
    requires NothingIsLost(s, l) && |r.next| == |s.next| && s.held <= r.held
    requires forall u :: u != t && u in s.threads ==> u in r.threads && r.threads[u] == s.threads[u]
    requires t in s.threads && s.threads[t].Owns() ==>
               || s.threads[t].index in r.held
               || (t in r.threads && r.threads[t].Owns() && r.threads[t].index == s.threads[t].index)
    ensures NothingIsLost(r, l)
  {
    forall i | 0 <= i < s.Capacity() && i !in l && i !in r.held ensures OwnedByThread(r, i) {
      var u :| u in s.threads && s.threads[u].Owns() && s.threads[u].index == i;
      assert u in r.threads && r.threads[u].Owns() && r.threads[u].index == i;
    }
  }

  /** Writing the cell of an owned index touches neither the list nor a current view. */
  lemma WriteKeepsInv(s: IndexSet, l: seq<nat>, t: ThreadId, value: nat)
    requires ListInv(s, l) && t in s.threads && s.threads[t].Owns() && !s.threads[t].Linked?
    ensures ListInv(s.(next := s.next[s.threads[t].index := value]), l)
  {
    var index := s.threads[t].index;
    var r := s.(next := s.next[index := value]);
    forall u | u in s.threads ensures ViewIsCurrent(r, s.threads[u]) {
      assert ViewIsCurrent(s, s.threads[u]);
      if s.threads[u].Following? && s.threads[u].seen.version == s.head.version {
        assert l != [] && s.threads[u].seen.index == l[0];
      }
    }
    KeepsNothingLost(s, r, l, t);
  }

  lemma PoisonKeepsInv(s: IndexSet, l: seq<nat>, t: ThreadId)
    requires ListInv(s, l) && Enabled(s, Poison(t))
    ensures ListInv(Step(s, Poison(t)).0, l)
  {
    WriteKeepsInv(s, l, t, |s.next|);
    HandOverKeepsInv(s.(next := s.next[s.threads[t].index := |s.next|]), l, t);
  }

  /** An owned index passes from the thread to its caller. */
  lemma HandOverKeepsInv(s: IndexSet, l: seq<nat>, t: ThreadId)
    requires ListInv(s, l) && t in s.threads && s.threads[t].Owns()
    ensures ListInv(s.(threads := s.threads - {t}, held := s.held + {s.threads[t].index}), l)
  {
    var r := s.(threads := s.threads - {t}, held := s.held + {s.threads[t].index});
    forall u | u in r.threads ensures ViewIsCurrent(r, r.threads[u]) {
      assert ViewIsCurrent(s, s.threads[u]);
    }
    KeepsNothingLost(s, r, l, t);
  }

  lemma WriteCellKeepsInv(s: IndexSet, l: seq<nat>, t: ThreadId)
    requires ListInv(s, l) && Enabled(s, WriteCell(t))
    ensures ListInv(Step(s, WriteCell(t)).0, l)
  {
    WriteKeepsInv(s, l, t, s.threads[t].seen.index);
    assert ViewIsCurrent(s, s.threads[t]);
    ViewChangeKeepsInv(s.(next := s.next[s.threads[t].index := s.threads[t].seen.index]), l, Step(s, WriteCell(t)).0, t);
  }

  lemma StartReleaseKeepsInv(s: IndexSet, l: seq<nat>, e: Event)
    requires ListInv(s, l) && e.StartRelease? && Enabled(s, e)
    ensures ListInv(Step(s, e).0, l)
  {
    var r, t, index := Step(s, e).0, e.thread, e.released;
    forall u | u in r.threads && u != t ensures ViewIsCurrent(r, r.threads[u]) {
      assert ViewIsCurrent(s, s.threads[u]);
    }
    forall i | 0 <= i < s.Capacity() && i !in l && i !in r.held ensures OwnedByThread(r, i) {
      if i == index {
        assert r.threads[t].index == i;
      } else {
        var u :| u in s.threads && s.threads[u].Owns() && s.threads[u].index == i;
        assert r.threads[u] == s.threads[u];
      }
    }
  }

  lemma StepKeepsInv(s: IndexSet, e: Event)
    requires Inv(s) && Enabled(s, e) && WithinTagWindow(s, e)
    ensures Inv(Step(s, e).0) && |Step(s, e).0.next| == |s.next|
  {
    var l :| ListInv(s, l);
    match e {
      case Poison(t) => PoisonKeepsInv(s, l, t);
      case StartRelease(_, _, _) => StartReleaseKeepsInv(s, l, e);
      case WriteCell(t) => WriteCellKeepsInv(s, l, t);
      case ExchangeAcquire(t) =>
        assert ViewIsCurrent(s, s.threads[t]);
        if SameWord(s.head, s.threads[t].seen) {
          EqualWordIsEqualHead(s, s.threads[t].seen);
          AcquireTakesFirst(s, l, t);
        } else {
          LocalStepKeepsInv(s, l, e);
        }
      case ExchangeRelease(t) =>
        if SameWord(s.head, s.threads[t].seen) {
          ReleasePutsFirst(s, l, t);
        } else {
          LocalStepKeepsInv(s, l, e);
        }
      case _ => LocalStepKeepsInv(s, l, e);
    }
  }

  // ------------------------------------------------------------------------ runs

  /** Steps in an order that is possible and keeps every acquire within the tag window. */
  ghost predicate Possible(s: IndexSet, es: seq<Event>)
    decreases |es|
  {
    es != [] ==> Enabled(s, es[0]) && WithinTagWindow(s, es[0]) && Possible(Step(s, es[0]).0, es[1..])
  }

  function Run(s: IndexSet, es: seq<Event>): (r: IndexSet)
    requires Possible(s, es)
    decreases |es|
  {
    if es == [] then s else Run(Step(s, es[0]).0, es[1..])
  }

  /** The steps are possible one after the other, in or out of the tag window, and end in `r`. */
  ghost predicate Leads(s: IndexSet, es: seq<Event>, r: IndexSet)
    decreases |es|
  {
    if es == [] then s == r else Enabled(s, es[0]) && Leads(Step(s, es[0]).0, es[1..], r)
  }

  lemma {:induction false} RunKeepsInv(s: IndexSet, es: seq<Event>)
    requires Inv(s) && Possible(s, es)
    ensures Inv(Run(s, es)) && |Run(s, es).next| == |s.next|
    decreases |es|
  {
    if es != [] {
      StepKeepsInv(s, es[0]);
      RunKeepsInv(Step(s, es[0]).0, es[1..]);
    }
  }

  /** An acquire that ends with this step returns an index that nobody holds, hands out or returns. */
  ghost predicate HandsOutUnique(s: IndexSet, e: Event)
    requires Enabled(s, e)
  {
    Step(s, e).1.Acquired? ==>
      var index := Step(s, e).1.index;
      && index < s.Capacity() && index !in s.held
      && (forall t :: t in s.threads && t != e.thread && s.threads[t].Owns() ==> s.threads[t].index != index)
  }

  /**
   * For every interleaving: an index that is handed out was held by nobody and
   * by no thread that is about to hand it out or to return it.
   */
  lemma AcquiredIndexIsUnique(capacity: nat, es: seq<Event>, e: Event)
    requires capacity < LOCK && Possible(Create(capacity), es)
    requires Enabled(Run(Create(capacity), es), e) && Step(Run(Create(capacity), es), e).1.Acquired?
    ensures HandsOutUnique(Run(Create(capacity), es), e)
  {
    CreateEstablishesInv(capacity);
    RunKeepsInv(Create(capacity), es);
    var s := Run(Create(capacity), es);
    var l :| ListInv(s, l);
  }

  /** The other enabling conditions always hold: no step reads out of bounds or returns a non-borrowed index. */
  lemma StepsNeverGetStuck(capacity: nat, es: seq<Event>, t: ThreadId)
    requires capacity < LOCK && Possible(Create(capacity), es) && t in Run(Create(capacity), es).threads
    ensures var s := Run(Create(capacity), es);
            match s.threads[t]
            case Acquiring(_) => Enabled(s, ReadCell(t))
            case Following(_, _) => Enabled(s, ExchangeAcquire(t))
            case Poisoning(_) => Enabled(s, Poison(t))
            case Releasing(_, _, _) => Enabled(s, WriteCell(t))
            case Linked(_, _, _) => Enabled(s, ExchangeRelease(t))
  {
    CreateEstablishesInv(capacity);
    RunKeepsInv(Create(capacity), es);
    var s := Run(Create(capacity), es);
    var l :| ListInv(s, l);
    if s.threads[t].Linked? {
      NotAllListed(l, s.Capacity(), s.threads[t].index);
    }
  }

  lemma NotAllListed(l: seq<nat>, n: nat, missing: nat)
    requires Distinct(l) && missing < n && missing !in l
    requires forall i :: 0 <= i < |l| ==> l[i] < n
    ensures |l| < n
  {
    DistinctIsBounded([missing] + l, n);
  }

  /**
   * Every look at the head, at the first load and after every lost exchange: an acquire is refused
   * exactly when all indices are borrowed or the set is locked, and goes on otherwise.
   */
  lemma RefusedIffAllBorrowed(s: IndexSet, e: Event)
    requires Inv(s) && Enabled(s, e) && (e.StartAcquire? || e.ExchangeAcquire?)
    ensures Step(s, e).1 == OutOfIndices <==> s.head.Count() == s.Capacity()
    ensures Step(s, e).1 == IsLocked <==> s.head.Locked()
    ensures Step(s, e).1 in {Continues, OutOfIndices, IsLocked}
    ensures Step(s, e).1 == Continues <==> e.thread in Step(s, e).0.threads
  {
    var l :| ListInv(s, l);
    if e.ExchangeAcquire? {
      assert ViewIsCurrent(s, s.threads[e.thread]);
    }
  }

  /** Whether it has just loaded the head or lost an exchange, a thread left alone gets the first free index. */
  lemma LoneAcquireSucceeds(s: IndexSet, e: Event)
    requires Inv(s) && Enabled(s, e)
    requires e.StartAcquire? || (e.ExchangeAcquire? && !SameWord(s.head, s.threads[e.thread].seen))
    requires s.head.Count() < s.Capacity() && !s.head.Locked()
    ensures var t := e.thread;
            var s1 := Step(s, e).0;
            && Enabled(s1, ReadCell(t))
            && var s2 := Step(s1, ReadCell(t)).0;
               && Enabled(s2, ExchangeAcquire(t))
               && var s3 := Step(s2, ExchangeAcquire(t)).0;
                  Enabled(s3, Poison(t)) && Step(s3, Poison(t)).1 == Acquired(s.head.index)
  {
    var l :| ListInv(s, l);
  }

  /** The steps of one thread leave the others alone, and only an end of an operation lets its thread go. */
  lemma OthersKeepTheirPhase(s: IndexSet, e: Event, u: ThreadId)
    requires Enabled(s, e) && u != e.thread
    ensures u in Step(s, e).0.threads <==> u in s.threads
    ensures u in s.threads ==> Step(s, e).0.threads[u] == s.threads[u]
    ensures e.thread in Step(s, e).0.threads <==> Step(s, e).1 == Continues
  {
  }

  /** A caller holds exactly what an acquire gave it and it has not begun to return. */
  lemma HeldIsWhatWasAcquired(s: IndexSet, e: Event)
    requires Enabled(s, e)
    ensures var (r, outcome) := Step(s, e);
            r.held == if outcome.Acquired? then s.held + {outcome.index}
                      else if e.StartRelease? then s.held - {e.released} else s.held
  {
  }

  // --------------------------------------------------------------------- locking

  /** A release locks exactly when it asks to and its index is the only one that is not free. */
  lemma LocksIffLast(s: IndexSet, t: ThreadId)
    requires Inv(s) && Enabled(s, ExchangeRelease(t)) && SameWord(s.head, s.threads[t].seen)
    ensures Step(s, ExchangeRelease(t)).1 ==
            Released(s.threads[t].index, s.threads[t].lockIfLast && OnlyOwner(s, t))
    ensures Step(s, ExchangeRelease(t)).0.head.Locked() <==> s.threads[t].lockIfLast && OnlyOwner(s, t)
  {
    var l :| ListInv(s, l);
    assert ViewIsCurrent(s, s.threads[t]);
    var index := s.threads[t].index;
    var m := [index] + l;
    NotAllListed(l, s.Capacity(), index);
    assert forall i :: i in m <==> i == index || i in l;
    if OnlyOwner(s, t) {
      forall i | 0 <= i < s.Capacity() ensures i in m {
        assert i in l || i in s.held || OwnedByThread(s, i);
      }
      CoversAll(m, s.Capacity());
    }
    if |m| == s.Capacity() {
      FillsAll(m, s.Capacity());
      assert forall i :: i in s.held ==> i in m;
      forall u | u in s.threads && s.threads[u].Owns() ensures u == t {
        assert s.threads[u].index in m;
      }
    }
  }

  /**
   * Whether it has just begun or lost an exchange, a release that is left alone returns its index,
   * and locks exactly when it was asked to and no other index is in anybody's hands.
   */
  lemma LoneReleaseAnswers(s: IndexSet, e: Event, index: nat, lockIfLast: bool)
    requires Inv(s) && Enabled(s, e)
    requires match e
             case StartRelease(_, released, mode) => released == index && mode == lockIfLast
             case ExchangeRelease(t) =>
               && !SameWord(s.head, s.threads[t].seen)
               && s.threads[t].index == index && s.threads[t].lockIfLast == lockIfLast
             case _ => false
    ensures var t, s1 := e.thread, Step(s, e).0;
            && Step(s, e).1 == Continues && Enabled(s1, WriteCell(t))
            && var s2 := Step(s1, WriteCell(t)).0;
               && Enabled(s2, ExchangeRelease(t))
               && Step(s2, ExchangeRelease(t)).1 == Released(index, lockIfLast && OnlyOwner(s1, t))
  {
    StepKeepsInv(s, e);
    CurrentReleaseAnswers(Step(s, e).0, e.thread);
  }

  lemma CurrentReleaseAnswers(s: IndexSet, t: ThreadId)
    requires Inv(s) && t in s.threads && s.threads[t].Releasing? && s.threads[t].seen == s.head
    ensures Enabled(s, WriteCell(t))
    ensures var r := Step(s, WriteCell(t)).0;
            && Enabled(r, ExchangeRelease(t))
            && Step(r, ExchangeRelease(t)).1 ==
               Released(s.threads[t].index, s.threads[t].lockIfLast && OnlyOwner(s, t))
  {
    var l :| ListInv(s, l);
    assert s.threads[t].Owns();
    NotAllListed(l, s.Capacity(), s.threads[t].index);
    StepKeepsInv(s, WriteCell(t));
    var r := Step(s, WriteCell(t)).0;
    LocksIffLast(r, t);
    WriteKeepsOwners(s, t);
  }

  lemma WriteKeepsOwners(s: IndexSet, t: ThreadId)
    requires Enabled(s, WriteCell(t))
    ensures OnlyOwner(Step(s, WriteCell(t)).0, t) <==> OnlyOwner(s, t)
  {
    var r := Step(s, WriteCell(t)).0;
    assert forall u :: u in r.threads <==> u in s.threads;
    assert forall u :: u in s.threads ==> (r.threads[u].Owns() <==> s.threads[u].Owns());
  }

  ghost predicate OnlyOwner(s: IndexSet, t: ThreadId) {
    s.held == {} && forall u :: u in s.threads && s.threads[u].Owns() ==> u == t
  }

  lemma {:induction false} CoversAll(m: seq<nat>, n: nat)
    requires forall i :: 0 <= i < n ==> i in m
    ensures |m| >= n
  {
    SubsetSize(UpTo(n), Values(m));
  }

  ghost function Values(m: seq<nat>): (r: set<nat>)
    ensures forall x :: x in r <==> x in m
    ensures |r| <= |m|
  {
    if m == [] then {} else Values(m[1..]) + {m[0]}
  }

  lemma {:induction false} FillsAll(m: seq<nat>, n: nat)
    requires Distinct(m) && |m| == n && forall i :: 0 <= i < |m| ==> m[i] < n
    ensures forall i :: 0 <= i < n ==> i in m
  {
    var values := set i | 0 <= i < |m| :: m[i];
    DistinctSize(m, values);
    assert values <= UpTo(n);
    SubsetSize(values, UpTo(n));
    forall i | 0 <= i < n ensures i in m {
      assert i in values;
    }
  }

  /**
   * A lock is for ever: in every later state of every interleaving, in or out of the tag
   * window, nothing is borrowed and every acquire is refused.
   */
  lemma {:induction false} LockedForEver(s: IndexSet, es: seq<Event>, r: IndexSet, t: ThreadId)
    requires Inv(s) && s.head.Locked() && Leads(s, es, r) && t !in r.threads
    ensures r.head == s.head && r.held == {} && Step(r, StartAcquire(t)).1 == IsLocked
    decreases |es|
  {
    LockedIsIdle(s);
    if es == [] {
      RefusedIffAllBorrowed(s, StartAcquire(t));
    } else {
      LockedStep(s, es[0]);
      LockedForEver(Step(s, es[0]).0, es[1..], r, t);
    }
  }

  /** Nobody holds, takes or returns an index of a locked set. */
  lemma LockedIsIdle(s: IndexSet)
    requires Inv(s) && s.head.Locked()
    ensures s.held == {} && forall u :: u in s.threads ==> !s.threads[u].Owns()
  {
    var l :| ListInv(s, l);
    FillsAll(l, s.Capacity());
  }

  /** No acquiring thread ever saw a locked head, so no exchange succeeds on one. */
  lemma LockedStep(s: IndexSet, e: Event)
    requires Inv(s) && s.head.Locked() && Enabled(s, e)
    ensures Inv(Step(s, e).0) && Step(s, e).0.head == s.head
  {
    LockedIsIdle(s);
    if e.ExchangeAcquire? {
      var l :| ListInv(s, l);
      assert ViewIsCurrent(s, s.threads[e.thread]);
      LocalStepKeepsInv(s, l, e);
    } else {
      StepKeepsInv(s, e);
    }
  }

  // -------------------------------------------------- exchanges beyond the window

  /**
   * Whatever happened in between: a successful exchange of an acquire keeps the invariant
   * exactly when the successor that the thread read is the one the head has now.
   */
  lemma AcquireKeepsInvIff(s: IndexSet, t: ThreadId)
    requires Inv(s) && Enabled(s, ExchangeAcquire(t)) && SameWord(s.head, s.threads[t].seen)
    ensures s.head.index < s.Capacity()
    ensures Inv(Step(s, ExchangeAcquire(t)).0) <==> s.threads[t].successor == s.next[s.head.index]
  {
    var l :| ListInv(s, l);
    assert ViewIsCurrent(s, s.threads[t]);
    if s.threads[t].successor == s.next[s.head.index] {
      AcquireTakesFirst(s, l, t);
    }
    var r := Step(s, ExchangeAcquire(t)).0;
    if m :| ListInv(r, m) {
      SuccessorIsForced(s, l, t, m);
    }
  }

  lemma SuccessorIsForced(s: IndexSet, l: seq<nat>, t: ThreadId, m: seq<nat>)
    requires ListInv(s, l) && Enabled(s, ExchangeAcquire(t)) && SameWord(s.head, s.threads[t].seen)
    requires ListInv(Step(s, ExchangeAcquire(t)).0, m)
    ensures l != [] && s.threads[t].successor == s.next[l[0]]
  {
    var r := Step(s, ExchangeAcquire(t)).0;
    assert ViewIsCurrent(s, s.threads[t]);
    assert r.threads[t].Owns() && r.threads[t].index == l[0];
    assert s.next[l[0]] == Cell(l, 1, s.Capacity());
    if m != [] {
      FreeStaysFree(s, l, t, m);
      var j :| 0 <= j < |l| && l[j] == m[0];
      assert j > 0;
      SuffixIsList(s.next, s.head.index, l, j);
      WalkIsUnique(s.next, m[0], m, l[j..]);
    }
  }

  /** The first free index after the exchange was free before. */
  lemma FreeStaysFree(s: IndexSet, l: seq<nat>, t: ThreadId, m: seq<nat>)
    requires ListInv(s, l) && Enabled(s, ExchangeAcquire(t)) && SameWord(s.head, s.threads[t].seen)
    requires ListInv(Step(s, ExchangeAcquire(t)).0, m) && m != []
    ensures m[0] in l
  {
    var r := Step(s, ExchangeAcquire(t)).0;
    forall u | u in s.threads && s.threads[u].Owns() ensures s.threads[u].index != m[0] {
      assert r.threads[u] == s.threads[u];
    }
  }

  lemma {:induction false} SuffixIsList(next: seq<nat>, first: nat, l: seq<nat>, j: nat)
    requires IsList(next, first, l) && j < |l|
    ensures IsList(next, l[j], l[j..])
  {
    if j == 0 {
      assert l[j..] == l;
    } else {
      SuffixIsList(next, first, l, j - 1);
      TailIsList(next, l[j - 1], l[j - 1..]);
      assert l[j - 1..][1..] == l[j..];
      assert next[l[j - 1]] == Cell(l, j, |next| - 1);
    }
  }

  lemma {:induction false} WalkIsUnique(next: seq<nat>, first: nat, l: seq<nat>, m: seq<nat>)
    requires IsList(next, first, l) && IsList(next, first, m)
    ensures l == m
    decreases |l|
  {
    if l != [] && m != [] {
      assert l[0] == m[0] == first;
      TailIsList(next, first, l);
      TailIsList(next, first, m);
      WalkIsUnique(next, next[first], l[1..], m[1..]);
      assert l == [l[0]] + l[1..] && m == [m[0]] + m[1..];
    }
  }
}

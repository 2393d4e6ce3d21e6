/**
 * The 16-bit tag of the index set without any bound on how many exchanges happen
 * during one acquire: sets of one index stay sound, larger ones do not.
 */
module TagWrap {
  import opened UniqueIndexSet

  ghost predicate Reaches(s: IndexSet, r: IndexSet) {
    exists es :: Leads(s, es, r)
  }

  lemma {:induction false} LeadsConcat(s: IndexSet, es: seq<Event>, r: IndexSet, fs: seq<Event>, q: IndexSet)
    requires Leads(s, es, r) && Leads(r, fs, q)
    ensures Leads(s, es + fs, q)
    decreases |es|
  {
    if es == [] {
      assert es + fs == fs;
    } else {
      LeadsConcat(Step(s, es[0]).0, es[1..], r, fs, q);
      assert (es + fs)[1..] == es[1..] + fs;
    }
  }

  lemma Then(s: IndexSet, r: IndexSet, q: IndexSet)
    requires Reaches(s, r) && Reaches(r, q)
    ensures Reaches(s, q)
  {
    var es, fs :| Leads(s, es, r) && Leads(r, fs, q);
    LeadsConcat(s, es, r, fs, q);
  }

  lemma OneStep(s: IndexSet, e: Event)
    requires Enabled(s, e)
    ensures Reaches(s, Step(s, e).0)
  {
    assert [e][1..] == [];
    assert Leads(Step(s, e).0, [], Step(s, e).0);
    assert Leads(s, [e], Step(s, e).0);
  }

  // ------------------------------------------------------- undisturbed operations

  /** The state after an acquire that nobody disturbs. */
  function Acquire(s: IndexSet): IndexSet
    requires s.head.index < s.Capacity()
  {
    IndexSet(s.next[s.head.index := |s.next|],
             Head(s.next[s.head.index], s.head.version + 1, s.head.borrowed + 1),
             s.threads, s.held + {s.head.index})
  }

  /** The state after a release that nobody disturbs. */
  function Release(s: IndexSet, index: nat): IndexSet
    requires index < |s.next| && s.head.borrowed > 0
  {
    IndexSet(s.next[index := s.head.index], Head(index, s.head.version + 1, s.head.borrowed - 1),
             s.threads, s.held - {index})
  }

  lemma ReadAlone(s: IndexSet, t: ThreadId)
    requires t !in s.threads && s.head.index < s.Capacity() && !s.head.Locked()
    ensures Reaches(s, s.(threads := s.threads[t := Following(s.head, s.next[s.head.index])]))
  {
    var s1 := Step(s, StartAcquire(t)).0;
    OneStep(s, StartAcquire(t));
    var s2 := Step(s1, ReadCell(t)).0;
    OneStep(s1, ReadCell(t));
    Then(s, s1, s2);
    assert s2.threads == s.threads[t := Following(s.head, s.next[s.head.index])];
  }

  lemma AcquireAlone(s: IndexSet, t: ThreadId)
    requires t !in s.threads && s.head.index < s.Capacity() && !s.head.Locked()
    ensures Reaches(s, Acquire(s))
  {
    ReadAlone(s, t);
    TakeAlone(s, t);
    Then(s, s.(threads := s.threads[t := Following(s.head, s.next[s.head.index])]), Acquire(s));
  }

  lemma TakeAlone(s: IndexSet, t: ThreadId)
    requires t !in s.threads && s.head.index < s.Capacity()
    ensures Reaches(s.(threads := s.threads[t := Following(s.head, s.next[s.head.index])]), Acquire(s))
  {
    var s2 := s.(threads := s.threads[t := Following(s.head, s.next[s.head.index])]);
    var s3 := Step(s2, ExchangeAcquire(t)).0;
    OneStep(s2, ExchangeAcquire(t));
    OneStep(s3, Poison(t));
    Then(s2, s3, Step(s3, Poison(t)).0);
    assert Step(s3, Poison(t)).0.threads == s.threads;
  }

  lemma ReleaseAlone(s: IndexSet, t: ThreadId, index: nat)
    requires t !in s.threads && index in s.held && index < |s.next| && s.head.borrowed > 0
    ensures Reaches(s, Release(s, index))
  {
    var s1 := Step(s, StartRelease(t, index, false)).0;
    OneStep(s, StartRelease(t, index, false));
    var s2 := Step(s1, WriteCell(t)).0;
    OneStep(s1, WriteCell(t));
    Then(s, s1, s2);
    var s3 := Step(s2, ExchangeRelease(t)).0;
    OneStep(s2, ExchangeRelease(t));
    Then(s, s2, s3);
    assert s3.threads == s.threads;
  }

  // --------------------------------------------------------------- the failing run

  /** The cells of a set in which 0 and 1 have the given successors and nothing else was ever taken. */
  function Cells(capacity: nat, zero: nat, one: nat): (r: seq<nat>)
    requires capacity >= 2
    ensures |r| == capacity + 1
  {
    seq(capacity + 1, i => if i == 0 then zero else if i == 1 then one else i + 1)
  }

  lemma CellsUpdate(capacity: nat, zero: nat, one: nat, value: nat)
    requires 2 <= capacity < LOCK
    ensures Cells(capacity, zero, one)[0 := value] == Cells(capacity, value, one)
    ensures Cells(capacity, zero, one)[1 := value] == Cells(capacity, zero, value)
    ensures Create(capacity).next == Cells(capacity, 1, 2)
  {
  }

  /** Index 1 is held, index 0 is free and followed by 2; `view` is the state of the slow thread 0. */
  function OneHeld(capacity: nat, version: nat, view: map<ThreadId, Phase>): IndexSet
    requires capacity >= 2
  {
    IndexSet(Cells(capacity, 2, capacity + 1), Head(0, version, 1), view, {1})
  }

  function BothHeld(capacity: nat, version: nat, view: map<ThreadId, Phase>): IndexSet
    requires capacity >= 2
  {
    IndexSet(Cells(capacity, capacity + 1, capacity + 1), Head(2, version, 2), view, {0, 1})
  }

  lemma {:induction false} PairsRaiseVersion(capacity: nat, version: nat, view: map<ThreadId, Phase>, n: nat)
    requires 2 <= capacity < LOCK && 1 !in view
    ensures Reaches(OneHeld(capacity, version, view), OneHeld(capacity, version + 2 * n, view))
    decreases n
  {
    var s := OneHeld(capacity, version, view);
    if n == 0 {
      assert Leads(s, [], s);
    } else {
      AcquireAlone(s, 1);
      var s1 := Acquire(s);
      ReleaseAlone(s1, 1, 0);
      var s2 := Release(s1, 0);
      Then(s, s1, s2);
      assert s2 == OneHeld(capacity, version + 2, view);
      PairsRaiseVersion(capacity, version + 2, view, n - 1);
      Then(s, s2, OneHeld(capacity, version + 2 * n, view));
    }
  }

  /** From a new set: acquire 0 and 1, release 0. */
  lemma ReachOneHeld(capacity: nat)
    requires 2 <= capacity < LOCK
    ensures Reaches(Create(capacity), OneHeld(capacity, 3, map[]))
  {
    var s := Create(capacity);
    TakeBothReturnZero(capacity, s, 0, map[]);
  }

  /** Acquire 0 and 1 and release 0, from a set in which all indices are free and in order. */
  lemma TakeBothReturnZero(capacity: nat, s: IndexSet, version: nat, view: map<ThreadId, Phase>)
    requires 2 <= capacity < LOCK && 1 !in view
    requires s == IndexSet(Create(capacity).next, Head(0, version, 0), view, {})
    ensures Reaches(s, OneHeld(capacity, version + 3, view))
  {
    CellsUpdate(capacity, 1, 2, capacity + 1);
    AcquireAlone(s, 1);
    var s1 := IndexSet(Cells(capacity, capacity + 1, 2), Head(1, version + 1, 1), view, {0});
    assert Acquire(s).held == {0};
    CellsUpdate(capacity, capacity + 1, 2, capacity + 1);
    AcquireAlone(s1, 1);
    var s2 := BothHeld(capacity, version + 2, view);
    assert Acquire(s1).held == {0, 1};
    Then(s, s1, s2);
    CellsUpdate(capacity, capacity + 1, capacity + 1, 2);
    ReleaseAlone(s2, 1, 0);
    assert Release(s2, 0).held == {1};
    Then(s, s2, OneHeld(capacity, version + 3, view));
  }

  /** Acquire 0, release 1 and 0: all indices are free and in order again. */
  lemma ReturnBoth(capacity: nat, version: nat, view: map<ThreadId, Phase>)
    requires 2 <= capacity < LOCK && 1 !in view
    ensures Reaches(OneHeld(capacity, version, view), IndexSet(Create(capacity).next, Head(0, version + 3, 0), view, {}))
  {
    var s := OneHeld(capacity, version, view);
    CellsUpdate(capacity, 2, capacity + 1, capacity + 1);
    AcquireAlone(s, 1);
    var s1 := BothHeld(capacity, version + 1, view);
    assert Acquire(s).held == {0, 1};
    CellsUpdate(capacity, capacity + 1, capacity + 1, 2);
    ReleaseAlone(s1, 1, 1);
    var s2 := IndexSet(Cells(capacity, capacity + 1, 2), Head(1, version + 2, 1), view, {0});
    assert Release(s1, 1).held == {0};
    Then(s, s1, s2);
    CellsUpdate(capacity, capacity + 1, 2, 1);
    ReleaseAlone(s2, 1, 0);
    assert Release(s2, 0).held == {};
    Then(s, s2, Release(s2, 0));
  }

  /** Thread 0 loads the head while 1 is held, and reads the cell of 0 while 1 is free. */
  lemma ReachStaleRead(capacity: nat)
    requires 2 <= capacity < LOCK
    ensures Reaches(Create(capacity),
                    IndexSet(Create(capacity).next, Head(0, 6, 0), map[0 := Following(Head(0, 3, 1), 1)], {}))
  {
    var s := Create(capacity);
    var s1 := OneHeld(capacity, 3, map[]);
    ReachOneHeld(capacity);
    OneStep(s1, StartAcquire(0));
    var loaded := map[0 := Acquiring(Head(0, 3, 1))];
    var s2 := OneHeld(capacity, 3, loaded);
    Then(s, s1, s2);
    ReturnBoth(capacity, 3, loaded);
    var s3 := IndexSet(Create(capacity).next, Head(0, 6, 0), loaded, {});
    Then(s, s2, s3);
    OneStep(s3, ReadCell(0));
    var view := map[0 := Following(Head(0, 3, 1), 1)];
    var s4 := s3.(threads := view);
    assert Step(s3, ReadCell(0)).0 == s4;
    Then(s, s3, s4);
  }

  /** The other thread then goes around until the tag is the same again, with 1 held. */
  lemma ReachStaleView(capacity: nat)
    requires 2 <= capacity < LOCK
    ensures Reaches(Create(capacity), OneHeld(capacity, 3 + TAGS, map[0 := Following(Head(0, 3, 1), 1)]))
  {
    ReachStaleRead(capacity);
    var s, view := Create(capacity), map[0 := Following(Head(0, 3, 1), 1)];
    var s4 := IndexSet(s.next, Head(0, 6, 0), view, {});
    TakeBothReturnZero(capacity, s4, 6, view);
    Then(s, s4, OneHeld(capacity, 9, view));
    PairsRaiseVersion(capacity, 9, view, 32765);
    Then(s, OneHeld(capacity, 9, view), OneHeld(capacity, 3 + TAGS, view));
  }

  /**
   * In every set of two or more indices: after 2^16 exchanges during one acquire the word
   * is the same again, the stale successor becomes the head, and the next acquire returns
   * an index that is held.
   */
  lemma TagWrapHandsOutHeldIndex(capacity: nat) returns (s: IndexSet)
    requires 2 <= capacity < LOCK
    ensures Reaches(Create(capacity), s) && Enabled(s, Poison(1))
    ensures Step(s, Poison(1)).1 == Acquired(1) && 1 in s.held
  {
    var first := Create(capacity);
    var s1 := OneHeld(capacity, 3 + TAGS, map[0 := Following(Head(0, 3, 1), 1)]);
    ReachStaleView(capacity);
    OneStep(s1, ExchangeAcquire(0));
    var s2 := Step(s1, ExchangeAcquire(0)).0;
    Then(first, s1, s2);
    assert s2.head == Head(1, 4 + TAGS, 2);
    OneStep(s2, StartAcquire(1));
    var s3 := Step(s2, StartAcquire(1)).0;
    Then(first, s2, s3);
    OneStep(s3, ReadCell(1));
    var s4 := Step(s3, ReadCell(1)).0;
    Then(first, s3, s4);
    OneStep(s4, ExchangeAcquire(1));
    s := Step(s4, ExchangeAcquire(1)).0;
    Then(first, s4, s);
  }

  // ------------------------------------------------------------ sets of one index

  /** Index 0 has exactly one place: the list, a caller or a thread. No other index ever appears. */
  ghost predicate SingleInv(s: IndexSet) {
    && |s.next| <= 2
    && s.held <= {0} && (s.held != {} ==> s.Capacity() > 0)
    && (s.head.index < s.Capacity() ==> s.held == {} && forall t :: t in s.threads ==> !s.threads[t].Owns())
    && (forall t :: t in s.threads && s.threads[t].Owns() ==> s.held == {} && s.threads[t].index == 0)
    && (forall t, u :: t in s.threads && u in s.threads && s.threads[t].Owns() && s.threads[u].Owns() ==> t == u)
    && (forall i :: 0 <= i < s.Capacity() ==> s.next[i] > 0)
    && (forall t :: t in s.threads ==> SingleView(s, s.threads[t]))
  }

  ghost predicate SingleView(s: IndexSet, phase: Phase) {
    match phase
    case Acquiring(seen) => seen.index < s.Capacity()
    case Following(seen, successor) => seen.index < s.Capacity() && successor > 0
    case Poisoning(_) => s.Capacity() > 0
    case Releasing(_, seen, _) => s.Capacity() > 0 && seen.index > 0
    case Linked(_, seen, _) => s.Capacity() > 0 && seen.index > 0
  }

  lemma SingleExchangeStep(s: IndexSet, e: Event)
    requires SingleInv(s) && Enabled(s, e) && e.ExchangeAcquire?
    ensures SingleInv(Step(s, e).0)
  {
    var r, t := Step(s, e).0, e.thread;
    assert SingleView(s, s.threads[t]);
    forall u | u in r.threads && u != t ensures u in s.threads && r.threads[u] == s.threads[u] {
    }
  }

  lemma SingleAcquireStep(s: IndexSet, e: Event)
    requires SingleInv(s) && Enabled(s, e) && (e.StartAcquire? || e.ReadCell?)
    ensures SingleInv(Step(s, e).0)
  {
    var r := Step(s, e).0;
    forall u | u in r.threads && u != e.thread ensures u in s.threads && r.threads[u] == s.threads[u] {
    }
  }

  lemma SingleReleaseStep(s: IndexSet, e: Event)
    requires SingleInv(s) && Enabled(s, e) && (e.StartRelease? || e.WriteCell? || e.ExchangeRelease?)
    ensures SingleInv(Step(s, e).0)
  {
    var r := Step(s, e).0;
    forall u | u in r.threads && u != e.thread ensures u in s.threads && r.threads[u] == s.threads[u] {
    }
  }

  lemma SingleStep(s: IndexSet, e: Event)
    requires SingleInv(s) && Enabled(s, e)
    ensures SingleInv(Step(s, e).0) && HandsOutUnique(s, e)
  {
    match e {
      case StartAcquire(_) => SingleAcquireStep(s, e);
      case ReadCell(_) => SingleAcquireStep(s, e);
      case ExchangeAcquire(_) => SingleExchangeStep(s, e);
      case Poison(t) => assert SingleView(s, s.threads[t]);
      case _ => SingleReleaseStep(s, e);
    }
  }

  lemma {:induction false} SingleRun(s: IndexSet, es: seq<Event>, r: IndexSet)
    requires SingleInv(s) && Leads(s, es, r)
    ensures SingleInv(r)
    decreases |es|
  {
    if es != [] {
      SingleStep(s, es[0]);
      SingleRun(Step(s, es[0]).0, es[1..], r);
    }
  }

  /** Every acquire of every interleaving, however long, returns a unique index. */
  ghost predicate AlwaysUnique(capacity: nat)
    requires capacity < LOCK
  {
    forall s, e :: Reaches(Create(capacity), s) && Enabled(s, e) ==> HandsOutUnique(s, e)
  }

  /** The tag is wide enough for unbounded runs exactly for sets of at most one index. */
  lemma UniqueForEverIff(capacity: nat)
    requires capacity < LOCK
    ensures AlwaysUnique(capacity) <==> capacity <= 1
  {
    if capacity <= 1 {
      forall s, e | Reaches(Create(capacity), s) && Enabled(s, e) ensures HandsOutUnique(s, e) {
        var es :| Leads(Create(capacity), es, s);
        SingleRun(Create(capacity), es, s);
        SingleStep(s, e);
      }
    } else {
      var s := TagWrapHandsOutHeldIndex(capacity);
      assert !HandsOutUnique(s, Poison(1));
    }
  }
}

/**
 * What the documentation promises of `insert`: a key that was not in use, or none when the
 * map is full. `insert_at` endangers that promise exactly for the keys that are not safe to claim.
 */
module SlotMapPromise {
  import opened Prelude
  import opened SlotMapState
  import opened SlotMapFreeList
  import opened SlotMapRuns

  /** Each operation of a continuation is in bounds and safe where it is applied. */
  ghost predicate SafeFrom<T>(s: Slots<T>, ops: seq<Op<T>>)
    requires IndexInv(s)
    decreases |ops|
  {
    ops != [] ==> InBounds(ops[0], s.Capacity()) && Safe(s, ops[0]) && SafeFrom(Apply(s, ops[0]), ops[1..])
  }

  ghost function RunFrom<T>(s: Slots<T>, ops: seq<Op<T>>): (t: Slots<T>)
    requires IndexInv(s) && SafeFrom(s, ops)
    ensures IndexInv(t) && t.Capacity() == s.Capacity()
    decreases |ops|
  {
    if ops == [] then s else RunFrom(Apply(s, ops[0]), ops[1..])
  }

  ghost predicate InsertAsPromised<T>(s: Slots<T>, value: T)
    requires IndexInv(s)
  {
    var key := SlotMapState.Insert(s, value).1;
    && (key.None? <==> |Model(s)| == s.Capacity())
    && (key.Some? ==> key.value !in Model(s))
  }

  ghost predicate PromiseHolds<T(!new)>(s: Slots<T>)
    requires IndexInv(s)
  {
    forall ops, value :: SafeFrom(s, ops) ==> InsertAsPromised(RunFrom(s, ops), value)
  }

  // --------------------------------------------------------------------- kept

  lemma {:induction false} SafeContinuationKeepsList<T>(s: Slots<T>, ops: seq<Op<T>>)
    requires HasListInv(s) && SafeFrom(s, ops)
    ensures HasListInv(RunFrom(s, ops))
    decreases |ops|
  {
    if ops != [] {
      SafeStepKeepsList(s, ops[0]);
      SafeContinuationKeepsList(Apply(s, ops[0]), ops[1..]);
    }
  }

  lemma ListKeepsPromise<T(!new)>(s: Slots<T>)
    requires HasListInv(s)
    ensures PromiseHolds(s)
  {
    forall ops, value | SafeFrom(s, ops) ensures InsertAsPromised(RunFrom(s, ops), value) {
      SafeContinuationKeepsList(s, ops);
      InsertKeepsList(RunFrom(s, ops), value);
    }
  }

  // ------------------------------------------------------------------- broken

  lemma BreaksAfter<T(!new)>(s: Slots<T>, op: Op<T>)
    requires IndexInv(s) && InBounds(op, s.Capacity()) && Safe(s, op) && !PromiseHolds(Apply(s, op))
    ensures !PromiseHolds(s)
  {
    var ops, value :| SafeFrom(Apply(s, op), ops) && !InsertAsPromised(RunFrom(Apply(s, op), ops), value);
    OneMoreStep(s, op, ops);
    assert !InsertAsPromised(RunFrom(s, [op] + ops), value);
  }

  lemma OneMoreStep<T>(s: Slots<T>, op: Op<T>, ops: seq<Op<T>>)
    requires IndexInv(s) && InBounds(op, s.Capacity()) && Safe(s, op) && SafeFrom(Apply(s, op), ops)
    ensures SafeFrom(s, [op] + ops) && RunFrom(s, [op] + ops) == RunFrom(Apply(s, op), ops)
  {
    assert ([op] + ops)[1..] == ops;
  }

  /** Following `next` from the head, unused keys lead to a key that is in use. */
  ghost predicate LeadsToUsed<T>(s: Slots<T>, l: seq<nat>, i: nat, p: nat) {
    && IndexInv(s) && Distinct(l) && i <= p < |l|
    && (forall j :: 0 <= j < |l| ==> l[j] < s.Capacity())
    && s.head == l[i] && s.Used(l[p])
    && (forall j {:trigger s.links[l[j]]} :: i <= j < p ==> !s.Used(l[j]) && s.links[l[j]].next == l[j + 1])
  }

  lemma HeadInUseBreaks<T(!new)>(s: Slots<T>, value: T)
    requires IndexInv(s) && s.head != INVALID && s.Used(s.head)
    ensures !PromiseHolds(s)
  {
    assert SafeFrom(s, []) && RunFrom(s, []) == s;
    assert s.head in Model(s);
    assert !InsertAsPromised(RunFrom(s, []), value);
  }

  lemma InsertFollowsNext<T>(s: Slots<T>, l: seq<nat>, i: nat, p: nat, value: T)
    requires LeadsToUsed(s, l, i, p) && i < p
    ensures LeadsToUsed(Apply(s, Op.Insert(value)), l, i + 1, p)
  {
    var t := Apply(s, Op.Insert(value));
    assert s.links[l[i]].next == l[i + 1] && !s.Used(l[i]);
    InsertEffect(s, value);
    assert t.head == l[i + 1];
    assert t.Used(l[p]) by {
      assert l[p] != l[i];
    }
    forall j | i + 1 <= j < p ensures !t.Used(l[j]) && t.links[l[j]].next == l[j + 1] {
      assert l[j] != l[i];
      assert s.links[l[j]].next == l[j + 1] && !s.Used(l[j]);
    }
  }

  lemma {:induction false} InsertsReachUsed<T(!new)>(s: Slots<T>, l: seq<nat>, i: nat, p: nat, value: T)
    requires LeadsToUsed(s, l, i, p)
    ensures !PromiseHolds(s)
    decreases p - i
  {
    if i == p {
      HeadInUseBreaks(s, value);
    } else {
      InsertFollowsNext(s, l, i, p, value);
      InsertsReachUsed(Apply(s, Op.Insert(value)), l, i + 1, p, value);
      BreaksAfter(s, Op.Insert(value));
    }
  }

  /** `insert_at` on a used key with the stale successor `l[p]` cuts the back link of `l[p]`. */
  lemma StaleClaimCutsLink<T>(s: Slots<T>, l: seq<nat>, key: nat, p: nat, value: T)
    requires ListInv(s, l) && s.Used(key) && 0 < p < |l| && s.links[key].next == l[p]
    ensures var t := SlotMapState.InsertAt(s, key, value).0;
            && IndexInv(t) && t.Capacity() == s.Capacity() && t.head == l[0]
            && (forall k :: 0 <= k < s.Capacity() ==> t.Used(k) == s.Used(k))
            && t.links[l[p]].previous == INVALID
            && (forall j {:trigger t.links[l[j]]} :: 0 <= j < |l| ==> t.links[l[j]].next == At(l, j + 1))
  {
    OverwriteClaims(s, key, value);
    assert s.links[key] == FreeListEntry(INVALID, l[p]);
    ClaimWithoutPrevious(s, key, l[p]);
    CutKeepsNext(s.links, l, key, p, SlotMapState.InsertAt(s, key, value).0.links);
  }

  /** `insert_at` on a used key stores in place: only the links change. */
  lemma OverwriteClaims<T>(s: Slots<T>, key: nat, value: T)
    requires IndexInv(s) && s.Used(key)
    ensures var t := SlotMapState.InsertAt(s, key, value).0;
            IndexInv(t) && t.links == Claim(s, key).links && t.head == s.head && t.idxToData == s.idxToData
  {
    InsertAtRefinesUpdate(s, key, value);
  }

  lemma ClaimWithoutPrevious<T>(s: Slots<T>, key: nat, next: nat)
    requires LinksInRange(s) && key < s.Capacity() && s.links[key] == FreeListEntry(INVALID, next) && next != INVALID
    ensures Claim(s, key).links ==
            s.links[next := s.links[next].(previous := INVALID)][key := FreeListEntry(INVALID, INVALID)]
  {
  }

  lemma CutKeepsNext(links: seq<FreeListEntry>, l: seq<nat>, key: nat, p: nat, cut: seq<FreeListEntry>)
    requires l != [] && Linked(links, l[0], l) && key !in l && key < |links| && p < |l|
    requires cut == links[l[p] := links[l[p]].(previous := INVALID)][key := FreeListEntry(INVALID, INVALID)]
    ensures cut[l[p]].previous == INVALID
    ensures forall j {:trigger cut[l[j]]} :: 0 <= j < |l| ==> cut[l[j]].next == At(l, j + 1)
  {
    forall j | 0 <= j < |l| ensures cut[l[j]].next == At(l, j + 1) {
      assert l[j] != key;
      assert links[l[j]].next == At(l, j + 1);
    }
  }

  /** With its back link cut, claiming `l[p]` leaves it reachable from the head. */
  lemma CutClaimLeadsToUsed<T>(t: Slots<T>, l: seq<nat>, p: nat, value: T)
    requires IndexInv(t) && Distinct(l) && 0 < p < |l| && t.head == l[0]
    requires forall j :: 0 <= j < |l| ==> l[j] < t.Capacity() && !t.Used(l[j])
    requires t.links[l[p]].previous == INVALID
    requires forall j {:trigger t.links[l[j]]} :: 0 <= j < |l| ==> t.links[l[j]].next == At(l, j + 1)
    ensures LeadsToUsed(SlotMapState.InsertAt(t, l[p], value).0, l, 0, p)
  {
    var u := SlotMapState.InsertAt(t, l[p], value).0;
    InsertAtRefinesUpdate(t, l[p], value);
    forall j | 0 <= j < p ensures !u.Used(l[j]) && u.links[l[j]].next == l[j + 1] {
      assert t.links[l[j]].next == l[j + 1];
    }
  }

  lemma StaleClaimBreaks<T(!new)>(s: Slots<T>, l: seq<nat>, key: nat, p: nat, value: T)
    requires ListInv(s, l) && s.Used(key) && 0 < p < |l| && s.links[key].next == l[p]
    ensures IndexInv(SlotMapState.InsertAt(s, key, value).0) && !PromiseHolds(SlotMapState.InsertAt(s, key, value).0)
  {
    StaleClaimCutsLink(s, l, key, p, value);
    var t := SlotMapState.InsertAt(s, key, value).0;
    CutClaimLeadsToUsed(t, l, p, value);
    InsertsReachUsed(SlotMapState.InsertAt(t, l[p], value).0, l, 0, p, value);
    BreaksAfter(t, Op.InsertAt(l[p], value));
  }

  /**
   * After `insert_at`, the promise holds in every safe continuation if and only if the
   * key was safe to claim.
   */
  lemma PromiseHoldsIff<T(!new)>(s: Slots<T>, key: nat, value: T)
    requires HasListInv(s) && key < s.Capacity()
    ensures IndexInv(SlotMapState.InsertAt(s, key, value).0)
    ensures PromiseHolds(SlotMapState.InsertAt(s, key, value).0) <==> ClaimIsSafe(s, key)
  {
    InsertAtRefinesUpdate(s, key, value);
    var t := SlotMapState.InsertAt(s, key, value).0;
    var l :| ListInv(s, l);
    if ClaimIsSafe(s, key) {
      InsertAtKeepsListIff(s, l, key, value);
      ListKeepsPromise(t);
    } else {
      UnsafeClaimBreaks(s, l, key, value);
    }
  }

  lemma UnsafeClaimBreaks<T(!new)>(s: Slots<T>, l: seq<nat>, key: nat, value: T)
    requires ListInv(s, l) && key < s.Capacity() && !ClaimIsSafe(s, key)
    ensures IndexInv(SlotMapState.InsertAt(s, key, value).0) && !PromiseHolds(SlotMapState.InsertAt(s, key, value).0)
  {
    if s.Used(key) {
      var p :| 0 <= p < |l| && l[p] == s.links[key].next;
      StaleClaimBreaks(s, l, key, p, value);
    } else {
      InsertAtRefinesUpdate(s, key, value);
      assert key in Model(SlotMapState.InsertAt(s, key, value).0);
      HeadInUseBreaks(SlotMapState.InsertAt(s, key, value).0, value);
    }
  }

  /**
   * A reachable map in which overwriting a key in use is not safe: the list is destroyed,
   * and a safe continuation makes `insert` return a key that is in use.
   */
  lemma StaleNextBreaksInsert<T(!new)>(a: T) returns (s: Slots<T>)
    ensures Reachable(4, s) && s.Used(0) && IndexInv(s) && s.Capacity() == 4
    ensures var t := SlotMapState.InsertAt(s, 0, a).0;
            HasListInv(s) && IndexInv(t) && !HasListInv(t) && !PromiseHolds(t)
  {
    s := StaleState(a);
    var l :| ListInv(s, l);
    InsertAtKeepsListIff(s, l, 0, a);
    PromiseHoldsIff(s, 0, a);
  }
}

/**
 * The doubly linked list of unused keys in iceoryx2-bb/container/src/slotmap.rs:
 * what each transition does to it, and exactly when `insert_at` damages it.
 */
module SlotMapFreeList {
  import opened Prelude
  import opened SlotMapState

  /** The key at position `i`, or the null index beyond either end. */
  function At(l: seq<nat>, i: int): nat {
    if 0 <= i < |l| then l[i] else INVALID
  }

  /** Following the links from the head visits exactly `l`, in both directions. */
  ghost predicate Linked(links: seq<FreeListEntry>, head: nat, l: seq<nat>) {
    && head == At(l, 0)
    && (forall i :: 0 <= i < |l| ==> l[i] < |links|)
    && (forall i {:trigger links[l[i]]} :: 0 <= i < |l| ==> links[l[i]] == FreeListEntry(At(l, i - 1), At(l, i + 1)))
  }

  /** `l` enumerates the unused keys without repetition. */
  ghost predicate EnumeratesUnused(idxToData: seq<nat>, l: seq<nat>) {
    && Distinct(l)
    && (forall i :: 0 <= i < |l| ==> l[i] < |idxToData| && idxToData[l[i]] == INVALID)
    && (forall k :: 0 <= k < |idxToData| && idxToData[k] == INVALID ==> k in l)
  }

  /** Entries of used keys may hold a stale `next`, but never a `previous`. */
  ghost predicate UsedHaveNoPrevious(idxToData: seq<nat>, links: seq<FreeListEntry>) {
    forall k :: 0 <= k < |idxToData| && k < |links| && idxToData[k] != INVALID ==> links[k].previous == INVALID
  }

  ghost predicate ListOk<T>(s: Slots<T>, l: seq<nat>) {
    && LinksInRange(s)
    && Linked(s.links, s.head, l)
    && EnumeratesUnused(s.idxToData, l)
    && UsedHaveNoPrevious(s.idxToData, s.links)
  }

  ghost predicate ListInv<T>(s: Slots<T>, l: seq<nat>) {
    IndexInv(s) && ListOk(s, l)
  }

  ghost predicate HasListInv<T>(s: Slots<T>) {
    exists l :: ListInv(s, l)
  }

  lemma InitEstablishesListInv<T>(capacity: nat)
    requires 1 <= capacity <= INVALID
    ensures ListInv(Init<T>(capacity), seq(capacity, n => n))
  {
    InitEstablishesIndexInv<T>(capacity);
    var s, l := Init<T>(capacity), seq(capacity, n => n);
    forall k | 0 <= k < s.Capacity() ensures k in l {
      assert l[k] == k;
    }
  }

  /** The list is determined by the links alone: there is no other walk from the head. */
  lemma {:induction false} WalkIsUnique<T>(s: Slots<T>, l: seq<nat>, m: seq<nat>, i: nat)
    requires LinksInRange(s) && Linked(s.links, s.head, l) && Linked(s.links, s.head, m)
    requires i <= |l| && i <= |m| && l[..i] == m[..i]
    ensures l == m
    decreases |l| - i
  {
    if i < |l| || i < |m| {
      assert At(l, i) == At(m, i) by {
        if i > 0 {
          assert l[i - 1] == l[..i][i - 1] == m[i - 1];
          assert s.links[l[i - 1]] == s.links[m[i - 1]];
        }
      }
      assert i < |l| && i < |m| && l[i] == m[i];
      assert l[..i + 1] == l[..i] + [l[i]] == m[..i + 1];
      WalkIsUnique(s, l, m, i + 1);
    } else {
      assert l == l[..i] && m == m[..i];
    }
  }

  /** The list holds one key per missing element. */
  lemma ListLength<T>(s: Slots<T>, l: seq<nat>)
    requires ListOk(s, l) && CountsAgree(s)
    ensures |l| + s.len == s.Capacity()
    ensures l == [] <==> s.head == INVALID
  {
    UnusedPlusUsed(s.idxToData, l, s.UsedKeys());
  }

  lemma UnusedPlusUsed(idxToData: seq<nat>, l: seq<nat>, used: set<nat>)
    requires EnumeratesUnused(idxToData, l)
    requires used == set k | 0 <= k < |idxToData| && idxToData[k] != INVALID
    ensures |l| + |used| == |idxToData|
  {
    var unused := set i | 0 <= i < |l| :: l[i];
    DistinctSize(l, unused);
    assert unused !! used;
    assert forall k :: k in unused <==> k in l;
    assert unused + used == UpTo(|idxToData|);
  }

  /** Taking the head: the rest of the list is intact, apart from who counts as used. */
  lemma AcquireTakesHead<T>(s: Slots<T>, l: seq<nat>)
    requires LinksInRange(s) && Linked(s.links, s.head, l) && Distinct(l) && l != []
    ensures Linked(Acquire(s).links, Acquire(s).head, l[1..])
    ensures forall k :: 0 <= k < |s.links| && k !in l[1..] ==> Acquire(s).links[k] == s.links[k]
  {
    var t, m := Acquire(s), l[1..];
    forall i | 0 <= i < |m| ensures t.links[m[i]] == FreeListEntry(At(m, i - 1), At(m, i + 1)) {
      assert m[i] == l[i + 1];
    }
    if m != [] {
      assert s.links[l[0]].next == m[0];
    }
  }

  /** Pushing a key that is not in the list. */
  lemma ReleasePushesFront<T>(s: Slots<T>, l: seq<nat>, key: nat)
    requires LinksInRange(s) && Linked(s.links, s.head, l) && Distinct(l) && key < s.Capacity() && key !in l
    ensures Linked(Release(s, key).links, Release(s, key).head, [key] + l)
    ensures forall k :: 0 <= k < |s.links| && k !in [key] + l ==> Release(s, key).links[k] == s.links[k]
  {
    var t, m := Release(s, key), [key] + l;
    forall i | 0 <= i < |m| ensures t.links[m[i]] == FreeListEntry(At(m, i - 1), At(m, i + 1)) {
      if i > 0 {
        assert m[i] == l[i - 1];
        assert At(m, i + 1) == At(l, i);
        assert i > 1 ==> At(m, i - 1) == At(l, i - 2);
      }
    }
    if l != [] {
      assert s.head == m[1];
    }
  }

  /** Claiming a key that is in the list but not at its head. */
  lemma ClaimUnlinks<T>(s: Slots<T>, l: seq<nat>, p: nat)
    requires LinksInRange(s) && Linked(s.links, s.head, l) && Distinct(l) && 0 < p < |l|
    ensures Linked(Claim(s, l[p]).links, s.head, Without(l, p))
    ensures forall k :: 0 <= k < |s.links| && k !in l ==> Claim(s, l[p]).links[k] == s.links[k]
    ensures Claim(s, l[p]).links[l[p]] == FreeListEntry(INVALID, INVALID)
  {
    var m := Without(l, p);
    var links := ClaimedLinks(s, l, p);
    forall i | 0 <= i < |m| ensures m[i] < |links| && links[m[i]] == FreeListEntry(At(m, i - 1), At(m, i + 1)) {
      var j := NeighboursAfterRemoval(l, p, i);
      assert s.links[l[j]] == FreeListEntry(At(l, j - 1), At(l, j + 1));
    }
    assert m[0] == l[0];
  }

  /** The links after claiming `l[p]`, entry by entry. */
  lemma ClaimedLinks<T>(s: Slots<T>, l: seq<nat>, p: nat) returns (links: seq<FreeListEntry>)
    requires LinksInRange(s) && Linked(s.links, s.head, l) && Distinct(l) && 0 < p < |l|
    ensures links == Claim(s, l[p]).links && |links| == |s.links|
    ensures forall k :: 0 <= k < |links| ==>
              links[k] == (if k == l[p] then FreeListEntry(INVALID, INVALID)
                           else if k == l[p - 1] then s.links[k].(next := At(l, p + 1))
                           else if k == At(l, p + 1) then s.links[k].(previous := l[p - 1])
                           else s.links[k])
  {
    links := Claim(s, l[p]).links;
    assert s.links[l[p]] == FreeListEntry(l[p - 1], At(l, p + 1));
  }

  /** Element `i` of the shortened list is element `j` of the full one; only its neighbours changed. */
  lemma NeighboursAfterRemoval(l: seq<nat>, p: nat, i: nat) returns (j: int)
    requires Distinct(l) && p < |l| && i < |l| - 1
    ensures 0 <= j < |l| && j != p && Without(l, p)[i] == l[j] != l[p]
    ensures At(Without(l, p), i - 1) == if j == p + 1 then At(l, p - 1) else At(l, j - 1)
    ensures At(Without(l, p), i + 1) == if j + 1 == p then At(l, p + 1) else At(l, j + 1)
    ensures (j == p + 1 <==> l[j] == At(l, p + 1)) || At(l, p + 1) == INVALID
    ensures p > 0 ==> (j + 1 == p <==> l[j] == l[p - 1])
  {
    j := if i < p then i else i + 1;
  }

  // ------------------------------------------------------------- the operations

  /** `insert` hands out the predicted key, never one in use, and fails exactly when full. */
  lemma InsertUsesFreshKey<T>(s: Slots<T>, l: seq<nat>, value: T)
    requires ListInv(s, l)
    ensures var (t, key) := Insert(s, value);
            && (key.None? <==> s.len == s.Capacity())
            && (key.Some? ==>
                  && key.value == s.head && key.value !in Model(s)
                  && l != [] && ListInv(t, l[1..]) && t.len == s.len + 1)
  {
    ListLength(s, l);
    if s.head != INVALID {
      AcquireKeepsIndexInv(s);
      AcquireTakesHead(s, l);
      assert s.links[l[0]].previous == INVALID;
      assert Without(l, 0) == l[1..];
      StoreTakesKey(s, Acquire(s), l, 0, value);
    }
  }

  /** Storing under the unlinked key `l[p]` completes its removal from the list. */
  lemma StoreTakesKey<T>(s: Slots<T>, a: Slots<T>, l: seq<nat>, p: nat, value: T)
    requires ListOk(s, l) && p < |l| && IndexInv(a) && a.idxToData == s.idxToData
    requires Linked(a.links, a.head, Without(l, p)) && a.links[l[p]].previous == INVALID
    requires forall k :: 0 <= k < |s.links| && k !in l ==> a.links[k] == s.links[k]
    ensures ListInv(Store(a, l[p], value), Without(l, p))
    ensures Store(a, l[p], value).len == a.len + 1
  {
    var t := Store(a, l[p], value);
    StoreRefinesUpdate(a, l[p], value);
    FreeSlotAvailable(a, l[p]);
    assert t.idxToData == a.idxToData[l[p] := a.freeSlots[0]];
    UseKey(s.idxToData, l, p, a.freeSlots[0]);
    UsedStayDetached(s.idxToData, s.links, l, p, a.freeSlots[0], a.links);
  }

  lemma UseKey(idxToData: seq<nat>, l: seq<nat>, p: nat, slot: nat)
    requires EnumeratesUnused(idxToData, l) && p < |l| && slot != INVALID
    ensures EnumeratesUnused(idxToData[l[p] := slot], Without(l, p))
  {
    var m := Without(l, p);
    forall k | 0 <= k < |idxToData| && k != l[p] && idxToData[k] == INVALID ensures k in m {
      var i :| 0 <= i < |l| && l[i] == k;
      assert m[if i < p then i else i - 1] == k;
    }
    forall i | 0 <= i < |m| ensures m[i] == l[if i < p then i else i + 1] {}
  }

  lemma UsedStayDetached(idxToData: seq<nat>, links: seq<FreeListEntry>, l: seq<nat>, p: nat, slot: nat,
                         links': seq<FreeListEntry>)
    requires EnumeratesUnused(idxToData, l) && UsedHaveNoPrevious(idxToData, links) && p < |l|
    requires |links| == |links'| == |idxToData| && links'[l[p]].previous == INVALID
    requires forall k :: 0 <= k < |links| && k !in l ==> links'[k] == links[k]
    ensures UsedHaveNoPrevious(idxToData[l[p] := slot], links')
  {
  }

  /** A full map is left alone, a map with room loses its first free key. */
  lemma InsertKeepsList<T>(s: Slots<T>, value: T)
    requires HasListInv(s)
    ensures var (t, key) := Insert(s, value);
            && HasListInv(t)
            && (key.None? <==> s.len == s.Capacity())
            && (key.Some? ==> key.value !in Model(s))
  {
    var l :| ListInv(s, l);
    InsertUsesFreshKey(s, l, value);
    if s.head != INVALID {
      assert ListInv(Insert(s, value).0, l[1..]);
    }
  }

  lemma RemoveKeepsList<T>(s: Slots<T>, key: nat)
    requires HasListInv(s) && key < s.Capacity()
    ensures HasListInv(Remove(s, key).0)
  {
    var l :| ListInv(s, l);
    RemoveReturnsKey(s, l, key);
  }

  lemma InsertAtUnlinksKey<T>(s: Slots<T>, l: seq<nat>, p: nat, value: T)
    requires ListInv(s, l) && 0 < p < |l|
    ensures ListInv(InsertAt(s, l[p], value).0, Without(l, p))
  {
    ClaimKeepsIndexInv(s, l[p]);
    ClaimUnlinks(s, l, p);
    StoreTakesKey(s, Claim(s, l[p]), l, p, value);
  }

  lemma RemoveReturnsKey<T>(s: Slots<T>, l: seq<nat>, key: nat)
    requires ListInv(s, l) && key < s.Capacity()
    ensures ListInv(Remove(s, key).0, if s.Used(key) then [key] + l else l)
  {
    RemoveRefinesDeletion(s, key);
    if s.Used(key) {
      ReleaseFreesKey(s, l, key, Remove(s, key).0);
    }
  }

  lemma ReleaseFreesKey<T>(s: Slots<T>, l: seq<nat>, key: nat, t: Slots<T>)
    requires ListOk(s, l) && s.Used(key) && LinksInRange(t)
    requires t.links == Release(s, key).links && t.head == key && t.idxToData == s.idxToData[key := INVALID]
    ensures ListOk(t, [key] + l)
  {
    ReleasePushesFront(s, l, key);
    FreeKey(s.idxToData, l, key);
  }

  lemma FreeKey(idxToData: seq<nat>, l: seq<nat>, key: nat)
    requires EnumeratesUnused(idxToData, l) && key < |idxToData| && idxToData[key] != INVALID
    ensures EnumeratesUnused(idxToData[key := INVALID], [key] + l)
  {
    var m := [key] + l;
    forall k | 0 <= k < |idxToData| && (k == key || idxToData[k] == INVALID) ensures k in m {
      assert m[0] == key;
      if k != key { assert k in l; }
    }
  }

  // --------------------------------------------- when insert_at keeps the list

  /** Can be asked before the call: is the key's entry safe to unlink? */
  predicate ClaimIsSafe<T>(s: Slots<T>, key: nat)
    requires key < |s.links|
  {
    if s.Used(key) then
      var next := s.links[key].next;
      next == INVALID || next == s.head || s.Used(next)
    else
      key != s.head
  }

  /** A used key whose stale `next` names an unused key behind the head is not safe to claim. */
  lemma StaleNextIsUnsafe<T>(s: Slots<T>, l: seq<nat>, key: nat, p: nat)
    requires ListOk(s, l) && s.Used(key) && 0 < p < |l| && s.links[key].next == l[p]
    ensures !ClaimIsSafe(s, key)
  {
  }

  /** `insert_at` leaves a well-formed list exactly for the keys that pass `ClaimIsSafe`. */
  lemma InsertAtKeepsListIff<T>(s: Slots<T>, l: seq<nat>, key: nat, value: T)
    requires ListInv(s, l) && key < s.Capacity()
    ensures HasListInv(InsertAt(s, key, value).0) <==> ClaimIsSafe(s, key)
  {
    var t := InsertAt(s, key, value).0;
    InsertAtRefinesUpdate(s, key, value);
    ClaimKeepsIndexInv(s, key);
    assert t.links == Claim(s, key).links && t.head == s.head;
    if s.Used(key) {
      assert t.idxToData == s.idxToData;
      ClaimOfUsedKey(s, l, key, t);
    } else if key == s.head {
      forall l' ensures !ListInv(t, l') {
        if ListInv(t, l') { assert false; }
      }
    } else {
      var p :| 0 <= p < |l| && l[p] == key;
      InsertAtUnlinksKey(s, l, p, value);
    }
  }

  /** Claiming a key in use clears the `previous` of whatever its stale `next` points to. */
  lemma ClaimOfUsedKey<T>(s: Slots<T>, l: seq<nat>, key: nat, t: Slots<T>)
    requires ListOk(s, l) && s.Used(key) && IndexInv(t)
    requires t.links == Claim(s, key).links && t.head == s.head && t.idxToData == s.idxToData
    ensures ClaimIsSafe(s, key) ==> ListInv(t, l)
    ensures HasListInv(t) ==> ClaimIsSafe(s, key)
  {
    var next := s.links[key].next;
    assert forall k :: 0 <= k < |s.links| ==>
             t.links[k] == (if k == key then FreeListEntry(INVALID, INVALID)
                            else if k == next then s.links[k].(previous := INVALID)
                            else s.links[k]);
    if ClaimIsSafe(s, key) {
      SafeClaimOfUsedKey(s, l, key, t.links);
    } else {
      forall l' | ListInv(t, l') ensures false {
        PreviousOfNonHead(t.links, t.head, l', next);
      }
    }
  }

  lemma SafeClaimOfUsedKey<T>(s: Slots<T>, l: seq<nat>, key: nat, links: seq<FreeListEntry>)
    requires ListOk(s, l) && s.Used(key) && ClaimIsSafe(s, key) && |links| == |s.links|
    requires forall k :: 0 <= k < |s.links| ==>
               links[k] == (if k == key then FreeListEntry(INVALID, INVALID)
                            else if k == s.links[key].next then s.links[k].(previous := INVALID)
                            else s.links[k])
    ensures Linked(links, s.head, l) && UsedHaveNoPrevious(s.idxToData, links)
  {
    forall i | 0 <= i < |l| ensures links[l[i]] == s.links[l[i]] {
      if l[i] == s.head {
        assert i == 0 && s.links[l[i]].previous == INVALID;
      }
    }
  }

  /** In a well-formed list only the head lacks a predecessor. */
  lemma PreviousOfNonHead(links: seq<FreeListEntry>, head: nat, l: seq<nat>, key: nat)
    requires Linked(links, head, l) && |links| <= INVALID && key in l
    ensures links[key].previous == INVALID ==> key == head
  {
    var i :| 0 <= i < |l| && l[i] == key;
    assert links[l[i]].previous == At(l, i - 1);
  }
}

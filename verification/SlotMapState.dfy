/**
 * The data structure behind iceoryx2-bb/container/src/slotmap.rs as a value:
 * its fields, its transitions and what they keep.
 *
 * `idxToData` maps a key to a slot of `data`, `links` is a doubly linked list
 * threaded through the unused keys, `freeSlots` is the content of the queue of
 * unused slots.
 */
module SlotMapState {
  import opened Prelude

  /** `usize::MAX`, which the source uses as the null index. */
  const INVALID: nat := 0xFFFF_FFFF_FFFF_FFFF

  datatype FreeListEntry = FreeListEntry(previous: nat, next: nat)

  datatype Slots<T> = Slots(
    idxToData: seq<nat>,
    links: seq<FreeListEntry>,
    data: seq<Option<T>>,
    freeSlots: seq<nat>,
    head: nat,
    len: nat)
  {
    function Capacity(): nat { |idxToData| }

    predicate Used(key: int) { 0 <= key < |idxToData| && idxToData[key] != INVALID }

    ghost function UsedKeys(): set<nat> { set k | 0 <= k < |idxToData| && idxToData[k] != INVALID }
  }

  // ---------------------------------------------------------------- transitions

  function Init<T>(capacity: nat): Slots<T> {
    Slots(seq(capacity, _ => INVALID),
          seq(capacity, n requires 0 <= n < capacity => InitEntry(n, capacity)),
          seq(capacity, _ => None),
          seq(capacity, n => n),
          0,
          0)
  }

  function InitEntry(n: nat, capacity: nat): FreeListEntry
    requires n < capacity
  {
    FreeListEntry(if n == 0 then INVALID else n - 1, if n < capacity - 1 then n + 1 else INVALID)
  }

  /** The state after `acquire_next_free_index` took the head off the list. */
  function Acquire<T>(s: Slots<T>): Slots<T>
    requires LinksInRange(s) && s.head != INVALID
  {
    var next := s.links[s.head].next;
    s.(links := if next == INVALID then s.links else s.links[next := s.links[next].(previous := INVALID)],
       head := next)
  }

  /** `claim_index`: unlinks an entry and never moves the head. */
  function Claim<T>(s: Slots<T>, idx: nat): Slots<T>
    requires LinksInRange(s)
  {
    if idx >= s.Capacity() then s else
    var entry := s.links[idx];
    var l1 := if entry.previous == INVALID then s.links
              else s.links[entry.previous := s.links[entry.previous].(next := entry.next)];
    var l2 := if entry.next == INVALID then l1
              else l1[entry.next := l1[entry.next].(previous := entry.previous)];
    s.(links := l2[idx := FreeListEntry(INVALID, INVALID)])
  }

  /** `release_free_index`: pushes an entry at the front of the list. */
  function Release<T>(s: Slots<T>, idx: nat): Slots<T>
    requires LinksInRange(s) && idx < s.Capacity()
  {
    var l1 := if s.head == INVALID then s.links
              else s.links[s.head := s.links[s.head].(previous := idx)];
    s.(links := l1[idx := FreeListEntry(INVALID, s.head)], head := idx)
  }

  function Store<T>(s: Slots<T>, key: nat, value: T): Slots<T>
    requires IndexInv(s) && key < s.Capacity()
  {
    var slot := s.idxToData[key];
    if slot != INVALID then
      s.(data := s.data[slot := Some(value)])
    else
      FreeSlotAvailable(s, key);
      var n := s.freeSlots[0];
      s.(idxToData := s.idxToData[key := n],
         data := s.data[n := Some(value)],
         freeSlots := s.freeSlots[1..],
         len := s.len + 1)
  }

  function Insert<T>(s: Slots<T>, value: T): (Slots<T>, Option<nat>)
    requires IndexInv(s)
  {
    if s.head == INVALID then
      (s, None)
    else
      AcquireKeepsIndexInv(s);
      (Store(Acquire(s), s.head, value), Some(s.head))
  }

  /** A key above the capacity is refused; the key equal to it is out of bounds in the source. */
  function InsertAt<T>(s: Slots<T>, key: nat, value: T): (Slots<T>, bool)
    requires IndexInv(s) && key != s.Capacity()
  {
    if key > s.Capacity() then
      (s, false)
    else
      ClaimKeepsIndexInv(s, key);
      (Store(Claim(s, key), key, value), true)
  }

  function Remove<T>(s: Slots<T>, key: nat): (Slots<T>, bool)
    requires IndexInv(s) && key != s.Capacity()
  {
    if !s.Used(key) then
      (s, false)
    else
      assert key in s.UsedKeys();
      var slot := s.idxToData[key];
      var t := Release(s.(data := s.data[slot := None], freeSlots := s.freeSlots + [slot]), key);
      (t.(idxToData := t.idxToData[key := INVALID], len := t.len - 1), true)
  }

  // ------------------------------------------------------------ index invariant

  predicate IndexOrInvalid(i: nat, capacity: nat) { i == INVALID || i < capacity }

  ghost predicate LinksInRange<T>(s: Slots<T>) {
    && 1 <= s.Capacity() <= INVALID
    && |s.links| == s.Capacity()
    && IndexOrInvalid(s.head, s.Capacity())
    && (forall k :: 0 <= k < |s.links| ==>
          IndexOrInvalid(s.links[k].previous, s.Capacity()) && IndexOrInvalid(s.links[k].next, s.Capacity()))
  }

  /** Every used key leads to an initialized slot: all that a lookup relies on. */
  ghost predicate LookupsAreDefined<T>(s: Slots<T>) {
    forall k :: s.Used(k) ==> s.idxToData[k] < |s.data| && s.data[s.idxToData[k]].Some?
  }

  /** Different used keys own different initialized slots. */
  ghost predicate KeysOwnSlots<T>(s: Slots<T>) {
    && |s.data| == s.Capacity()
    && LookupsAreDefined(s)
    && (forall j, k :: s.Used(j) && s.Used(k) && j != k ==> s.idxToData[j] != s.idxToData[k])
  }

  /** The queued slots are distinct and uninitialized. */
  ghost predicate QueueHoldsVacantSlots<T>(s: Slots<T>) {
    && Distinct(s.freeSlots)
    && (forall i :: 0 <= i < |s.freeSlots| ==> s.freeSlots[i] < |s.data| && s.data[s.freeSlots[i]].None?)
  }

  ghost predicate CountsAgree<T>(s: Slots<T>) {
    s.len == |s.UsedKeys()| && |s.freeSlots| + s.len == s.Capacity()
  }

  ghost predicate IndexInv<T>(s: Slots<T>) {
    LinksInRange(s) && KeysOwnSlots(s) && QueueHoldsVacantSlots(s) && CountsAgree(s)
  }

  /** The key-value map that a slot map stands for. */
  ghost function Model<T>(s: Slots<T>): (m: map<nat, T>)
    ensures LookupsAreDefined(s) ==> m.Keys == s.UsedKeys()
    ensures IndexInv(s) ==> |m| == s.len
  {
    var m := map k | k in s.UsedKeys() && s.idxToData[k] < |s.data| && s.data[s.idxToData[k]].Some?
               :: s.data[s.idxToData[k]].value;
    assert LookupsAreDefined(s) ==> m.Keys == s.UsedKeys();
    m
  }

  /** Storing under an unused key always finds a free slot: the first by-contract expect. */
  lemma FreeSlotAvailable<T>(s: Slots<T>, key: nat)
    requires IndexInv(s) && key < s.Capacity() && !s.Used(key)
    ensures |s.freeSlots| > 0 && s.len < s.Capacity()
  {
    assert s.UsedKeys() <= UpTo(s.Capacity());
    SubsetSize(s.UsedKeys(), UpTo(s.Capacity()));
    assert key in UpTo(s.Capacity());
  }

  /** The free-slot queue holds exactly the slots that no key uses. */
  lemma FreeSlotsAreTheRest<T>(s: Slots<T>, slot: nat)
    requires IndexInv(s) && slot < s.Capacity()
    ensures slot in s.freeSlots <==> s.data[slot].None?
    ensures s.data[slot].Some? <==> exists k :: s.Used(k) && s.idxToData[k] == slot
  {
    var free, used := QueuedSlots(s), UsedSlots(s);
    assert free !! used;
    SubsetSize(free + used, UpTo(s.Capacity()));
    assert slot in free + used;
  }

  ghost function QueuedSlots<T>(s: Slots<T>): (r: set<nat>)
    requires QueueHoldsVacantSlots(s)
    ensures |r| == |s.freeSlots|
    ensures forall d :: d in r <==> d in s.freeSlots
    ensures forall d :: d in r ==> d < |s.data| && s.data[d].None?
  {
    var r := set i | 0 <= i < |s.freeSlots| :: s.freeSlots[i];
    DistinctSize(s.freeSlots, r);
    r
  }

  ghost function UsedSlots<T>(s: Slots<T>): (r: set<nat>)
    requires KeysOwnSlots(s)
    ensures |r| == |s.UsedKeys()|
    ensures forall d :: d in r <==> exists k :: s.Used(k) && s.idxToData[k] == d
    ensures forall d :: d in r ==> d < |s.data| && s.data[d].Some?
  {
    var slotOf := k requires s.Used(k) => s.idxToData[k];
    var r := set k | k in s.UsedKeys() :: slotOf(k);
    InjectiveImageSize(s.UsedKeys(), slotOf, r);
    assert forall k :: s.Used(k) ==> k in s.UsedKeys() && slotOf(k) == s.idxToData[k];
    r
  }

  lemma InitEstablishesIndexInv<T>(capacity: nat)
    requires 1 <= capacity <= INVALID
    ensures IndexInv(Init<T>(capacity)) && Model(Init<T>(capacity)) == map[]
  {
    assert Init<T>(capacity).UsedKeys() == {};
  }

  lemma AcquireKeepsIndexInv<T>(s: Slots<T>)
    requires IndexInv(s) && s.head != INVALID
    ensures IndexInv(Acquire(s)) && Model(Acquire(s)) == Model(s)
  {
    RelinkingKeepsIndexInv(s, Acquire(s));
  }

  /** The links play no part in the correspondence between keys and slots. */
  lemma RelinkingKeepsIndexInv<T>(s: Slots<T>, t: Slots<T>)
    requires IndexInv(s) && t == s.(links := t.links, head := t.head) && LinksInRange(t)
    ensures IndexInv(t) && Model(t) == Model(s)
  {
    assert t.UsedKeys() == s.UsedKeys();
  }

  lemma ClaimKeepsIndexInv<T>(s: Slots<T>, idx: nat)
    requires IndexInv(s)
    ensures IndexInv(Claim(s, idx)) && Model(Claim(s, idx)) == Model(s)
  {
    RelinkingKeepsIndexInv(s, Claim(s, idx));
  }

  lemma StoreRefinesUpdate<T>(s: Slots<T>, key: nat, value: T)
    requires IndexInv(s) && key < s.Capacity()
    ensures IndexInv(Store(s, key, value))
    ensures Model(Store(s, key, value)) == Model(s)[key := value]
  {
    if s.Used(key) {
      OverwriteRefinesUpdate(s, key, value);
    } else {
      FreeSlotAvailable(s, key);
      FreshStoreKeepsInv(s, key, value);
      FreshStoreRefinesUpdate(s, key, value);
    }
  }

  lemma OverwriteRefinesUpdate<T>(s: Slots<T>, key: nat, value: T)
    requires IndexInv(s) && s.Used(key)
    ensures IndexInv(Store(s, key, value))
    ensures Model(Store(s, key, value)) == Model(s)[key := value]
  {
    var t := Store(s, key, value);
    assert t.UsedKeys() == s.UsedKeys() == s.UsedKeys() + {key};
    OverwriteKeepsInv(s, key, value);
    forall k | k in s.UsedKeys() && k != key ensures t.data[t.idxToData[k]] == s.data[s.idxToData[k]] {
      assert s.Used(k) && s.idxToData[k] != s.idxToData[key];
    }
    ModelsAgree(s, t, key, value);
  }

  lemma OverwriteKeepsInv<T>(s: Slots<T>, key: nat, value: T)
    requires IndexInv(s) && s.Used(key)
    ensures IndexInv(Store(s, key, value))
  {
    var t, slot := Store(s, key, value), s.idxToData[key];
    assert t == s.(data := s.data[slot := Some(value)]);
    assert forall d :: 0 <= d < |s.data| ==> t.data[d].Some? == s.data[d].Some?;
    assert t.UsedKeys() == s.UsedKeys();
    assert KeysOwnSlots(t) by {
      assert forall k :: t.Used(k) <==> s.Used(k);
    }
    assert QueueHoldsVacantSlots(t);
  }

  lemma ModelsAgree<T>(s: Slots<T>, t: Slots<T>, key: nat, value: T)
    requires Model(s).Keys == s.UsedKeys() && Model(t).Keys == t.UsedKeys() == s.UsedKeys() + {key}
    requires |t.data| == |s.data| && t.idxToData[key] < |t.data| && t.data[t.idxToData[key]] == Some(value)
    requires forall k :: k in s.UsedKeys() && k != key ==>
               s.idxToData[k] < |s.data| && t.idxToData[k] < |t.data| && t.data[t.idxToData[k]] == s.data[s.idxToData[k]]
    ensures Model(t) == Model(s)[key := value]
  {
  }

  lemma FreshStoreKeepsInv<T>(s: Slots<T>, key: nat, value: T)
    requires IndexInv(s) && key < s.Capacity() && !s.Used(key)
    ensures IndexInv(Store(s, key, value))
  {
    FreeSlotAvailable(s, key);
    var n := s.freeSlots[0];
    var t := Store(s, key, value);
    assert t == s.(idxToData := s.idxToData[key := n], data := s.data[n := Some(value)],
                   freeSlots := s.freeSlots[1..], len := s.len + 1);
    assert KeysOwnSlots(t) by {
      forall k | t.Used(k) && k != key ensures s.Used(k) && t.idxToData[k] == s.idxToData[k] != n {}
    }
    assert QueueHoldsVacantSlots(t) by {
      forall i | 0 <= i < |t.freeSlots| ensures t.freeSlots[i] == s.freeSlots[i + 1] != n {}
    }
    assert CountsAgree(t) by {
      assert t.UsedKeys() == s.UsedKeys() + {key};
    }
  }

  lemma FreshStoreRefinesUpdate<T>(s: Slots<T>, key: nat, value: T)
    requires IndexInv(s) && key < s.Capacity() && !s.Used(key)
    requires IndexInv(Store(s, key, value))
    ensures Model(Store(s, key, value)) == Model(s)[key := value]
  {
    FreshStoreKeepsLookups(s, key, value);
    ModelsAgree(s, Store(s, key, value), key, value);
  }

  lemma FreshStoreKeepsLookups<T>(s: Slots<T>, key: nat, value: T)
    requires IndexInv(s) && key < s.Capacity() && !s.Used(key)
    ensures var t := Store(s, key, value);
            && t.UsedKeys() == s.UsedKeys() + {key} && |t.data| == |s.data|
            && t.idxToData[key] < |t.data| && t.data[t.idxToData[key]] == Some(value)
            && forall k :: k in s.UsedKeys() ==>
                 && s.idxToData[k] < |s.data| && t.idxToData[k] < |t.data|
                 && t.data[t.idxToData[k]] == s.data[s.idxToData[k]]
  {
    FreeSlotAvailable(s, key);
    var t, n := Store(s, key, value), s.freeSlots[0];
    assert t.data == s.data[n := Some(value)] && t.idxToData == s.idxToData[key := n];
    forall k | k in s.UsedKeys()
      ensures s.idxToData[k] < |s.data| && t.idxToData[k] < |t.data| && t.data[t.idxToData[k]] == s.data[s.idxToData[k]]
    {
      assert s.Used(k) && s.idxToData[k] != n;
    }
  }

  /** Whatever the free list looks like, `insert` writes one value under an in-range key. */
  lemma InsertRefinesUpdate<T>(s: Slots<T>, value: T)
    requires IndexInv(s)
    ensures var (t, key) := Insert(s, value);
            && IndexInv(t) && t.Capacity() == s.Capacity()
            && (key.None? ==> t == s)
            && (key.Some? ==> key.value < s.Capacity() && Model(t) == Model(s)[key.value := value])
  {
    if s.head != INVALID {
      AcquireKeepsIndexInv(s);
      StoreRefinesUpdate(Acquire(s), s.head, value);
    }
  }

  /** What `insert` leaves in the links and the index vector. */
  lemma InsertEffect<T>(s: Slots<T>, value: T)
    requires IndexInv(s) && s.head != INVALID && !s.Used(s.head)
    ensures var t := Insert(s, value).0;
            && |t.links| == |s.links| && |t.idxToData| == |s.idxToData| && t.Used(s.head)
            && (forall k :: 0 <= k < |s.links| ==> t.links[k].next == s.links[k].next)
            && (forall k :: 0 <= k < |s.links| && k != s.head ==> t.Used(k) == s.Used(k))
  {
    AcquireKeepsIndexInv(s);
    FreeSlotAvailable(Acquire(s), s.head);
  }

  lemma InsertAtRefinesUpdate<T>(s: Slots<T>, key: nat, value: T)
    requires IndexInv(s) && key != s.Capacity()
    ensures var (t, done) := InsertAt(s, key, value);
            && IndexInv(t) && t.Capacity() == s.Capacity()
            && (done <==> key < s.Capacity())
            && Model(t) == if done then Model(s)[key := value] else Model(s)
  {
    if key < s.Capacity() {
      ClaimKeepsIndexInv(s, key);
      StoreRefinesUpdate(Claim(s, key), key, value);
    }
  }

  lemma RemoveRefinesDeletion<T>(s: Slots<T>, key: nat)
    requires IndexInv(s) && key != s.Capacity()
    ensures var (t, done) := Remove(s, key);
            && IndexInv(t) && t.Capacity() == s.Capacity()
            && (done <==> key in Model(s))
            && Model(t) == Model(s) - {key}
  {
    if s.Used(key) {
      RemoveKeepsInv(s, key);
      RemoveDropsOneKey(s, key);
    }
  }

  /** What `remove` leaves in the links and the index vector. */
  lemma RemoveEffect<T>(s: Slots<T>, key: nat)
    requires IndexInv(s) && s.Used(key)
    ensures var t := Remove(s, key).0;
            && |t.links| == |s.links| && |t.idxToData| == |s.idxToData|
            && (forall k :: 0 <= k < |s.links| && k != key ==> t.links[k].next == s.links[k].next && t.Used(k) == s.Used(k))
  {
  }

  lemma RemoveDropsOneKey<T>(s: Slots<T>, key: nat)
    requires IndexInv(s) && s.Used(key) && IndexInv(Remove(s, key).0)
    ensures Model(Remove(s, key).0) == Model(s) - {key}
  {
    var t := Remove(s, key).0;
    assert t.UsedKeys() == s.UsedKeys() - {key};
    forall k | k in t.UsedKeys() ensures t.data[t.idxToData[k]] == s.data[s.idxToData[k]] {
      assert s.Used(k) && s.idxToData[k] != s.idxToData[key];
    }
    ModelsAgreeWithout(s, t, key);
  }

  lemma ModelsAgreeWithout<T>(s: Slots<T>, t: Slots<T>, key: nat)
    requires Model(s).Keys == s.UsedKeys() && Model(t).Keys == t.UsedKeys() == s.UsedKeys() - {key}
    requires forall k :: k in t.UsedKeys() ==>
               s.idxToData[k] < |s.data| && t.idxToData[k] < |t.data| && t.data[t.idxToData[k]] == s.data[s.idxToData[k]]
    ensures Model(t) == Model(s) - {key}
  {
  }

  lemma RemoveKeepsInv<T>(s: Slots<T>, key: nat)
    requires IndexInv(s) && s.Used(key)
    ensures IndexInv(Remove(s, key).0)
  {
    RemoveKeepsSlots(s, key);
    RemoveKeepsQueue(s, key);
    var t := Remove(s, key).0;
    assert LinksInRange(t);
    assert CountsAgree(t) by {
      assert t.UsedKeys() == s.UsedKeys() - {key};
      assert key in s.UsedKeys();
    }
  }

  lemma RemoveKeepsSlots<T>(s: Slots<T>, key: nat)
    requires IndexInv(s) && s.Used(key)
    ensures KeysOwnSlots(Remove(s, key).0)
  {
    var t, slot := Remove(s, key).0, s.idxToData[key];
    assert t.idxToData == s.idxToData[key := INVALID] && t.data == s.data[slot := None];
    forall k | t.Used(k) ensures s.Used(k) && t.idxToData[k] == s.idxToData[k] != slot {}
  }

  lemma RemoveKeepsQueue<T>(s: Slots<T>, key: nat)
    requires IndexInv(s) && s.Used(key)
    ensures QueueHoldsVacantSlots(Remove(s, key).0)
  {
    var t, slot := Remove(s, key).0, s.idxToData[key];
    assert t.data == s.data[slot := None] && t.freeSlots == s.freeSlots + [slot];
  }
}

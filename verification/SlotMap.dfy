/** The mutable slot map of iceoryx2-bb/container/src/slotmap.rs. */
module SlotMap {
  import opened Prelude
  import opened SlotMapState
  import opened Queue

  class MetaSlotMap<T> {
    var idxToData: seq<nat>
    var links: seq<FreeListEntry>
    var data: seq<Option<T>>
    const queue: MetaQueue<nat>
    var head: nat
    var len: nat

    /** The fields as one value. */
    ghost function State(): (s: Slots<T>)
      requires queue.Valid()
      reads this, queue, queue.buffer
    {
      Slots(idxToData, links, data, queue.contents, head, len)
    }

    /** The heap part of the invariant; `IndexInv(State())` is the rest. */
    ghost predicate Valid()
      reads this, queue, queue.buffer
    {
      queue.Valid() && queue.buffer.Length == |idxToData|
    }

    constructor (capacity: nat)
      requires 1 <= capacity <= INVALID
      ensures Valid() && fresh(queue) && fresh(queue.buffer)
      ensures State() == Init(capacity)
    {
      idxToData, links, data := [], [], [];
      queue := new MetaQueue(capacity);
      head, len := 0, 0;
      new;
      InitializeDataStructures(capacity);
    }

    method InitializeDataStructures(capacity: nat)
      requires queue.Valid() && queue.buffer.Length == capacity
      requires State() == Slots([], [], [], [], 0, 0)
      modifies this`idxToData, this`links, this`data, queue, queue.buffer
      ensures Valid() && State() == Init(capacity)
    {
      for n := 0 to capacity
        invariant queue.Valid() && |queue.contents| == |idxToData| == |links| == |data| == n
        invariant forall i :: 0 <= i < n ==> queue.contents[i] == i
        invariant forall i :: 0 <= i < n ==> idxToData[i] == INVALID && data[i] == None
        invariant forall i :: 0 <= i < n ==> links[i] == InitEntry(i, capacity)
      {
        idxToData := idxToData + [INVALID];
        data := data + [None];
        var pushed := queue.Push(n);
        var previous := if n == 0 then INVALID else n - 1;
        var next := if n < capacity - 1 then n + 1 else INVALID;
        links := links + [FreeListEntry(previous, next)];
      }
    }

    method AcquireNextFreeIndex() returns (key: Option<nat>)
      requires Valid() && IndexInv(State())
      modifies this`links, this`head
      ensures key == if old(head) == INVALID then None else Some(old(head))
      ensures State() == if old(head) == INVALID then old(State()) else Acquire(old(State()))
    {
      if head == INVALID {
        return None;
      }
      var freeIdx := head;
      var next := links[freeIdx].next;
      if next != INVALID {
        links := links[next := links[next].(previous := INVALID)];
      }
      head := next;
      return Some(freeIdx);
    }

    method ClaimIndex(idx: nat)
      requires Valid() && IndexInv(State())
      modifies this`links
      ensures State() == Claim(old(State()), idx)
    {
      if idx >= |idxToData| {
        return;
      }
      var entry := links[idx];
      if entry.previous != INVALID {
        links := links[entry.previous := links[entry.previous].(next := entry.next)];
      }
      if entry.next != INVALID {
        links := links[entry.next := links[entry.next].(previous := entry.previous)];
      }
      links := links[idx := links[idx].(next := INVALID)];
      links := links[idx := links[idx].(previous := INVALID)];
      assert State().links == Claim(old(State()), idx).links;
    }

    method ReleaseFreeIndex(idx: nat)
      requires queue.Valid() && LinksInRange(State()) && idx < |idxToData|
      modifies this`links, this`head
      ensures State() == Release(old(State()), idx)
    {
      if head != INVALID {
        links := links[head := links[head].(previous := idx)];
      }
      links := links[idx := FreeListEntry(INVALID, head)];
      head := idx;
    }

    method StoreValue(key: nat, value: T) returns (done: bool)
      requires Valid() && IndexInv(State()) && key != |idxToData|
      modifies this`idxToData, this`data, this`len, queue, queue.buffer
      ensures Valid()
      ensures done <==> key < |old(idxToData)|
      ensures State() == if done then Store(old(State()), key, value) else old(State())
    {
      if key > |idxToData| {
        return false;
      }
      var slot := idxToData[key];
      if slot != INVALID {
        assert State().Used(key);
        data := data[slot := Some(value)];
      } else {
        FreeSlotAvailable(State(), key);
        ghost var before := State();
        var n := queue.Pop();
        assert n.value == before.freeSlots[0];
        idxToData := idxToData[key := n.value];
        data := data[n.value := Some(value)];
        len := len + 1;
      }
      return true;
    }

    method Insert(value: T) returns (key: Option<nat>)
      requires Valid() && IndexInv(State())
      modifies this, queue, queue.buffer
      ensures Valid()
      ensures (State(), key) == SlotMapState.Insert(old(State()), value)
    {
      ghost var before := State();
      key := AcquireNextFreeIndex();
      if key.Some? {
        AcquireKeepsIndexInv(before);
        var done := StoreValue(key.value, value);
      }
    }

    method InsertAt(key: nat, value: T) returns (done: bool)
      requires Valid() && IndexInv(State()) && key != |idxToData|
      modifies this, queue, queue.buffer
      ensures Valid()
      ensures (State(), done) == SlotMapState.InsertAt(old(State()), key, value)
    {
      ClaimKeepsIndexInv(State(), key);
      ClaimIndex(key);
      done := StoreValue(key, value);
    }

    method Remove(key: nat) returns (done: bool)
      requires Valid() && IndexInv(State()) && key != |idxToData|
      modifies this, queue, queue.buffer
      ensures Valid()
      ensures (State(), done) == SlotMapState.Remove(old(State()), key)
    {
      if key > |idxToData| {
        return false;
      }
      if idxToData[key] == INVALID {
        return false;
      }
      RemoveUsed(key);
      return true;
    }

    method RemoveUsed(key: nat)
      requires Valid() && IndexInv(State()) && State().Used(key)
      modifies this, queue, queue.buffer
      ensures Valid() && State() == SlotMapState.Remove(old(State()), key).0
    {
      ReturnSlot(key);
      ReleaseFreeIndex(key);
      idxToData := idxToData[key := INVALID];
      len := len - 1;
    }

    /** Vacates the slot of a used key and queues it. */
    method ReturnSlot(key: nat)
      requires Valid() && IndexInv(State()) && State().Used(key)
      modifies this`data, queue, queue.buffer
      ensures Valid()
      ensures var s := old(State());
              State() == s.(data := s.data[s.idxToData[key] := None], freeSlots := s.freeSlots + [s.idxToData[key]])
    {
      RemovalFitsQueue(State(), key);
      var slot := idxToData[key];
      data := data[slot := None];
      var pushed := queue.Push(slot);
    }

    /** Predicts the key of the next `Insert`. */
    method NextFreeKey() returns (key: Option<nat>)
      requires Valid() && IndexInv(State())
      ensures forall value :: SlotMapState.Insert(State(), value).1 == key
    {
      return if head == INVALID then None else Some(head);
    }

    /** Looking up a key reads the stored map; the by-contract expect never fires. */
    method Get(key: nat) returns (value: Option<T>)
      requires Valid() && LookupsAreDefined(State()) && key < |idxToData|
      ensures value == if key in Model(State()) then Some(Model(State())[key]) else None
    {
      var slot := idxToData[key];
      if slot == INVALID {
        return None;
      }
      assert State().Used(key);
      return Some(data[slot].value);
    }

    /** Writes through the reference that `get_mut` hands out for a used key; there is none for an unused one. */
    method Overwrite(key: nat, value: T) returns (present: bool)
      requires Valid() && IndexInv(State()) && key < |idxToData|
      modifies this`data
      ensures Valid() && (present <==> key in Model(old(State())))
      ensures State() == if present then Store(old(State()), key, value) else old(State())
    {
      var slot := idxToData[key];
      if slot == INVALID {
        return false;
      }
      assert State().Used(key);
      data := data[slot := Some(value)];
      return true;
    }

    method NextAvailableKeyAfter(start: nat) returns (entry: Option<(nat, T)>)
      requires Valid() && LookupsAreDefined(State())
      ensures IsNextEntry(Model(State()), start, entry)
    {
      var n := start;
      while n < |idxToData|
        invariant start <= n
        invariant forall k :: start <= k < n && k < |idxToData| ==> idxToData[k] == INVALID
      {
        var slot := idxToData[n];
        if slot != INVALID {
          assert State().Used(n);
          return Some((n, data[slot].value));
        }
        n := n + 1;
      }
      return None;
    }

    /** A full iteration: every stored entry once, in ascending key order. */
    method Iterate() returns (entries: seq<(nat, T)>)
      requires Valid() && LookupsAreDefined(State())
      ensures ListsBelow(Model(State()), |idxToData|, entries)
      ensures |entries| == |Model(State())|
    {
      ghost var m := Model(State());
      entries := [];
      var key := 0;
      var next := NextAvailableKeyAfter(key);
      while next.Some?
        invariant IsNextEntry(m, key, next) && ListsBelow(m, key, entries)
        decreases |idxToData| - key, next.Some?
      {
        ListNext(m, key, next.value, entries);
        entries := entries + [next.value];
        key := next.value.0 + 1;
        next := NextAvailableKeyAfter(key);
      }
      ListedSize(m, |idxToData|, entries);
    }
  }

  /** `entry` has the least key of `m` that is not below `start`. */
  ghost predicate IsNextEntry<T>(m: map<nat, T>, start: nat, entry: Option<(nat, T)>) {
    match entry
    case None => forall k :: k in m ==> k < start
    case Some(e) => e.0 in m && m[e.0] == e.1 && start <= e.0 && forall k :: k in m && start <= k ==> e.0 <= k
  }

  /** `entries` lists the part of `m` with keys below `bound`, each once, keys ascending. */
  ghost predicate ListsBelow<T>(m: map<nat, T>, bound: nat, entries: seq<(nat, T)>) {
    && (forall i, j :: 0 <= i < j < |entries| ==> entries[i].0 < entries[j].0)
    && (forall i :: 0 <= i < |entries| ==> entries[i].0 < bound && entries[i].0 in m && m[entries[i].0] == entries[i].1)
    && (forall k :: k in m && k < bound ==> (k, m[k]) in entries)
  }

  lemma ListNext<T>(m: map<nat, T>, key: nat, next: (nat, T), entries: seq<(nat, T)>)
    requires IsNextEntry(m, key, Some(next)) && ListsBelow(m, key, entries)
    ensures ListsBelow(m, next.0 + 1, entries + [next])
  {
    var all := entries + [next];
    forall k | k in m && k < next.0 + 1 ensures (k, m[k]) in all {
      if k < key {
        assert (k, m[k]) in entries;
      } else {
        assert k == next.0 && all[|entries|] == (k, m[k]);
      }
    }
  }

  lemma {:induction false} ListedSize<T>(m: map<nat, T>, bound: nat, entries: seq<(nat, T)>)
    requires ListsBelow(m, bound, entries) && forall k :: k in m ==> k < bound
    ensures |entries| == |m|
  {
    var keys := set i | 0 <= i < |entries| :: entries[i].0;
    var sequence := seq(|entries|, i requires 0 <= i < |entries| => entries[i].0);
    assert keys == set i | 0 <= i < |sequence| :: sequence[i] by {
      forall i | 0 <= i < |entries| ensures sequence[i] == entries[i].0 {}
    }
    DistinctSize(sequence, keys);
    assert keys == m.Keys by {
      forall k | k in m ensures k in keys {
        assert (k, m[k]) in entries;
      }
    }
  }

  /** There is room in the queue for the slot of every key in use: the push never fails. */
  lemma RemovalFitsQueue<T>(s: Slots<T>, key: nat)
    requires IndexInv(s) && s.Used(key)
    ensures |s.freeSlots| < s.Capacity() && s.len > 0
  {
    assert key in s.UsedKeys();
  }
}

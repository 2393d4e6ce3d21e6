/** The flat map of iceoryx2-bb/container/src/flatmap.rs: an association list in a slot map. */
module FlatMap {
  import opened Prelude
  import opened SlotMapState
  import opened SlotMapFreeList
  import opened SlotMap

  datatype FlatMapError = KeyAlreadyExists | IsFull

  datatype Entry<K, V> = Entry(id: K, value: V)

  /** `index` finds the one slot key of every id: no id is stored twice, none is missing. */
  ghost predicate Indexes<K, V>(m: map<nat, Entry<K, V>>, index: map<K, nat>) {
    && (forall id :: id in index ==> index[id] in m && m[index[id]].id == id)
    && (forall k :: k in m ==> m[k].id in index && index[m[k].id] == k)
  }

  /** The finite map that the entries represent. */
  ghost function View<K, V>(m: map<nat, Entry<K, V>>, index: map<K, nat>): (v: map<K, V>)
    requires Indexes(m, index)
    ensures v.Keys == index.Keys
  {
    map id | id in index :: m[index[id]].value
  }

  /** The index is determined by the entries. */
  lemma IndexIsUnique<K, V>(m: map<nat, Entry<K, V>>, index: map<K, nat>, other: map<K, nat>)
    requires Indexes(m, index) && Indexes(m, other)
    ensures index == other
  {
    forall id | id in index ensures id in other && other[id] == index[id] {
      assert m[index[id]].id == id;
    }
    forall id | id in other ensures id in index {
      assert m[other[id]].id == id;
    }
  }

  lemma {:induction false} ViewSize<K, V>(m: map<nat, Entry<K, V>>, index: map<K, nat>)
    requires Indexes(m, index)
    ensures |View(m, index)| == |m|
  {
    assert |View(m, index)| == |View(m, index).Keys| == |index|;
    if m == map[] {
      assert index == map[];
    } else {
      var k :| k in m;
      RemoveEntry(m, index, k);
      ViewSize(m - {k}, index - {m[k].id});
      assert (m - {k}).Keys == m.Keys - {k};
      assert (index - {m[k].id}).Keys == index.Keys - {m[k].id};
    }
  }

  lemma RemoveEntry<K, V>(m: map<nat, Entry<K, V>>, index: map<K, nat>, k: nat)
    requires Indexes(m, index) && k in m
    ensures Indexes(m - {k}, index - {m[k].id})
    ensures View(m - {k}, index - {m[k].id}) == View(m, index) - {m[k].id}
  {
  }

  lemma AddEntry<K, V>(m: map<nat, Entry<K, V>>, index: map<K, nat>, k: nat, e: Entry<K, V>)
    requires Indexes(m, index) && k !in m && e.id !in index
    ensures Indexes(m[k := e], index[e.id := k])
    ensures View(m[k := e], index[e.id := k]) == View(m, index)[e.id := e.value]
  {
  }

  lemma ReplaceEntry<K, V>(m: map<nat, Entry<K, V>>, index: map<K, nat>, k: nat, value: V)
    requires Indexes(m, index) && k in m
    ensures Indexes(m[k := m[k].(value := value)], index)
    ensures View(m[k := m[k].(value := value)], index) == View(m, index)[m[k].id := value]
  {
  }

  /** The state of a usable flat map: intact free list, no id stored twice. */
  ghost predicate FlatInv<K, V>(s: Slots<Entry<K, V>>, index: map<K, nat>) {
    HasListInv(s) && Indexes(Model(s), index)
  }

  lemma FlatInsert<K, V>(s: Slots<Entry<K, V>>, index: map<K, nat>, id: K, value: V)
    requires FlatInv(s, index) && id !in index
    ensures var (t, key) := SlotMapState.Insert(s, Entry(id, value));
            && (key.None? <==> |View(Model(s), index)| == s.Capacity())
            && (key.None? ==> t == s)
            && (key.Some? ==> FlatInv(t, index[id := key.value])
                              && View(Model(t), index[id := key.value]) == View(Model(s), index)[id := value])
  {
    InsertKeepsList(s, Entry(id, value));
    InsertRefinesUpdate(s, Entry(id, value));
    ViewSize(Model(s), index);
    var (t, key) := SlotMapState.Insert(s, Entry(id, value));
    if key.Some? {
      AddEntry(Model(s), index, key.value, Entry(id, value));
    }
  }

  lemma IndexAfterInsert<K, V>(s: Slots<Entry<K, V>>, index: map<K, nat>, id: K, value: V)
    returns (t: Slots<Entry<K, V>>, newIndex: map<K, nat>)
    requires FlatInv(s, index) && id !in index
    ensures t == SlotMapState.Insert(s, Entry(id, value)).0 && FlatInv(t, newIndex)
    ensures |t.idxToData| == |s.idxToData|
    ensures var added := SlotMapState.Insert(s, Entry(id, value)).1.Some?;
            && (added <==> |View(Model(s), index)| != s.Capacity())
            && View(Model(t), newIndex) == if added then View(Model(s), index)[id := value] else View(Model(s), index)
  {
    t := SlotMapState.Insert(s, Entry(id, value)).0;
    newIndex := if s.head == INVALID then index else index[id := s.head];
    FlatInsert(s, index, id, value);
    InsertRefinesUpdate(s, Entry(id, value));
  }

  lemma FlatRemove<K, V>(s: Slots<Entry<K, V>>, index: map<K, nat>, k: nat)
    requires FlatInv(s, index) && k in Model(s)
    ensures var (t, id) := (SlotMapState.Remove(s, k).0, Model(s)[k].id);
            FlatInv(t, index - {id}) && View(Model(t), index - {id}) == View(Model(s), index) - {id}
  {
    RemoveKeepsList(s, k);
    RemoveRefinesDeletion(s, k);
    RemoveEntry(Model(s), index, k);
  }

  lemma FlatReplace<K, V>(s: Slots<Entry<K, V>>, index: map<K, nat>, k: nat, value: V)
    requires FlatInv(s, index) && k in Model(s)
    ensures var t := Store(s, k, Model(s)[k].(value := value));
            FlatInv(t, index) && View(Model(t), index) == View(Model(s), index)[Model(s)[k].id := value]
  {
    var l :| ListInv(s, l);
    var t := Store(s, k, Model(s)[k].(value := value));
    StoreRefinesUpdate(s, k, Model(s)[k].(value := value));
    ReplaceEntry(Model(s), index, k, value);
    assert ListInv(t, l);
  }

  /** `entry` is an entry of `m` with the given id, or there is none. */
  ghost predicate IsEntryOf<K, V>(m: map<nat, Entry<K, V>>, id: K, entry: Option<(nat, Entry<K, V>)>) {
    match entry
    case None => forall k :: k in m ==> m[k].id != id
    case Some(e) => e.0 in m && m[e.0] == e.1 && e.1.id == id
  }

  lemma FoundIffIndexed<K, V>(m: map<nat, Entry<K, V>>, index: map<K, nat>, id: K, entry: Option<(nat, Entry<K, V>)>)
    requires Indexes(m, index) && IsEntryOf(m, id, entry)
    ensures entry.Some? <==> id in View(m, index)
  {
  }

  lemma AbsentIsGone<K, V>(m: map<K, V>, id: K)
    requires id !in m
    ensures m - {id} == m
  {
  }

  class MetaFlatMap<K(==), V> {
    const slots: MetaSlotMap<Entry<K, V>>
    ghost var index: map<K, nat>

    ghost predicate Valid()
      reads this, slots, slots.queue, slots.queue.buffer
    {
      slots.Valid() && FlatInv(slots.State(), index)
    }

    ghost function Contents(): (m: map<K, V>)
      requires Valid()
      reads this, slots, slots.queue, slots.queue.buffer
    {
      View(Model(slots.State()), index)
    }

    ghost function Capacity(): nat reads slots { |slots.idxToData| }

    constructor (capacity: nat)
      requires 1 <= capacity <= INVALID
      ensures Valid() && fresh(slots) && fresh(slots.queue) && fresh(slots.queue.buffer)
      ensures Contents() == map[] && Capacity() == capacity
    {
      slots := new MetaSlotMap(capacity);
      index := map[];
      new;
      InitEstablishesIndexInv<Entry<K, V>>(capacity);
      InitEstablishesListInv<Entry<K, V>>(capacity);
    }

    /** The first entry, in key order, that has the given id. */
    method Search(id: K) returns (entry: Option<(nat, Entry<K, V>)>)
      requires slots.Valid() && LookupsAreDefined(slots.State())
      ensures IsEntryOf(Model(slots.State()), id, entry)
    {
      entry := slots.NextAvailableKeyAfter(0);
      ghost var m, key := Model(slots.State()), 0;
      while entry.Some? && entry.value.1.id != id
        invariant IsNextEntry(m, key, entry)
        invariant forall k :: k in m && k < key ==> m[k].id != id
        decreases |slots.idxToData| - key, entry.Some?
      {
        key := entry.value.0 + 1;
        entry := slots.NextAvailableKeyAfter(entry.value.0 + 1);
      }
    }

    method Find(id: K) returns (entry: Option<(nat, Entry<K, V>)>)
      requires Valid()
      ensures entry.Some? <==> id in Contents()
      ensures IsEntryOf(Model(slots.State()), id, entry)
    {
      entry := Search(id);
      FoundIffIndexed(Model(slots.State()), index, id, entry);
    }

    method Insert(id: K, value: V) returns (result: Result<(), FlatMapError>)
      requires Valid()
      modifies this, slots, slots.queue, slots.queue.buffer
      ensures Valid() && Capacity() == old(Capacity())
      ensures result == Err(KeyAlreadyExists) <==> id in old(Contents())
      ensures result == Err(IsFull) <==> id !in old(Contents()) && |old(Contents())| == Capacity()
      ensures Contents() == if result.Ok? then old(Contents())[id := value] else old(Contents())
    {
      ghost var contents := Contents();
      var present := IsPresent(id, contents);
      if present {
        return Err(KeyAlreadyExists);
      }
      result := InsertAbsent(id, value);
    }

    /** The search that precedes an insertion; the contents stay as they are. */
    method IsPresent(id: K, ghost contents: map<K, V>) returns (present: bool)
      requires Valid() && contents == Contents()
      ensures Valid() && Contents() == contents
      ensures present <==> id in contents
    {
      var entry := Find(id);
      present := entry.Some?;
    }

    method InsertAbsent(id: K, value: V) returns (result: Result<(), FlatMapError>)
      requires Valid() && id !in Contents()
      modifies this, slots, slots.queue, slots.queue.buffer
      ensures Valid() && Capacity() == old(Capacity())
      ensures result == if |old(Contents())| == Capacity() then Err(IsFull) else Ok(())
      ensures Contents() == if result.Ok? then old(Contents())[id := value] else old(Contents())
    {
      ghost var before := slots.State();
      ghost var after, newIndex := IndexAfterInsert(before, index, id, value);
      var key := slots.Insert(Entry(id, value));
      result := if key.Some? then Ok(()) else Err(IsFull);
      SetIndex(after, newIndex);
    }

    ghost method SetIndex(s: Slots<Entry<K, V>>, newIndex: map<K, nat>)
      requires slots.Valid() && slots.State() == s && FlatInv(s, newIndex)
      modifies this`index
      ensures Valid() && slots.State() == s && Contents() == View(Model(s), newIndex)
    {
      index := newIndex;
      assert slots.State() == s;
    }

    method Get(id: K) returns (value: Option<V>)
      requires Valid()
      ensures value == if id in Contents() then Some(Contents()[id]) else None
    {
      var entry := Find(id);
      return if entry.Some? then Some(entry.value.1.value) else None;
    }

    method Contains(id: K) returns (present: bool)
      requires Valid()
      ensures present <==> id in Contents()
    {
      var value := Get(id);
      return value.Some?;
    }

    /** Assigns through the reference that `get_mut_ref` hands out. */
    method Assign(id: K, value: V) returns (present: bool)
      requires Valid()
      modifies this, slots
      ensures Valid() && Capacity() == old(Capacity())
      ensures present <==> id in old(Contents())
      ensures Contents() == if present then old(Contents())[id := value] else old(Contents())
    {
      ghost var before := slots.State();
      var entry := Find(id);
      assert slots.State() == before;
      if entry.None? {
        return false;
      }
      var written := slots.Overwrite(entry.value.0, Entry(id, value));
      FlatReplace(before, index, entry.value.0, value);
      return true;
    }

    method Remove(id: K)
      requires Valid()
      modifies this, slots, slots.queue, slots.queue.buffer
      ensures Valid() && Capacity() == old(Capacity())
      ensures Contents() == old(Contents()) - {id}
    {
      var entry := Find(id);
      if entry.None? {
        AbsentIsGone(Contents(), id);
        return;
      }
      RemoveEntryAt(entry.value.0, id);
    }

    method RemoveEntryAt(key: nat, ghost id: K)
      requires Valid() && key in Model(slots.State()) && Model(slots.State())[key].id == id
      modifies this, slots, slots.queue, slots.queue.buffer
      ensures Valid() && Capacity() == old(Capacity())
      ensures Contents() == old(Contents()) - {id}
    {
      ghost var before, newIndex := slots.State(), index - {id};
      FlatRemove(before, index, key);
      ghost var after := SlotMapState.Remove(before, key).0;
      assert |after.idxToData| == |before.idxToData|;
      var done := slots.Remove(key);
      SetIndex(after, newIndex);
    }

    method Len() returns (n: nat)
      requires Valid()
      ensures n == |Contents()| <= Capacity()
    {
      ViewSize(Model(slots.State()), index);
      n := slots.len;
      assert |slots.State().UsedKeys()| == n;
    }
  }
}

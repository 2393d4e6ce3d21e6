/** The fixed-capacity byte string of iceoryx2-bb/container/src/byte_string.rs. */
module ByteString {
  import opened Callbacks
  import opened Prelude

  newtype u8 = x: int | 0 <= x < 256

  datatype ModificationError = InsertWouldExceedCapacity

  // ------------------------------------------------------------- sequence forms

  function Inserted<T>(s: seq<T>, idx: nat, bytes: seq<T>): seq<T>
    requires idx <= |s|
  {
    s[..idx] + bytes + s[idx..]
  }

  function Removed<T>(s: seq<T>, idx: nat, n: nat): seq<T>
    requires idx + n <= |s|
  {
    s[..idx] + s[idx + n..]
  }

  function Reversed<T>(s: seq<T>): (r: seq<T>) {
    if s == [] then [] else Reversed(s[1..]) + [s[0]]
  }

  /**
   * The elements for which `f` is false, when `f` is asked from the last element to the
   * first and has been asked `before` already.
   */
  function Kept<T>(s: seq<T>, f: Callback<T>, before: seq<T>): (r: seq<T>) {
    if s == [] then [] else (if f(before + Reversed(s)) then [] else [s[0]]) + Kept(s[1..], f, before)
  }

  /** A closure without state: it looks at the latest element only. */
  function Each<T>(p: T -> bool): Callback<T> {
    (asked: seq<T>) => asked != [] && p(asked[|asked| - 1])
  }

  /** The closure sees the very element it decides about. */
  lemma KeptHead<T>(s: seq<T>, p: T -> bool, before: seq<T>)
    requires s != []
    ensures Kept(s, Each(p), before) == (if p(s[0]) then [] else [s[0]]) + Kept(s[1..], Each(p), before)
  {
    var asked := before + Reversed(s);
    assert asked[|asked| - 1] == s[0];
  }

  /** The elements for which `p` is false. */
  function Filtered<T>(s: seq<T>, p: T -> bool): (r: seq<T>) {
    if s == [] then [] else (if p(s[0]) then [] else [s[0]]) + Filtered(s[1..], p)
  }

  /** Without state, asking from the end is plain filtering, whatever was asked before. */
  lemma {:induction false} KeptIsFiltered<T>(s: seq<T>, p: T -> bool, before: seq<T>)
    ensures Kept(s, Each(p), before) == Filtered(s, p)
  {
    if s != [] {
      KeptIsFiltered(s[1..], p, before);
      KeptHead(s, p, before);
    }
  }

  lemma {:induction false} FilteredCounts<T>(s: seq<T>, p: T -> bool, x: T)
    ensures multiset(Filtered(s, p))[x] == if p(x) then 0 else multiset(s)[x]
  {
    if s != [] {
      FilteredCounts(s[1..], p, x);
      assert s == [s[0]] + s[1..];
    }
  }

  /** Exactly the occurrences of bytes that satisfy `p` are gone, whatever was asked before. */
  lemma KeptCounts<T>(s: seq<T>, p: T -> bool, before: seq<T>, x: T)
    ensures multiset(Kept(s, Each(p), before))[x] == if p(x) then 0 else multiset(s)[x]
  {
    KeptIsFiltered(s, p, before);
    FilteredCounts(s, p, x);
  }

  /** Without state, a second pass keeps what the first one kept. */
  lemma KeptForgets<T>(s: seq<T>, p: T -> bool, before: seq<T>)
    ensures Kept(s, Each(p), before) == Kept(s, Each(p), [])
  {
    KeptIsFiltered(s, p, before);
    KeptIsFiltered(s, p, []);
  }

  /** The string after the loop has gone from the end down to position `idx`. */
  ghost function KeptFrom<T>(s: seq<T>, idx: nat, f: Callback<T>, before: seq<T>): (r: seq<T>)
    requires idx <= |s|
    ensures |r| >= idx
  {
    s[..idx] + Kept(s[idx..], f, before)
  }

  /** One step of the loop: position `idx` joins the filtered part. */
  lemma RetainStep<T>(s: seq<T>, idx: nat, f: Callback<T>, before: seq<T>)
    requires idx < |s|
    ensures var done := KeptFrom(s, idx + 1, f, before);
            && done[idx] == s[idx]
            && KeptFrom(s, idx, f, before) == if f(before + Reversed(s[idx..])) then Removed(done, idx, 1) else done
  {
    var rest := Kept(s[idx + 1..], f, before);
    var drop := f(before + Reversed(s[idx..]));
    assert Kept(s[idx..], f, before) == (if drop then [] else [s[idx]]) + rest by {
      assert s[idx..][1..] == s[idx + 1..];
    }
    SpliceStep(s, idx, rest);
  }

  lemma ReversedStep<T>(s: seq<T>, idx: nat)
    requires idx < |s|
    ensures Reversed(s[idx..]) == Reversed(s[idx + 1..]) + [s[idx]]
  {
    assert s[idx..][1..] == s[idx + 1..];
  }

  /** The first byte asked about is the last one. */
  lemma FirstQuestion<T>(s: seq<T>, idx: nat, before: seq<T>)
    requires idx < |s|
    ensures idx + 1 == |s| ==> before + Reversed(s[idx + 1..]) + [s[idx]] == before + [s[|s| - 1]]
  {
    if idx + 1 == |s| {
      assert s[idx + 1..] == [];
    }
  }

  lemma SpliceStep<T>(s: seq<T>, idx: nat, rest: seq<T>)
    requires idx < |s|
    ensures s[..idx] + ([s[idx]] + rest) == s[..idx + 1] + rest
    ensures Removed(s[..idx + 1] + rest, idx, 1) == s[..idx] + ([] + rest)
  {
    var done := s[..idx + 1] + rest;
    assert done[..idx] == s[..idx];
    assert done[idx + 1..] == rest;
    assert [] + rest == rest;
  }

  lemma RetainEnds<T>(s: seq<T>, f: Callback<T>, before: seq<T>)
    ensures KeptFrom(s, |s|, f, before) == s && Reversed(s[|s|..]) == []
    ensures KeptFrom(s, 0, f, before) == Kept(s, f, before) && s[0..] == s
  {
    assert s[|s|..] == [] && s[..|s|] == s && s[0..] == s;
  }

  predicate MatchesAt(s: seq<u8>, bytes: seq<u8>, i: int) {
    0 <= i <= |s| - |bytes| && s[i..i + |bytes|] == bytes
  }

  /** Removing what was inserted, and inserting what was removed, give the string back. */
  lemma InsertRemoveUndo(s: seq<u8>, idx: nat, bytes: seq<u8>)
    requires idx <= |s|
    ensures Removed(Inserted(s, idx, bytes), idx, |bytes|) == s
  {
    var t := Inserted(s, idx, bytes);
    assert t[..idx] == s[..idx] && t[idx + |bytes|..] == s[idx..];
  }

  lemma RemoveInsertUndo(s: seq<u8>, idx: nat, n: nat)
    requires idx + n <= |s|
    ensures Inserted(Removed(s, idx, n), idx, s[idx..idx + n]) == s
  {
    var t := Removed(s, idx, n);
    assert t[..idx] == s[..idx] && t[idx..] == s[idx + n..];
  }

  /** A buffer that holds the bytes before, in and behind the gap starts with the splice. */
  lemma SpliceOf(s: seq<u8>, buffer: seq<u8>, idx: nat, bytes: seq<u8>)
    requires idx <= |s| && |s| + |bytes| <= |buffer|
    requires forall j :: 0 <= j < idx ==> buffer[j] == s[j]
    requires forall j :: 0 <= j < |bytes| ==> buffer[idx + j] == bytes[j]
    requires forall j :: idx + |bytes| <= j < |s| + |bytes| ==> buffer[j] == s[j - |bytes|]
    ensures buffer[..|s| + |bytes|] == Inserted(s, idx, bytes)
  {
    var t := Inserted(s, idx, bytes);
    forall j | 0 <= j < |t| ensures buffer[j] == t[j] {
      if idx <= j < idx + |bytes| {
        assert buffer[idx + (j - idx)] == bytes[j - idx];
      }
    }
  }

  /** A buffer that holds the bytes before and behind the range starts with the rest. */
  lemma CutOf(s: seq<u8>, buffer: seq<u8>, idx: nat, n: nat)
    requires idx + n <= |s| && |s| - n <= |buffer|
    requires forall j :: 0 <= j < idx ==> buffer[j] == s[j]
    requires forall j :: idx <= j < |s| - n ==> buffer[j] == s[j + n]
    ensures buffer[..|s| - n] == Removed(s, idx, n)
  {
  }

  class FixedSizeByteString {
    const data: array<u8>
    var len: nat

    /** The content is followed by a zero byte; behind a full buffer lies a constant zero terminator. */
    ghost predicate Valid()
      reads this, data
    {
      len <= data.Length && (len < data.Length ==> data[len] == 0)
    }

    ghost function Contents(): (s: seq<u8>)
      requires Valid()
      reads this, data
    {
      data[..len]
    }

    constructor (capacity: nat)
      requires capacity > 0
      ensures Valid() && fresh(data) && data.Length == capacity && Contents() == []
    {
      data := new u8[capacity](_ => 0);
      len := 0;
    }

    method Clone() returns (c: FixedSizeByteString)
      requires Valid() && data.Length > 0
      ensures c.Valid() && fresh(c) && fresh(c.data)
      ensures c.data.Length == data.Length && c.Contents() == Contents()
    {
      c := new FixedSizeByteString(data.Length);
      forall i | 0 <= i < len {
        c.data[i] := data[i];
      }
      c.len := len;
      if len < data.Length {
        c.data[len] := 0;
      }
    }

    /** Refused exactly when the result would not fit; otherwise a splice. */
    method InsertBytes(idx: nat, bytes: seq<u8>) returns (result: Result<(), ModificationError>)
      requires Valid() && idx <= len
      requires len + |bytes| <= data.Length ==> idx < data.Length
      modifies this, data
      ensures Valid()
      ensures result.Err? <==> |old(Contents())| + |bytes| > data.Length
      ensures Contents() == if result.Err? then old(Contents()) else Inserted(old(Contents()), idx, bytes)
    {
      if data.Length < len + |bytes| {
        return Err(InsertWouldExceedCapacity);
      }
      InsertBytesUnchecked(idx, bytes);
      return Ok(());
    }

    method InsertBytesUnchecked(idx: nat, bytes: seq<u8>)
      requires Valid() && idx <= len && idx < data.Length && len + |bytes| <= data.Length
      modifies this, data
      ensures Valid() && Contents() == Inserted(old(Contents()), idx, bytes)
    {
      ghost var s := Contents();
      CopyWithin(idx, idx + |bytes|, len - idx);
      WriteAt(idx, bytes);
      SpliceOf(s, data[..], idx, bytes);
      len := len + |bytes|;
      if len < data.Length {
        data[len] := 0;
      }
      assert Contents() == Inserted(s, idx, bytes);
    }

    method WriteAt(idx: nat, bytes: seq<u8>)
      requires idx + |bytes| <= data.Length
      modifies data
      ensures forall j :: 0 <= j < |bytes| ==> data[idx + j] == bytes[j]
      ensures forall j :: 0 <= j < data.Length && !(idx <= j < idx + |bytes|) ==> data[j] == old(data[j])
    {
      for i := 0 to |bytes|
        invariant forall j :: 0 <= j < i ==> data[idx + j] == bytes[j]
        invariant forall j :: 0 <= j < data.Length && !(idx <= j < idx + i) ==> data[j] == old(data[j])
      {
        data[idx + i] := bytes[i];
      }
    }

    /** `core::ptr::copy`: source and destination may overlap. */
    method CopyWithin(from: nat, to: nat, count: nat)
      requires from + count <= data.Length && to + count <= data.Length
      modifies data
      ensures forall j :: to <= j < to + count ==> data[j] == old(data[from + (j - to)])
      ensures forall j :: 0 <= j < data.Length && !(to <= j < to + count) ==> data[j] == old(data[j])
    {
      forall i | 0 <= i < count {
        data[to + i] := data[from + i];
      }
    }

    /** The source indexes the byte behind the range and the byte behind the new content. */
    predicate RangeIsRemovable(idx: nat, n: nat)
      reads this
    {
      idx + n <= len && idx + n < data.Length && len - n < data.Length
    }

    /**
     * An in-range removal is out of bounds in the source exactly on a full string,
     * for an empty range or one that ends at the capacity: `pop` on a full string.
     */
    lemma RemovableIff(idx: nat, n: nat)
      requires Valid() && idx + n <= len
      ensures RangeIsRemovable(idx, n) <==> !(len == data.Length && (n == 0 || idx + n == data.Length))
    {
    }

    method RemoveRange(idx: nat, n: nat)
      requires Valid() && RangeIsRemovable(idx, n)
      modifies this, data
      ensures Valid() && Contents() == Removed(old(Contents()), idx, n)
    {
      ghost var s := Contents();
      CopyWithin(idx + n, idx, len - (idx + n));
      CutOf(s, data[..], idx, n);
      len := len - n;
      data[len] := 0;
      assert Contents() == Removed(s, idx, n);
    }

    method Remove(idx: nat) returns (removed: u8)
      requires Valid() && idx < len && RangeIsRemovable(idx, 1)
      modifies this, data
      ensures Valid() && Contents() == Removed(old(Contents()), idx, 1)
      ensures removed == old(Contents())[idx]
    {
      removed := data[idx];
      RemoveRange(idx, 1);
    }

    /**
     * Drops the bytes for which `f` is true, from the last to the first. The closure may
     * have state: `before` is what it has been asked so far, and the result what it has
     * been asked in the end.
     */
    method Retain(f: Callback<u8>, before: seq<u8>) returns (asked: seq<u8>)
      requires Valid() && (len == data.Length && len > 0 ==> !f(before + [data[len - 1]]))
      modifies this, data
      ensures Valid() && Contents() == Kept(old(Contents()), f, before)
      ensures asked == before + Reversed(old(Contents()))
    {
      ghost var s := Contents();
      var n := len;
      asked := before;
      RetainEnds(s, f, before);
      for idx := n downto 0
        invariant Valid() && Contents() == KeptFrom(s, idx, f, before)
        invariant asked == before + Reversed(s[idx..])
      {
        FirstQuestion(s, idx, before);
        asked := RetainOne(s, idx, f, before, asked);
      }
    }

    /** Asks about one byte and removes it if told so. */
    method RetainOne(ghost s: seq<u8>, idx: nat, f: Callback<u8>, ghost before: seq<u8>, asked: seq<u8>)
      returns (more: seq<u8>)
      requires Valid() && idx < |s| && Contents() == KeptFrom(s, idx + 1, f, before)
      requires asked == before + Reversed(s[idx + 1..])
      requires f(asked + [s[idx]]) ==> RangeIsRemovable(idx, 1)
      modifies this, data
      ensures Valid() && Contents() == KeptFrom(s, idx, f, before)
      ensures more == before + Reversed(s[idx..])
    {
      RetainStep(s, idx, f, before);
      ReversedStep(s, idx);
      more := asked + [data[idx]];
      assert more == before + Reversed(s[idx..]);
      if f(more) {
        var removed := Remove(idx);
      }
    }

    /** The first position at which `bytes` occurs. */
    method Find(bytes: seq<u8>) returns (pos: Option<nat>)
      requires Valid()
      ensures pos.Some? ==> MatchesAt(Contents(), bytes, pos.value)
      ensures pos.Some? ==> forall j :: 0 <= j < pos.value ==> !MatchesAt(Contents(), bytes, j)
      ensures pos.None? ==> forall j :: !MatchesAt(Contents(), bytes, j)
    {
      if len < |bytes| {
        return None;
      }
      for i := 0 to len - |bytes| + 1
        invariant forall j :: 0 <= j < i ==> !MatchesAt(Contents(), bytes, j)
      {
        var found := Occurs(bytes, i);
        if found {
          return Some(i);
        }
      }
      return None;
    }

    /** The last position at which `bytes` occurs. */
    method RFind(bytes: seq<u8>) returns (pos: Option<nat>)
      requires Valid()
      ensures pos.Some? ==> MatchesAt(Contents(), bytes, pos.value)
      ensures pos.Some? ==> forall j :: pos.value < j ==> !MatchesAt(Contents(), bytes, j)
      ensures pos.None? ==> forall j :: !MatchesAt(Contents(), bytes, j)
    {
      if len < |bytes| {
        return None;
      }
      for i := len - |bytes| + 1 downto 0
        invariant forall j :: i <= j ==> !MatchesAt(Contents(), bytes, j)
      {
        var found := Occurs(bytes, i);
        if found {
          return Some(i);
        }
      }
      return None;
    }

    /** The inner loop of both searches. */
    method Occurs(bytes: seq<u8>, i: nat) returns (found: bool)
      requires Valid() && i + |bytes| <= len
      ensures found <==> MatchesAt(Contents(), bytes, i)
    {
      ghost var window := Contents()[i..i + |bytes|];
      for n := 0 to |bytes|
        invariant forall m :: 0 <= m < n ==> window[m] == bytes[m]
      {
        assert window[n] == data[i + n];
        if data[i + n] != bytes[n] {
          return false;
        }
      }
      assert window == bytes;
      return true;
    }

    method StripPrefix(bytes: seq<u8>) returns (stripped: bool)
      requires Valid() && (bytes <= Contents() ==> RangeIsRemovable(0, |bytes|))
      modifies this, data
      ensures Valid()
      ensures stripped <==> bytes <= old(Contents())
      ensures Contents() == if stripped then old(Contents())[|bytes|..] else old(Contents())
    {
      var pos := Find(bytes);
      if pos == Some(0) {
        RemoveRange(0, |bytes|);
        return true;
      }
      assert MatchesAt(Contents(), bytes, 0) <==> bytes <= Contents();
      return false;
    }

    method StripSuffix(bytes: seq<u8>) returns (stripped: bool)
      requires Valid() && (EndsWith(Contents(), bytes) ==> len < data.Length)
      modifies this, data
      ensures Valid()
      ensures stripped <==> EndsWith(old(Contents()), bytes)
      ensures Contents() == if stripped then old(Contents())[..|old(Contents())| - |bytes|] else old(Contents())
    {
      if len < |bytes| {
        return false;
      }
      var at := len - |bytes|;
      assert MatchesAt(Contents(), bytes, at) <==> EndsWith(Contents(), bytes);
      var pos := RFind(bytes);
      if pos != Some(at) {
        assert pos.Some? ==> pos.value < at;
        return false;
      }
      RemoveRange(at, |bytes|);
      return true;
    }

    method Truncate(newLen: nat)
      requires Valid()
      modifies this, data
      ensures Valid()
      ensures Contents() == if |old(Contents())| < newLen then old(Contents()) else old(Contents())[..newLen]
    {
      if len < newLen {
        return;
      }
      len := newLen;
      if len < data.Length {
        data[len] := 0;
      }
    }
  }

  predicate EndsWith(s: seq<u8>, bytes: seq<u8>) {
    |bytes| <= |s| && s[|s| - |bytes|..] == bytes
  }
}

/**
 * Byte strings with a validity rule, iceoryx2-bb/container/src/semantic_string.rs:
 * every edit either ends in valid content or reports an error and changes nothing.
 */
module SemanticString {
  import opened Prelude
  import opened ByteString
  import opened Callbacks

  datatype SemanticStringError = InvalidContent | ExceedsMaximumLength

  /** The length of the scratch string that formats the error message of a failed strip. */
  const MESSAGE_CAPACITY: nat := 123

  class SemanticString {
    const value: FixedSizeByteString
    /** `is_invalid_content` of the concrete string type. */
    const isInvalid: seq<u8> -> bool

    ghost predicate Valid()
      reads this, value, value.data
    {
      value.Valid() && value.data.Length > 0 && !isInvalid(value.Contents())
    }

    ghost function Contents(): (s: seq<u8>)
      requires value.Valid()
      reads this, value, value.data
    {
      value.Contents()
    }

    ghost function Capacity(): nat { value.data.Length }

    /** An empty string, which need not be valid content. */
    constructor NewEmpty(isInvalid: seq<u8> -> bool, capacity: nat)
      requires capacity > 0
      ensures value.Valid() && fresh(value) && fresh(value.data)
      ensures Contents() == [] && Capacity() == capacity && this.isInvalid == isInvalid
    {
      value := new FixedSizeByteString(capacity);
      this.isInvalid := isInvalid;
    }

    /** `Self::new`: an empty string, then a checked push. */
    static method New(isInvalid: seq<u8> -> bool, capacity: nat, bytes: seq<u8>)
      returns (result: Result<SemanticString, SemanticStringError>)
      requires capacity > 0 && (isInvalid(bytes) ==> |bytes| != capacity)
      ensures result == Err(ExceedsMaximumLength) <==> |bytes| > capacity
      ensures result == Err(InvalidContent) <==> |bytes| <= capacity && isInvalid(bytes)
      ensures result.Ok? <==> |bytes| <= capacity && !isInvalid(bytes)
      ensures result.Ok? ==> var s := result.value;
                fresh(s) && fresh(s.value) && fresh(s.value.data)
                && s.Valid() && s.Contents() == bytes && s.Capacity() == capacity && s.isInvalid == isInvalid
    {
      var s := new SemanticString.NewEmpty(isInvalid, capacity);
      assert Inserted(s.Contents(), 0, bytes) == bytes;
      var pushed := s.InsertBytes(0, bytes);
      if pushed.Err? {
        return Err(pushed.error);
      }
      return Ok(s);
    }

    /** Inserts first and takes the bytes out again when the content turns out invalid. */
    method InsertBytes(idx: nat, bytes: seq<u8>) returns (result: Result<(), SemanticStringError>)
      requires value.Valid() && idx <= |Contents()|
      requires |Contents()| + |bytes| <= Capacity() ==> idx < Capacity()
      requires |Contents()| + |bytes| <= Capacity() && isInvalid(Inserted(Contents(), idx, bytes)) ==>
                 idx + |bytes| < Capacity() && |Contents()| < Capacity()
      modifies value, value.data
      ensures value.Valid() && (result.Ok? || old(Valid()) ==> Valid())
      ensures result == Err(ExceedsMaximumLength) <==> |old(Contents())| + |bytes| > Capacity()
      ensures result == Err(InvalidContent) <==>
                |old(Contents())| + |bytes| <= Capacity() && isInvalid(Inserted(old(Contents()), idx, bytes))
      ensures result.Ok? <==> |old(Contents())| + |bytes| <= Capacity() && !isInvalid(Inserted(old(Contents()), idx, bytes))
      ensures Contents() == if result.Ok? then Inserted(old(Contents()), idx, bytes) else old(Contents())
    {
      var inserted := value.InsertBytes(idx, bytes);
      if inserted.Err? {
        return Err(ExceedsMaximumLength);
      }
      if isInvalid(value.data[..value.len]) {
        InsertRemoveUndo(old(Contents()), idx, bytes);
        value.RemoveRange(idx, |bytes|);
        return Err(InvalidContent);
      }
      return Ok(());
    }

    /** Removes first and puts the byte back when the content turns out invalid. */
    method Remove(idx: nat) returns (result: Result<u8, SemanticStringError>)
      requires Valid() && idx < |Contents()| && idx + 1 < Capacity()
      modifies value, value.data
      ensures Valid()
      ensures result == Err(InvalidContent) <==> isInvalid(Removed(old(Contents()), idx, 1))
      ensures result.Ok? ==> result.value == old(Contents())[idx]
      ensures result != Err(ExceedsMaximumLength)
      ensures Contents() == if result.Ok? then Removed(old(Contents()), idx, 1) else old(Contents())
    {
      ghost var s := Contents();
      var removed := value.Remove(idx);
      if isInvalid(value.data[..value.len]) {
        RemoveInsertUndo(s, idx, 1);
        assert s[idx..idx + 1] == [removed];
        var inserted := value.InsertBytes(idx, [removed]);
        assert inserted.Ok?;
        return Err(InvalidContent);
      }
      return Ok(removed);
    }

    method RemoveRange(idx: nat, n: nat) returns (result: Result<(), SemanticStringError>)
      requires Valid() && value.RangeIsRemovable(idx, n)
      modifies value, value.data
      ensures Valid()
      ensures result.Err? <==> isInvalid(Removed(old(Contents()), idx, n))
      ensures result != Err(ExceedsMaximumLength)
      ensures Contents() == if result.Ok? then Removed(old(Contents()), idx, n) else old(Contents())
    {
      var temp := value.Clone();
      assert temp.len == |temp.Contents()| == |Contents()| == value.len;
      temp.RemoveRange(idx, n);
      if isInvalid(temp.data[..temp.len]) {
        return Err(InvalidContent);
      }
      value.RemoveRange(idx, n);
      return Ok(());
    }

    /**
     * Drops the bytes for which `f` is true. The closure is asked twice: on a copy that is
     * checked, then on the string itself.
     */
    method Retain(f: Callback<u8>) returns (result: Result<(), SemanticStringError>)
      requires Valid()
      requires |Contents()| == Capacity() ==>
                 var last := Contents()[Capacity() - 1];
                 !f([last]) && (isInvalid(Kept(Contents(), f, [])) || !f(Reversed(Contents()) + [last]))
      modifies value, value.data
      ensures value.Valid()
      ensures result.Err? <==> isInvalid(Kept(old(Contents()), f, []))
      ensures result != Err(ExceedsMaximumLength)
      ensures Contents() == if result.Ok? then Kept(old(Contents()), f, Reversed(old(Contents()))) else old(Contents())
      ensures result.Err? || Stateless(f) ==> Valid()
      ensures result.Ok? && Stateless(f) ==> Contents() == Kept(old(Contents()), f, [])
    {
      var temp := value.Clone();
      assert temp.len == |temp.Contents()| == |Contents()| == value.len;
      assert temp.len > 0 ==> temp.data[temp.len - 1] == temp.Contents()[temp.len - 1] == value.data[value.len - 1];
      assert temp.len > 0 ==> [] + [temp.data[temp.len - 1]] == [temp.data[temp.len - 1]];
      var asked := temp.Retain(f, []);
      assert asked == Reversed(old(Contents()));
      if isInvalid(temp.data[..temp.len]) {
        return Err(InvalidContent);
      }
      asked := value.Retain(f, asked);
      if Stateless(f) {
        SecondPassAgrees(old(Contents()), f);
      }
      return Ok(());
    }

    /** What the strips demand: removable in the source, and a short pattern when the result is invalid. */
    ghost predicate StripIsDefined(stripped: seq<u8>, bytes: seq<u8>)
      reads this, value
    {
      && (value.len == value.data.Length ==> bytes != [] && |bytes| < value.data.Length)
      && (isInvalid(stripped) ==> |bytes| <= MESSAGE_CAPACITY)
    }

    method StripPrefix(bytes: seq<u8>) returns (result: Result<bool, SemanticStringError>)
      requires Valid() && (bytes <= Contents() ==> StripIsDefined(Contents()[|bytes|..], bytes))
      modifies value, value.data
      ensures Valid()
      ensures result == Ok(false) <==> !(bytes <= old(Contents()))
      ensures result == Err(InvalidContent) <==> bytes <= old(Contents()) && isInvalid(old(Contents())[|bytes|..])
      ensures result == Ok(true) <==> bytes <= old(Contents()) && !isInvalid(old(Contents())[|bytes|..])
      ensures Contents() == if result == Ok(true) then old(Contents())[|bytes|..] else old(Contents())
    {
      var temp := value.Clone();
      assert temp.len == |temp.Contents()| == |Contents()| == value.len;
      var found := temp.StripPrefix(bytes);
      if !found {
        return Ok(false);
      }
      if isInvalid(temp.data[..temp.len]) {
        var message := new FixedSizeByteString(MESSAGE_CAPACITY);
        message.InsertBytesUnchecked(0, bytes);
        return Err(InvalidContent);
      }
      var stripped := value.StripPrefix(bytes);
      return Ok(true);
    }

    method StripSuffix(bytes: seq<u8>) returns (result: Result<bool, SemanticStringError>)
      requires Valid()
      requires EndsWith(Contents(), bytes) ==>
                 && |Contents()| < Capacity()
                 && StripIsDefined(Contents()[..|Contents()| - |bytes|], bytes)
      modifies value, value.data
      ensures Valid()
      ensures result == Ok(false) <==> !EndsWith(old(Contents()), bytes)
      ensures result == Err(InvalidContent) <==>
                EndsWith(old(Contents()), bytes) && isInvalid(old(Contents())[..|old(Contents())| - |bytes|])
      ensures result == Ok(true) <==>
                EndsWith(old(Contents()), bytes) && !isInvalid(old(Contents())[..|old(Contents())| - |bytes|])
      ensures Contents() == if result == Ok(true) then old(Contents())[..|old(Contents())| - |bytes|] else old(Contents())
    {
      var temp := value.Clone();
      assert temp.len == |temp.Contents()| == |Contents()| == value.len;
      var found := temp.StripSuffix(bytes);
      if !found {
        return Ok(false);
      }
      if isInvalid(temp.data[..temp.len]) {
        var message := new FixedSizeByteString(MESSAGE_CAPACITY);
        message.InsertBytesUnchecked(0, bytes);
        return Err(InvalidContent);
      }
      var stripped := value.StripSuffix(bytes);
      return Ok(true);
    }

    method Truncate(newLen: nat) returns (result: Result<(), SemanticStringError>)
      requires Valid()
      modifies value, value.data
      ensures Valid()
      ensures result.Err? <==> newLen <= |old(Contents())| && isInvalid(old(Contents())[..newLen])
      ensures result != Err(ExceedsMaximumLength)
      ensures Contents() == if result.Ok? && newLen <= |old(Contents())| then old(Contents())[..newLen] else old(Contents())
    {
      var temp := value.Clone();
      temp.Truncate(newLen);
      if isInvalid(temp.data[..temp.len]) {
        return Err(InvalidContent);
      }
      value.Truncate(newLen);
      return Ok(());
    }
  }

  ghost predicate Stateless(f: Callback<u8>) {
    exists p: u8 -> bool :: f == Each(p)
  }

  lemma SecondPassAgrees(s: seq<u8>, f: Callback<u8>)
    requires Stateless(f)
    ensures Kept(s, f, Reversed(s)) == Kept(s, f, [])
  {
    var p: u8 -> bool :| f == Each(p);
    KeptForgets(s, p, Reversed(s));
  }

  /** Under this rule, what `Retain` leaves behind is valid when what it checked is. */
  ghost predicate RuleSurvives(isInvalid: seq<u8> -> bool, s: seq<u8>, f: Callback<u8>) {
    !isInvalid(s) && !isInvalid(Kept(s, f, [])) ==> !isInvalid(Kept(s, f, Reversed(s)))
  }

  /**
   * For a given string and closure, the content rule survives whatever it is exactly when
   * the second pass repeats the first or removes nothing.
   */
  lemma EveryRuleSurvivesIff(s: seq<u8>, f: Callback<u8>)
    ensures (forall isInvalid :: RuleSurvives(isInvalid, s, f)) <==>
            Kept(s, f, Reversed(s)) == Kept(s, f, []) || Kept(s, f, Reversed(s)) == s
  {
    var left := Kept(s, f, Reversed(s));
    if left != Kept(s, f, []) && left != s {
      var isInvalid := (bytes: seq<u8>) => bytes == left;
      assert !RuleSurvives(isInvalid, s, f);
    }
  }

  /** A closure that changes its mind in the second pass leaves contents that break the rule. */
  lemma StatefulRetainBreaksRule() returns (isInvalid: seq<u8> -> bool, s: seq<u8>, f: Callback<u8>)
    ensures !isInvalid(s) && !isInvalid(Kept(s, f, [])) && isInvalid(Kept(s, f, Reversed(s)))
  {
    isInvalid := (bytes: seq<u8>) => bytes == [];
    s := [65];
    f := (asked: seq<u8>) => |asked| > 1;
    assert Reversed(s) == s;
    assert [] + Reversed(s) == s;
    assert Kept(s, f, []) == s && Kept(s, f, s) == [];
  }
}

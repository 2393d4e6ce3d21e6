/** File names of named concepts, iceoryx2-cal/src/named_concept.rs: prefix, name, suffix. */
module NamedConcept {
  import opened Prelude
  import opened ByteString
  import opened SemanticString

  /** The file name under which a concept is stored. */
  function FileNameFor(prefix: seq<u8>, name: seq<u8>, suffix: seq<u8>): seq<u8> {
    prefix + name + suffix
  }

  function Extracted(file: seq<u8>, prefix: seq<u8>, suffix: seq<u8>): (name: Option<seq<u8>>)
  {
    if !(prefix <= file) then None
    else if !EndsWith(file[|prefix|..], suffix) then None
    else Some(file[|prefix|..|file| - |suffix|])
  }

  /** A name is extracted exactly from the file names that are built from it. */
  lemma ExtractsExactlyItsFiles(file: seq<u8>, prefix: seq<u8>, name: seq<u8>, suffix: seq<u8>)
    ensures Extracted(file, prefix, suffix) == Some(name) <==> file == FileNameFor(prefix, name, suffix)
  {
    if file == FileNameFor(prefix, name, suffix) {
      assert prefix <= file && file[|prefix|..] == name + suffix;
      assert (name + suffix)[|name|..] == suffix;
    }
    if Extracted(file, prefix, suffix) == Some(name) {
      var rest := file[|prefix|..];
      assert file == prefix + rest;
      assert rest == rest[..|rest| - |suffix|] + rest[|rest| - |suffix|..];
      assert rest[..|rest| - |suffix|] == name;
    }
  }

  /** Different names never share a file name. */
  lemma FileNamesAreUnique(prefix: seq<u8>, name: seq<u8>, other: seq<u8>, suffix: seq<u8>)
    requires FileNameFor(prefix, name, suffix) == FileNameFor(prefix, other, suffix)
    ensures name == other
  {
    ExtractsExactlyItsFiles(FileNameFor(prefix, name, suffix), prefix, name, suffix);
    ExtractsExactlyItsFiles(FileNameFor(prefix, name, suffix), prefix, other, suffix);
  }

  /** The source panics when a strip leaves an invalid file name. */
  ghost predicate StripsStayValid(isInvalid: seq<u8> -> bool, file: seq<u8>, prefix: seq<u8>, suffix: seq<u8>) {
    prefix <= file ==>
      && !isInvalid(file[|prefix|..])
      && (EndsWith(file[|prefix|..], suffix) ==> !isInvalid(file[|prefix|..|file| - |suffix|]))
  }

  /** Strips a copy of the file name in place, first the prefix, then the suffix. */
  method ExtractNameFromFile(value: SemanticString, prefix: seq<u8>, suffix: seq<u8>) returns (name: Option<seq<u8>>)
    requires value.Valid() && StripsStayValid(value.isInvalid, value.Contents(), prefix, suffix)
    requires |value.Contents()| == value.Capacity() && prefix <= value.Contents() ==> 0 < |prefix| < value.Capacity()
    ensures name == Extracted(value.Contents(), prefix, suffix)
    ensures name.Some? ==> FileNameFor(prefix, name.value, suffix) == value.Contents() && !value.isInvalid(name.value)
    ensures name.None? ==> forall n :: FileNameFor(prefix, n, suffix) != value.Contents()
  {
    ghost var s := value.Contents();
    forall n ensures Extracted(s, prefix, suffix) == Some(n) <==> s == FileNameFor(prefix, n, suffix) {
      ExtractsExactlyItsFiles(s, prefix, n, suffix);
    }
    var file := Clone(value);
    var stripped := file.StripPrefix(prefix);
    if stripped == Ok(false) {
      return None;
    }
    assert stripped.Ok?;
    ghost var rest := s[|prefix|..];
    assert file.Contents() == rest;
    assert EndsWith(rest, suffix) ==> rest[..|rest| - |suffix|] == s[|prefix|..|s| - |suffix|];
    stripped := file.StripSuffix(suffix);
    if stripped == Ok(false) {
      return None;
    }
    assert stripped.Ok?;
    return Some(file.value.data[..file.value.len]);
  }

  method Clone(value: SemanticString) returns (copy: SemanticString)
    requires value.Valid()
    ensures copy.Valid() && fresh(copy) && fresh(copy.value) && fresh(copy.value.data)
    ensures copy.Contents() == value.Contents() && copy.Capacity() == value.Capacity() && copy.isInvalid == value.isInvalid
  {
    var bytes := value.value.data[..value.value.len];
    var result := SemanticString.New(value.isInvalid, value.value.data.Length, bytes);
    assert result.Ok?;
    copy := result.value;
  }
}

/** Types and small sequence facts shared by the other modules. */
module Prelude {

  datatype Option<+T> = None | Some(value: T)

  datatype Result<+T, +E> = Ok(value: T) | Err(error: E)

  ghost predicate Distinct<T>(s: seq<T>) {
    forall i, j :: 0 <= i < j < |s| ==> s[i] != s[j]
  }

  /** The sequence without its element at position `i`. */
  function Without<T>(s: seq<T>, i: nat): (r: seq<T>)
    requires i < |s|
  {
    s[..i] + s[i + 1..]
  }

  lemma WithoutAt<T>(s: seq<T>, p: nat, i: nat)
    requires p < |s| && i < |s| - 1
    ensures Without(s, p)[i] == s[if i < p then i else i + 1]
  {
  }

  /** A sequence of distinct naturals below `n` has at most `n` elements. */
  lemma {:induction false} DistinctIsBounded(s: seq<nat>, n: nat)
    requires Distinct(s)
    requires forall i :: 0 <= i < |s| ==> s[i] < n
    ensures |s| <= n
  {
    var values := set i | 0 <= i < |s| :: s[i];
    DistinctSize(s, values);
    assert values <= UpTo(n);
    SubsetSize(values, UpTo(n));
  }

  /** The naturals below `n`. */
  function UpTo(n: nat): (r: set<nat>)
    ensures forall x :: x in r <==> 0 <= x < n
    ensures |r| == n
  {
    if n == 0 then {} else UpTo(n - 1) + {n - 1}
  }

  lemma {:induction false} SubsetSize<T>(a: set<T>, b: set<T>)
    requires a <= b
    ensures |a| <= |b|
    ensures |a| == |b| ==> a == b
  {
    if a != {} {
      var x :| x in a;
      SubsetSize(a - {x}, b - {x});
    }
  }

  lemma {:induction false} DistinctSize<T>(s: seq<T>, values: set<T>)
    requires Distinct(s)
    requires values == set i | 0 <= i < |s| :: s[i]
    ensures |values| == |s|
  {
    if s != [] {
      var front := s[..|s| - 1];
      var last := s[|s| - 1];
      var rest := set i | 0 <= i < |front| :: front[i];
      DistinctSize(front, rest);
      assert values == rest + {last} by {
        forall x | x in values ensures x in rest + {last} {
          var i :| 0 <= i < |s| && s[i] == x;
          if i < |front| { assert front[i] == x; }
        }
        forall x | x in rest ensures x in values {
          var i :| 0 <= i < |front| && front[i] == x;
          assert s[i] == x;
        }
        assert s[|s| - 1] in values;
      }
      assert last !in rest;
    }
  }

  lemma {:induction false} InjectiveImageSize<A(!new), B>(keys: set<A>, f: A --> B, image: set<B>)
    requires forall k :: k in keys ==> f.requires(k)
    requires image == set k | k in keys :: f(k)
    requires forall j, k :: j in keys && k in keys && j != k ==> f(j) != f(k)
    ensures |image| == |keys|
  {
    if keys != {} {
      var x :| x in keys;
      var rest := set k | k in keys - {x} :: f(k);
      InjectiveImageSize(keys - {x}, f, rest);
      assert image == rest + {f(x)};
    }
  }
}

/**
 * User callbacks that answer Continue or Stop. A callback is a predicate on the
 * sequence of arguments it has been given so far, the latest one included: it
 * says whether the answer to that latest argument is Stop.
 */
module Callbacks {

  type Callback<!T> = seq<T> -> bool

  /** Some call so far was answered with Stop. */
  predicate Stopped<T>(stop: Callback<T>, called: seq<T>) {
    exists n :: 0 < n <= |called| && stop(called[..n])
  }

  /** `called` is `all`, cut right after the first Stop. */
  ghost predicate CutAtStop<T>(all: seq<T>, stop: Callback<T>, called: seq<T>) {
    && called <= all
    && (forall n :: 0 < n < |called| ==> !stop(called[..n]))
    && (|called| < |all| ==> called != [] && stop(called))
  }

  /** One more call: either all calls continued so far, or this one is the Stop. */
  lemma OneMoreCall<T>(all: seq<T>, stop: Callback<T>, called: seq<T>, x: T)
    requires !Stopped(stop, called) && called + [x] <= all
    ensures stop(called + [x]) ==> CutAtStop(all, stop, called + [x])
    ensures !stop(called + [x]) ==> !Stopped(stop, called + [x])
  {
    var more := called + [x];
    assert forall n :: 0 < n <= |called| ==> more[..n] == called[..n];
    assert more[..|more|] == more;
  }

  /** There is only one way to cut. */
  lemma CutIsUnique<T>(all: seq<T>, stop: Callback<T>, c: seq<T>, d: seq<T>)
    requires CutAtStop(all, stop, c) && CutAtStop(all, stop, d)
    ensures c == d
  {
    CutIsShortest(all, stop, c, d);
    CutIsShortest(all, stop, d, c);
    assert c == all[..|c|] && d == all[..|d|];
  }

  lemma CutIsShortest<T>(all: seq<T>, stop: Callback<T>, c: seq<T>, d: seq<T>)
    requires CutAtStop(all, stop, c) && CutAtStop(all, stop, d)
    ensures |c| <= |d|
  {
    var n := if |d| < |c| then |d| else |c|;
    assert c[..n] == all[..n];
    assert d == all[..|d|];
  }

  /** Everything is handed out exactly when no call but the last is answered with Stop. */
  lemma AllDeliveredIff<T>(all: seq<T>, stop: Callback<T>, called: seq<T>)
    requires CutAtStop(all, stop, called)
    ensures called == all <==> forall n :: 0 < n < |all| ==> !stop(all[..n])
  {
    assert called == all[..|called|];
    assert forall n :: 0 < n <= |called| ==> called[..n] == all[..n];
  }

  /** Nothing is cut off when no call stops. */
  lemma UncutIsAll<T>(all: seq<T>, stop: Callback<T>, called: seq<T>)
    requires CutAtStop(all, stop, called) && !Stopped(stop, called)
    ensures called == all
  {
    assert called[..|called|] == called;
  }

  /** A list that was cut short ends with the Stop. */
  lemma CutPrefix<T>(first: seq<T>, second: seq<T>, stop: Callback<T>, called: seq<T>)
    requires CutAtStop(first, stop, called) && Stopped(stop, called)
    ensures CutAtStop(first + second, stop, called) && called != [] && stop(called)
  {
    var n :| 0 < n <= |called| && stop(called[..n]);
    assert n == |called|;
    assert called[..n] == called;
  }
}

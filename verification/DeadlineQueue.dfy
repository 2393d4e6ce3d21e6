/** The mutable deadline queue of iceoryx2-bb/posix/src/deadline_queue.rs. */
module DeadlineQueue {
  import opened Prelude
  import opened Callbacks
  import opened D = Deadlines
  import Math

  /** `Duration::MAX` in nanoseconds. */
  const DURATION_MAX: nat := 0xFFFF_FFFF_FFFF_FFFF * 1_000_000_000 + 999_999_999
  const U128_MAX: nat := 0xFFFF_FFFF_FFFF_FFFF_FFFF_FFFF_FFFF_FFFF

  /** `d` is the distance from `now` to the earliest later boundary of any attachment. */
  ghost predicate IsDistanceToNext(attachments: seq<Attachment>, now: nat, d: nat) {
    && (exists i, k: nat :: 0 <= i < |attachments| && k >= 1 && Boundary(attachments[i], k) == now + d)
    && (forall i, k: nat :: 0 <= i < |attachments| && k >= 1 && now < Boundary(attachments[i], k) ==>
          now + d <= Boundary(attachments[i], k))
  }

  /** The time left until the current period of `a` ends. */
  function Remaining(a: Attachment, now: nat): (d: nat)
    requires a.start <= now && a.period > 0
    ensures d > 0
  {
    a.period - (now - a.start) % a.period
  }

  class DeadlineQueue {
    var attachments: seq<Attachment>
    var idCount: nat
    var previousIteration: nat
    /** The latest time at which the clock was read. */
    ghost var clock: nat

    ghost function State(): (d: Deadlines)
      reads this
    {
      Deadlines(attachments, idCount, previousIteration, clock)
    }

    ghost predicate Valid()
      reads this
    {
      Inv(State()) && forall i :: 0 <= i < |attachments| ==> attachments[i].period <= DURATION_MAX
    }

    constructor (now: nat)
      ensures Valid() && State() == Deadlines([], 0, now, now)
    {
      attachments, idCount, previousIteration, clock := [], 0, now, now;
    }

    method AddDeadlineInterval(deadline: nat, now: nat) returns (index: nat)
      requires Valid() && clock <= now && deadline <= DURATION_MAX
      modifies this
      ensures Valid() && State() == Step(old(State()), Add(deadline, now))
      ensures index == old(idCount)
    {
      index := idCount;
      attachments := attachments + [Attachment(index, deadline, now)];
      idCount := idCount + 1;
      clock := now;
    }

    method Remove(index: nat)
      requires Valid()
      modifies this`attachments
      ensures Valid() && State() == Step(old(State()), D.Remove(index))
    {
      var found := None;
      for n := 0 to |attachments|
        invariant found.None?
        invariant forall j :: 0 <= j < n ==> attachments[j].index != index
      {
        if attachments[n].index == index {
          found := Some(n);
          break;
        }
      }
      if found.Some? {
        attachments := Without(attachments, found.value);
      }
    }

    method Reset(index: nat, now: nat)
      requires Valid() && clock <= now
      modifies this`attachments, this`clock
      ensures Valid() && State() == Step(old(State()), D.Reset(index, now))
    {
      clock := now;
      for n := 0 to |attachments|
        invariant attachments == old(attachments)
        invariant forall j :: 0 <= j < n ==> attachments[j].index != index
      {
        if attachments[n].index == index {
          attachments := attachments[n := attachments[n].(start := now)];
          break;
        }
      }
    }

    /** The indices passed to the callback: the missed ones in order, up to the first Stop. */
    method HandleMissedDeadlines(now: nat, call: Callback<nat>) returns (called: seq<nat>)
      requires Valid() && clock <= now
      ensures CutAtStop(Missed(attachments, previousIteration, now), call, called)
    {
      var last := previousIteration;
      called := [];
      for i := 0 to |attachments|
        invariant called == Missed(attachments[..i], last, now)
        invariant !Stopped(call, called)
      {
        var a := attachments[i];
        MissedNext(attachments, i, last, now);
        if IsMissed(a, last, now) {
          MissedPrefix(attachments, i + 1, last, now);
          OneMoreCall(Missed(attachments, last, now), call, called, a.index);
          called := called + [a.index];
          if call(called) {
            return;
          }
        }
      }
      assert attachments[..|attachments|] == attachments;
    }

    method DurationUntilNextDeadline(now: nat) returns (d: nat)
      requires Valid() && clock <= now
      modifies this`previousIteration, this`clock
      ensures Valid() && State() == Step(old(State()), Wait(now))
      ensures attachments == [] ==> d == DURATION_MAX
      ensures attachments != [] && Missed(attachments, old(previousIteration), now) != [] ==> d == 0
      ensures attachments != [] && Missed(attachments, old(previousIteration), now) == [] ==>
                exists distance :: 0 < distance && IsDistanceToNext(attachments, now, distance) && d == distance % Math.WORD
    {
      clock := now;
      if attachments == [] {
        return DURATION_MAX;
      }
      var missed := HandleMissedDeadlines(now, _ => true);
      if missed != [] {
        return 0;
      }
      NoZeroPeriod(attachments, previousIteration, now);
      var minTime := MinimalDistance(now);
      previousIteration := now;
      return minTime % Math.WORD;
    }

    method MinimalDistance(now: nat) returns (minTime: nat)
      requires attachments != []
      requires forall i :: 0 <= i < |attachments| ==>
                 attachments[i].start <= now && 0 < attachments[i].period <= DURATION_MAX
      ensures 0 < minTime && IsDistanceToNext(attachments, now, minTime)
    {
      minTime := U128_MAX;
      for i := 0 to |attachments|
        invariant i == 0 ==> minTime == U128_MAX
        invariant i > 0 ==> 0 < minTime && IsDistanceToNext(attachments[..i], now, minTime)
      {
        var distance := Remaining(attachments[i], now);
        NextOfOneMore(attachments, i, now, minTime);
        minTime := if distance < minTime then distance else minTime;
      }
      assert attachments[..|attachments|] == attachments;
    }

    method MissedDeadlines(now: nat, call: Callback<nat>) returns (called: seq<nat>)
      requires Valid() && clock <= now
      modifies this`previousIteration, this`clock
      ensures Valid() && State() == Step(old(State()), Poll(now))
      ensures CutAtStop(Reports(old(State()), Poll(now)), call, called)
    {
      called := HandleMissedDeadlines(now, call);
      previousIteration := now;
      clock := now;
    }
  }

  lemma MissedNext(attachments: seq<Attachment>, i: nat, last: nat, now: nat)
    requires i < |attachments| && forall j :: 0 <= j < |attachments| ==> attachments[j].start <= now
    ensures Missed(attachments[..i + 1], last, now) ==
            Missed(attachments[..i], last, now) + if IsMissed(attachments[i], last, now) then [attachments[i].index] else []
  {
    assert attachments[..i + 1][..i] == attachments[..i];
  }

  lemma {:induction false} MissedPrefix(attachments: seq<Attachment>, i: nat, last: nat, now: nat)
    requires i <= |attachments| && forall j :: 0 <= j < |attachments| ==> attachments[j].start <= now
    ensures Missed(attachments[..i], last, now) <= Missed(attachments, last, now)
    decreases |attachments| - i
  {
    if i == |attachments| {
      assert attachments[..i] == attachments;
    } else {
      MissedNext(attachments, i, last, now);
      MissedPrefix(attachments, i + 1, last, now);
    }
  }

  /** When nothing is missed no period is zero: the modulo below is always defined. */
  lemma NoZeroPeriod(attachments: seq<Attachment>, last: nat, now: nat)
    requires forall j :: 0 <= j < |attachments| ==> attachments[j].start <= now
    requires Missed(attachments, last, now) == []
    ensures forall j :: 0 <= j < |attachments| ==> attachments[j].period > 0
  {
    forall j | 0 <= j < |attachments| ensures attachments[j].period > 0 {
      MissedContains(attachments, last, now, attachments[j].index);
    }
  }

  /** One step of the minimum: the distance of attachment `i` joins those before it. */
  lemma NextOfOneMore(attachments: seq<Attachment>, i: nat, now: nat, minTime: nat)
    requires i < |attachments| && attachments[i].start <= now && 0 < attachments[i].period <= DURATION_MAX
    requires if i == 0 then minTime == U128_MAX else 0 < minTime && IsDistanceToNext(attachments[..i], now, minTime)
    ensures var distance := Remaining(attachments[i], now);
            IsDistanceToNext(attachments[..i + 1], now, if distance < minTime then distance else minTime)
  {
    var a, distance := attachments[i], Remaining(attachments[i], now);
    var d := if distance < minTime then distance else minTime;
    var front, all := attachments[..i], attachments[..i + 1];
    RemainderIsDistance(a, now);
    assert all[i] == a && forall j :: 0 <= j < i ==> all[j] == front[j];
    if i > 0 && minTime <= distance {
      var j, k: nat :| 0 <= j < |front| && k >= 1 && Boundary(front[j], k) == now + minTime;
      assert Boundary(all[j], k) == now + minTime;
    } else {
      assert Boundary(all[i], (now - a.start) / a.period + 1) == now + distance;
    }
    forall j, k: nat | 0 <= j < |all| && k >= 1 && now < Boundary(all[j], k) ensures now + d <= Boundary(all[j], k) {
      if j < i {
        assert now < Boundary(front[j], k);
      }
    }
  }

  /**
   * The cut to 64 bits keeps the distance exactly when some attachment has less
   * than 2^64 nanoseconds left.
   */
  lemma WaitIsExactIff(attachments: seq<Attachment>, now: nat, d: nat)
    requires forall i :: 0 <= i < |attachments| ==> attachments[i].start <= now && attachments[i].period > 0
    requires 0 < d && IsDistanceToNext(attachments, now, d)
    ensures d % Math.WORD == d <==> exists i :: 0 <= i < |attachments| && Remaining(attachments[i], now) < Math.WORD
  {
    var i, k: nat :| 0 <= i < |attachments| && k >= 1 && Boundary(attachments[i], k) == now + d;
    RemainderIsDistance(attachments[i], now);
    if j :| 0 <= j < |attachments| && Remaining(attachments[j], now) < Math.WORD {
      RemainderIsDistance(attachments[j], now);
    }
  }

  lemma MissedOfTwo(a: Attachment, b: Attachment, last: nat, now: nat)
    requires a.start <= now && b.start <= now
    ensures Missed([a, b], last, now) ==
            (if IsMissed(a, last, now) then [a.index] else []) + (if IsMissed(b, last, now) then [b.index] else [])
  {
    var all := [a, b];
    assert all[..0] == [] && all[..1] == [a] && all[..2] == all;
    MissedNext(all, 0, last, now);
    MissedNext(all, 1, last, now);
  }

  /** One interval of 2^64 nanoseconds: nothing is missed, yet the wait is cut from 2^64 to zero. */
  lemma CutWaitIsZero() returns (d: Deadlines)
    ensures d == Step(Deadlines([], 0, 0, 0), Add(Math.WORD, 0)) && D.Inv(d)
    ensures Missed(d.attachments, d.previous, 0) == []
    ensures IsDistanceToNext(d.attachments, 0, Math.WORD) && Math.WORD % Math.WORD == 0
  {
    d := Step(Deadlines([], 0, 0, 0), Add(Math.WORD, 0));
    var a := Attachment(0, Math.WORD, 0);
    assert d.attachments == [a] && [a][..0] == [];
    assert Missed([], 0, 0) == [];
    assert Boundary(a, 1) == Math.WORD;
    assert Boundary(d.attachments[0], 1) == 0 + Math.WORD;
  }

  lemma TwoIntervals() returns (d: Deadlines)
    ensures var adds, empty := [Add(10, 0), Add(10, 0)], Deadlines([], 0, 0, 0);
            Feasible(empty, adds) && d == Run(empty, adds)
    ensures d == Deadlines([Attachment(0, 10, 0), Attachment(1, 10, 0)], 2, 0, 0)
  {
    var one := Step(Deadlines([], 0, 0, 0), Add(10, 0));
    d := Step(one, Add(10, 0));
    var adds := [Add(10, 0), Add(10, 0)];
    assert adds[1..] == [Add(10, 0)] && adds[1..][1..] == [];
    assert Feasible(d, []) && Run(d, []) == d;
    assert Feasible(one, adds[1..]) && Run(one, adds[1..]) == d;
  }

  /**
   * A Stop loses what was not handed out yet: two intervals are due at time 10, the
   * callback stops after the first, and the second is not reported at time 19 either.
   */
  lemma StopLosesInterval() returns (d: Deadlines, called: seq<nat>)
    ensures var adds, empty := [Add(10, 0), Add(10, 0)], Deadlines([], 0, 0, 0);
            Feasible(empty, adds) && d == Run(empty, adds)
    ensures D.Inv(d) && d.clock <= 10 && Reports(d, Poll(10)) == [0, 1]
    ensures CutAtStop(Reports(d, Poll(10)), (_: seq<nat>) => true, called) && called == [0]
    ensures Reports(Step(d, Poll(10)), Poll(19)) == []
  {
    d := TwoIntervals();
    TwoReports(d);
    CutAfterFirst(0, 1);
    called := [0];
  }

  lemma TwoReports(d: Deadlines)
    requires d == Deadlines([Attachment(0, 10, 0), Attachment(1, 10, 0)], 2, 0, 0)
    ensures D.Inv(d) && Reports(d, Poll(10)) == [0, 1] && Reports(Step(d, Poll(10)), Poll(19)) == []
  {
    var a, b := Attachment(0, 10, 0), Attachment(1, 10, 0);
    MissedOfTwo(a, b, 0, 10);
    MissedOfTwo(a, b, 10, 19);
    assert IsMissed(a, 0, 10) && IsMissed(b, 0, 10) && !IsMissed(a, 10, 19) && !IsMissed(b, 10, 19);
  }

  lemma CutAfterFirst(x: nat, y: nat)
    ensures CutAtStop([x, y], (_: seq<nat>) => true, [x])
  {
    assert [x, y][..1] == [x];
  }
}

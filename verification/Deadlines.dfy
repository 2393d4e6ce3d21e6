/**
 * Periodic deadlines as in iceoryx2-bb/posix/src/deadline_queue.rs, as a value
 * with timed steps. Times are nanoseconds and never decrease along a run.
 */
module Deadlines {
  import opened Prelude
  import Math

  datatype Attachment = Attachment(index: nat, period: nat, start: nat)

  /** The queue's fields, and the latest clock reading that any of them stems from. */
  datatype Deadlines = Deadlines(attachments: seq<Attachment>, idCount: nat, previous: nat, clock: nat)

  ghost predicate Inv(d: Deadlines) {
    && d.previous <= d.clock
    && (forall i :: 0 <= i < |d.attachments| ==> d.attachments[i].index < d.idCount && d.attachments[i].start <= d.clock)
    && (forall i, j :: 0 <= i < j < |d.attachments| ==> d.attachments[i].index != d.attachments[j].index)
  }

  // ------------------------------------------------------------------ boundaries

  /** The `k`-th end of a period. */
  function Boundary(a: Attachment, k: nat): nat {
    a.start + k * a.period
  }

  /** The test of `handle_missed_deadlines` for one attachment. */
  predicate IsMissed(a: Attachment, last: nat, now: nat)
    requires a.start <= now
  {
    if a.period == 0 then
      true
    else
      ((if last < a.start then a.start else last) - a.start) / a.period < (now - a.start) / a.period
  }

  /** The division test finds exactly the attachments with a boundary since the last iteration. */
  lemma MissedIffBoundary(a: Attachment, last: nat, now: nat)
    requires a.period > 0 && a.start <= now
    ensures IsMissed(a, last, now) <==> exists k: nat :: k >= 1 && last < Boundary(a, k) <= now
  {
    if IsMissed(a, last, now) {
      MissedHasBoundary(a, last, now);
    }
    if k: nat :| k >= 1 && last < Boundary(a, k) <= now {
      BoundaryIsMissed(a, last, now, k);
    }
  }

  lemma MissedHasBoundary(a: Attachment, last: nat, now: nat)
    requires a.period > 0 && a.start <= now && IsMissed(a, last, now)
    ensures var k := (now - a.start) / a.period; k >= 1 && last < Boundary(a, k) <= now
  {
    BoundaryAtQuotient(now - a.start, a.period);
    QuotientBelow((if last < a.start then a.start else last) - a.start, a.period, (now - a.start) / a.period);
  }

  lemma BoundaryIsMissed(a: Attachment, last: nat, now: nat, k: nat)
    requires a.period > 0 && a.start <= now && k >= 1 && last < Boundary(a, k) <= now
    ensures IsMissed(a, last, now)
  {
    Math.MulMonotone(1, k, a.period);
    QuotientBelow((if last < a.start then a.start else last) - a.start, a.period, k);
    QuotientAtLeast(now - a.start, a.period, k);
  }

  /** An attachment that started after the last iteration is missed exactly when its first period is over. */
  lemma FreshStartIsMissedIff(a: Attachment, last: nat, now: nat)
    requires a.period > 0 && last <= a.start <= now
    ensures IsMissed(a, last, now) <==> a.start + a.period <= now
  {
    if IsMissed(a, last, now) {
      MissedHasBoundary(a, last, now);
      Math.MulMonotone(1, (now - a.start) / a.period, a.period);
    }
    if a.start + a.period <= now {
      BoundaryIsMissed(a, last, now, 1);
    }
  }

  lemma BoundaryAtQuotient(x: nat, p: nat)
    requires p > 0
    ensures (x / p) * p <= x < (x / p + 1) * p
  {
    Math.DivModEquation(x, p);
    Math.MulDistributes(x / p, 1, p);
  }

  lemma QuotientBelow(x: nat, p: nat, k: nat)
    requires p > 0
    ensures x / p < k <==> x < k * p
  {
    BoundaryAtQuotient(x, p);
    if x / p < k {
      Math.MulMonotone(x / p + 1, k, p);
    } else {
      Math.MulMonotone(k, x / p, p);
    }
  }

  lemma QuotientAtLeast(x: nat, p: nat, k: nat)
    requires p > 0 && k * p <= x
    ensures k <= x / p
  {
    QuotientBelow(x, p, k);
  }

  /** The modulo expression is the distance to the first boundary strictly after `now`. */
  lemma RemainderIsDistance(a: Attachment, now: nat)
    requires a.period > 0 && a.start <= now
    ensures var k := (now - a.start) / a.period + 1;
            && k >= 1
            && now + a.period - (now - a.start) % a.period == Boundary(a, k)
            && now < Boundary(a, k)
            && forall j: nat :: j >= 1 && now < Boundary(a, j) ==> Boundary(a, k) <= Boundary(a, j)
  {
    var q := (now - a.start) / a.period;
    Math.DivModEquation(now - a.start, a.period);
    Math.MulDistributes(q, 1, a.period);
    forall j: nat | j >= 1 && now < Boundary(a, j) ensures Boundary(a, q + 1) <= Boundary(a, j) {
      QuotientBelow(now - a.start, a.period, j);
      Math.MulMonotone(q + 1, j, a.period);
    }
  }

  // ----------------------------------------------------------------------- steps

  /** The indices of the missed attachments, in attachment order. */
  function Missed(attachments: seq<Attachment>, last: nat, now: nat): (ids: seq<nat>)
    requires forall i :: 0 <= i < |attachments| ==> attachments[i].start <= now
  {
    if attachments == [] then []
    else Missed(attachments[..|attachments| - 1], last, now) +
         var a := attachments[|attachments| - 1];
         if IsMissed(a, last, now) then [a.index] else []
  }

  lemma {:induction false} MissedContains(attachments: seq<Attachment>, last: nat, now: nat, index: nat)
    requires forall i :: 0 <= i < |attachments| ==> attachments[i].start <= now
    ensures index in Missed(attachments, last, now) <==>
            exists i :: 0 <= i < |attachments| && attachments[i].index == index && IsMissed(attachments[i], last, now)
  {
    if attachments != [] {
      var front := attachments[..|attachments| - 1];
      MissedContains(front, last, now, index);
      if i :| 0 <= i < |attachments| && attachments[i].index == index && IsMissed(attachments[i], last, now) {
        assert i < |front| ==> front[i] == attachments[i];
      }
      if i :| 0 <= i < |front| && front[i].index == index && IsMissed(front[i], last, now) {
        assert attachments[i] == front[i];
      }
    }
  }

  /** Distinct attachments are reported at most once each. */
  lemma {:induction false} MissedOnce(attachments: seq<Attachment>, last: nat, now: nat)
    requires forall i :: 0 <= i < |attachments| ==> attachments[i].start <= now
    requires forall i, j :: 0 <= i < j < |attachments| ==> attachments[i].index != attachments[j].index
    ensures Distinct(Missed(attachments, last, now))
  {
    if attachments != [] {
      var front, a := attachments[..|attachments| - 1], attachments[|attachments| - 1];
      MissedOnce(front, last, now);
      MissedContains(front, last, now, a.index);
      assert a.index !in Missed(front, last, now);
    }
  }

  datatype Event =
    | Add(period: nat, now: nat)
    | Remove(index: nat)
    | Reset(index: nat, now: nat)
    | Wait(now: nat)   // duration_until_next_deadline
    | Poll(now: nat)   // missed_deadlines

  predicate Enabled(d: Deadlines, e: Event) {
    e.Remove? || d.clock <= e.now
  }

  function Step(d: Deadlines, e: Event): (r: Deadlines)
    requires Inv(d) && Enabled(d, e)
    ensures Inv(r) && d.clock <= r.clock && d.previous <= r.previous
  {
    match e
    case Add(period, now) =>
      d.(attachments := d.attachments + [Attachment(d.idCount, period, now)], idCount := d.idCount + 1, clock := now)
    case Remove(index) =>
      RemoveKeepsInv(d, index);
      d.(attachments := RemoveIndex(d.attachments, index))
    case Reset(index, now) =>
      ResetKeepsInv(d, index, now);
      d.(attachments := ResetIndex(d.attachments, index, now), clock := now)
    case Wait(now) =>
      if Missed(d.attachments, d.previous, now) == [] && d.attachments != [] then d.(previous := now, clock := now)
      else d.(clock := now)
    case Poll(now) =>
      d.(previous := now, clock := now)
  }

  function Position(attachments: seq<Attachment>, index: nat): (i: nat)
    ensures i <= |attachments|
    ensures i < |attachments| ==> attachments[i].index == index
    ensures forall j :: 0 <= j < i ==> attachments[j].index != index
  {
    if attachments == [] || attachments[0].index == index then 0 else 1 + Position(attachments[1..], index)
  }

  function RemoveIndex(attachments: seq<Attachment>, index: nat): (r: seq<Attachment>)
  {
    var i := Position(attachments, index);
    if i < |attachments| then Without(attachments, i) else attachments
  }

  function ResetIndex(attachments: seq<Attachment>, index: nat, now: nat): (r: seq<Attachment>)
    ensures |r| == |attachments|
  {
    var i := Position(attachments, index);
    if i < |attachments| then attachments[i := attachments[i].(start := now)] else attachments
  }

  lemma RemoveKeepsInv(d: Deadlines, index: nat)
    requires Inv(d)
    ensures Inv(d.(attachments := RemoveIndex(d.attachments, index)))
  {
    var all, p := d.attachments, Position(d.attachments, index);
    if p < |all| {
      var rest := Without(all, p);
      forall i | 0 <= i < |rest| ensures rest[i].index < d.idCount && rest[i].start <= d.clock {
        WithoutAt(all, p, i);
      }
      forall i, j | 0 <= i < j < |rest| ensures rest[i].index != rest[j].index {
        WithoutAt(all, p, i);
        WithoutAt(all, p, j);
      }
    }
  }

  lemma ResetKeepsInv(d: Deadlines, index: nat, now: nat)
    requires Inv(d) && d.clock <= now
    ensures Inv(d.(attachments := ResetIndex(d.attachments, index, now), clock := now))
  {
    assert forall i :: 0 <= i < |d.attachments| ==> ResetIndex(d.attachments, index, now)[i].index == d.attachments[i].index;
  }

  /** What a poll reports when every callback continues. */
  function Reports(d: Deadlines, e: Event): (ids: seq<nat>)
    requires Inv(d) && Enabled(d, e)
  {
    if e.Poll? then Missed(d.attachments, d.previous, e.now) else []
  }

  // ------------------------------------------------------------------------ runs

  /** Each event of the run happens no earlier than the one before. */
  ghost predicate Feasible(d: Deadlines, es: seq<Event>)
    requires Inv(d)
    decreases |es|
  {
    es != [] ==> Enabled(d, es[0]) && Feasible(Step(d, es[0]), es[1..])
  }

  function Run(d: Deadlines, es: seq<Event>): (r: Deadlines)
    requires Inv(d) && Feasible(d, es)
    ensures Inv(r) && d.clock <= r.clock && d.previous <= r.previous
    decreases |es|
  {
    if es == [] then d else Run(Step(d, es[0]), es[1..])
  }

  lemma {:induction false} RunConcat(d: Deadlines, es: seq<Event>, fs: seq<Event>)
    requires Inv(d) && Feasible(d, es) && Feasible(Run(d, es), fs)
    ensures Feasible(d, es + fs) && Run(d, es + fs) == Run(Run(d, es), fs)
    decreases |es|
  {
    if es == [] {
      assert es + fs == fs;
    } else {
      var all := es + fs;
      assert all[0] == es[0] && all[1..] == es[1..] + fs;
      RunConcat(Step(d, es[0]), es[1..], fs);
      assert Feasible(d, all) && Run(d, all) == Run(Step(d, es[0]), all[1..]);
    }
  }

  /** Splitting a run, with at most one event in the second part. */
  lemma {:induction false} FeasiblePrefix(d: Deadlines, es: seq<Event>, last: seq<Event>)
    requires Inv(d) && Feasible(d, es + last) && |last| <= 1
    ensures Feasible(d, es) && Feasible(Run(d, es), last)
    ensures last == [] ==> Run(d, es + last) == Run(d, es)
    ensures last != [] ==> Run(d, es + last) == Step(Run(d, es), last[0])
    decreases |es|
  {
    if es == [] {
      assert es + last == last;
    } else {
      assert (es + last)[1..] == es[1..] + last;
      FeasiblePrefix(Step(d, es[0]), es[1..], last);
    }
  }

  lemma ResetSetsStart(d: Deadlines, index: nat, now: nat, a: Attachment)
    requires Inv(d) && d.clock <= now && a in Step(d, Reset(index, now)).attachments && a.index == index
    ensures a.start == now
  {
    var r := Step(d, Reset(index, now)).attachments;
    var i :| 0 <= i < |r| && r[i] == a;
    assert d.attachments[i].index == index;
    assert Position(d.attachments, index) == i;
  }

  lemma ResetSparesOthers(d: Deadlines, index: nat, now: nat, a: Attachment)
    requires Inv(d) && d.clock <= now && a in Step(d, Reset(index, now)).attachments && a.index != index
    ensures a in d.attachments
  {
    var r := Step(d, Reset(index, now)).attachments;
    var i :| 0 <= i < |r| && r[i] == a;
    assert d.attachments[i] == a;
  }

  /** `e` neither removes nor resets the attachment with the given index. */
  predicate Spares(e: Event, index: nat) {
    (e.Remove? || e.Reset?) ==> e.index != index
  }

  lemma StepKeepsAttachment(d: Deadlines, e: Event, a: Attachment)
    requires Inv(d) && Enabled(d, e) && a in d.attachments && Spares(e, a.index)
    ensures a in Step(d, e).attachments
  {
    var i :| 0 <= i < |d.attachments| && d.attachments[i] == a;
    var r := Step(d, e).attachments;
    match e {
      case Remove(index) =>
        var p := Position(d.attachments, index);
        if p < |d.attachments| {
          assert r[if i < p then i else i - 1] == a;
        }
      case _ => assert r[i] == a;
    }
  }

  /** A boundary still ahead of the last iteration stays so until a poll reaches it. */
  lemma StepKeepsPending(d: Deadlines, e: Event, a: Attachment, k: nat)
    requires Inv(d) && Enabled(d, e) && a in d.attachments && a.period > 0 && k >= 1
    requires d.previous < Boundary(a, k)
    ensures e.Poll? && Boundary(a, k) <= e.now ==> a.index in Reports(d, e)
    ensures !(e.Poll? && Boundary(a, k) <= e.now) ==> Step(d, e).previous < Boundary(a, k)
  {
    if (e.Wait? || e.Poll?) && Boundary(a, k) <= e.now {
      MissedIffBoundary(a, d.previous, e.now);
      MissedContains(d.attachments, d.previous, e.now, a.index);
    }
  }

  /** The run leaves the attachment alone and contains no poll at or after the boundary. */
  ghost predicate LeavesPending(es: seq<Event>, a: Attachment, k: nat) {
    forall i :: 0 <= i < |es| ==> Spares(es[i], a.index) && !(es[i].Poll? && Boundary(a, k) <= es[i].now)
  }

  lemma {:induction false} RunKeepsPending(d: Deadlines, es: seq<Event>, a: Attachment, k: nat)
    requires Inv(d) && Feasible(d, es) && LeavesPending(es, a, k)
    requires a in d.attachments && a.period > 0 && k >= 1 && d.previous < Boundary(a, k)
    ensures a in Run(d, es).attachments && Run(d, es).previous < Boundary(a, k)
    decreases |es|
  {
    if es != [] {
      StepKeepsAttachment(d, es[0], a);
      StepKeepsPending(d, es[0], a, k);
      RunKeepsPending(Step(d, es[0]), es[1..], a, k);
    }
  }

  /**
   * No boundary is lost: in every run, a boundary of an attachment that is
   * neither removed nor reset is reported by the first poll at or after it,
   * whatever waits, resets and attachments happen in between.
   */
  lemma NoBoundaryIsLost(d: Deadlines, es: seq<Event>, now: nat, a: Attachment, k: nat)
    requires Inv(d) && Feasible(d, es) && LeavesPending(es, a, k)
    requires a in d.attachments && a.period > 0 && k >= 1 && d.previous < Boundary(a, k)
    requires Run(d, es).clock <= now && Boundary(a, k) <= now
    ensures a.index in Reports(Run(d, es), Poll(now))
  {
    RunKeepsPending(d, es, a, k);
    StepKeepsPending(Run(d, es), Poll(now), a, k);
  }

  /** A fresh attachment has all its boundaries ahead of it. */
  lemma AddedIsPending(d: Deadlines, period: nat, now: nat, k: nat)
    requires Inv(d) && d.clock <= now && period > 0 && k >= 1
    ensures var a := Attachment(d.idCount, period, now);
            var r := Step(d, Add(period, now));
            a in r.attachments && r.previous < Boundary(a, k)
  {
    Math.MulMonotone(1, k, period);
    var r := Step(d, Add(period, now));
    assert r.attachments[|d.attachments|] == Attachment(d.idCount, period, now);
  }

  /**
   * Every report is new: what a poll reports has a boundary after every earlier
   * poll of the run, so no earlier report covered it.
   */
  lemma EveryReportIsNew(d: Deadlines, earlier: nat, es: seq<Event>, now: nat, a: Attachment)
    requires Inv(d) && d.clock <= earlier && Feasible(Step(d, Poll(earlier)), es)
    requires Run(Step(d, Poll(earlier)), es).clock <= now
    requires a in Run(Step(d, Poll(earlier)), es).attachments && a.period > 0
    requires a.index in Reports(Run(Step(d, Poll(earlier)), es), Poll(now))
    ensures exists k: nat :: k >= 1 && earlier < Boundary(a, k) <= now
  {
    var r := Run(Step(d, Poll(earlier)), es);
    ReportIsMissed(r, now, a);
    MissedIffBoundary(a, r.previous, now);
  }

  /** Indices are unique, so a reported index belongs to a missed attachment. */
  lemma ReportIsMissed(d: Deadlines, now: nat, a: Attachment)
    requires Inv(d) && d.clock <= now && a in d.attachments
    ensures a.index in Missed(d.attachments, d.previous, now) <==> IsMissed(a, d.previous, now)
  {
    MissedContains(d.attachments, d.previous, now, a.index);
    var m :| 0 <= m < |d.attachments| && d.attachments[m] == a;
    if n :| 0 <= n < |d.attachments| && d.attachments[n].index == a.index && IsMissed(d.attachments[n], d.previous, now) {
      assert m == n;
    }
  }

  /**
   * The next poll speaks only of what happened since the poll before, delivered or
   * not: it reports an attachment exactly when a boundary lies between the two.
   */
  lemma NextReportIff(d: Deadlines, earlier: nat, es: seq<Event>, now: nat, a: Attachment)
    requires Inv(d) && d.clock <= earlier && a in d.attachments && a.period > 0
    requires Feasible(Step(d, Poll(earlier)), es) && Run(Step(d, Poll(earlier)), es).clock <= now
    requires forall i :: 0 <= i < |es| ==> !es[i].Poll? && Spares(es[i], a.index)
    ensures a.index in Reports(Run(Step(d, Poll(earlier)), es), Poll(now)) <==>
            exists k: nat :: k >= 1 && earlier < Boundary(a, k) <= now
  {
    var polled := Step(d, Poll(earlier));
    RunKeepsAttachment(polled, es, a);
    if a.index in Reports(Run(polled, es), Poll(now)) {
      EveryReportIsNew(d, earlier, es, now, a);
    } else if k: nat :| k >= 1 && earlier < Boundary(a, k) <= now {
      NoBoundaryIsLost(polled, es, now, a, k);
    }
  }

  lemma {:induction false} RunKeepsAttachment(d: Deadlines, es: seq<Event>, a: Attachment)
    requires Inv(d) && Feasible(d, es) && a in d.attachments
    requires forall i :: 0 <= i < |es| ==> Spares(es[i], a.index)
    ensures a in Run(d, es).attachments
    decreases |es|
  {
    if es != [] {
      StepKeepsAttachment(d, es[0], a);
      RunKeepsAttachment(Step(d, es[0]), es[1..], a);
    }
  }
}

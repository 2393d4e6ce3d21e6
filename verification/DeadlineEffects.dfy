/**
 * What each operation of the deadline queue does to the attachments and to their order, in
 * which the callbacks are called.
 */
module DeadlineEffects {
  import opened Prelude
  import opened Deadlines

  ghost predicate Before<T(!new)>(s: seq<T>, a: T, b: T) {
    exists i, j :: 0 <= i < j < |s| && s[i] == a && s[j] == b
  }

  /** A removal takes exactly the attachment with the index. */
  lemma RemoveTakesIndex(d: Deadlines, index: nat, a: Attachment)
    requires Inv(d)
    ensures a in Step(d, Remove(index)).attachments <==> a in d.attachments && a.index != index
  {
    var all, rest, p := d.attachments, Step(d, Remove(index)).attachments, Position(d.attachments, index);
    if a in rest {
      var i :| 0 <= i < |rest| && rest[i] == a;
      if p < |all| {
        WithoutAt(all, p, i);
      }
    }
    if a in all && a.index != index {
      StepKeepsAttachment(d, Remove(index), a);
    }
  }

  /** And the others stay in their order. */
  lemma RemoveKeepsOrder(d: Deadlines, index: nat, a: Attachment, b: Attachment)
    requires Inv(d) && a.index != index && b.index != index
    ensures Before(d.attachments, a, b) <==> Before(Step(d, Remove(index)).attachments, a, b)
  {
    var p := Position(d.attachments, index);
    if p < |d.attachments| {
      WithoutKeepsOrder(d.attachments, p, a, b);
    }
  }

  lemma WithoutKeepsOrder<T(!new)>(s: seq<T>, p: nat, a: T, b: T)
    requires p < |s| && a != s[p] && b != s[p]
    ensures Before(s, a, b) <==> Before(Without(s, p), a, b)
  {
    var rest := Without(s, p);
    if Before(s, a, b) {
      var i, j :| 0 <= i < j < |s| && s[i] == a && s[j] == b;
      var k, l := if i < p then i else i - 1, if j < p then j else j - 1;
      WithoutAt(s, p, k);
      WithoutAt(s, p, l);
      assert rest[k] == a && rest[l] == b;
    }
    if Before(rest, a, b) {
      var i, j :| 0 <= i < j < |rest| && rest[i] == a && rest[j] == b;
      WithoutAt(s, p, i);
      WithoutAt(s, p, j);
    }
  }

  /** A new attachment comes last, and the others are as they were. */
  lemma AddComesLast(d: Deadlines, period: nat, now: nat, a: Attachment)
    requires Inv(d) && d.clock <= now
    ensures var added, r := Attachment(d.idCount, period, now), Step(d, Add(period, now)).attachments;
            && (a in r <==> a in d.attachments || a == added)
            && (a in d.attachments ==> Before(r, a, added))
            && d.attachments < r
  {
    var added, r := Attachment(d.idCount, period, now), Step(d, Add(period, now)).attachments;
    assert r[|d.attachments|] == added;
    if a in d.attachments {
      var i :| 0 <= i < |d.attachments| && d.attachments[i] == a;
      assert r[i] == a;
    }
  }

  /** A reset changes the start time of its attachment and nothing else, and every attachment keeps its place. */
  lemma ResetChangesStart(d: Deadlines, index: nat, now: nat)
    requires Inv(d) && d.clock <= now
    ensures var r := Step(d, Reset(index, now)).attachments;
            |r| == |d.attachments| && forall i :: 0 <= i < |r| ==>
              r[i] == if d.attachments[i].index == index then d.attachments[i].(start := now) else d.attachments[i]
  {
    var all := d.attachments;
    forall i | 0 <= i < |all| && all[i].index == index ensures i == Position(all, index) {
    }
  }

  /** Waiting and polling change no attachment. */
  lemma LookingChangesNothing(d: Deadlines, e: Event)
    requires Inv(d) && Enabled(d, e) && (e.Wait? || e.Poll?)
    ensures Step(d, e).attachments == d.attachments && Step(d, e).idCount == d.idCount
  {
  }

  /** The reports come in the order of the attachments. */
  lemma {:induction false} ReportsKeepOrder(all: seq<Attachment>, last: nat, now: nat, a: Attachment, b: Attachment)
    requires forall i :: 0 <= i < |all| ==> all[i].start <= now
    requires Before(all, a, b) && IsMissed(a, last, now) && IsMissed(b, last, now)
    ensures Before(Missed(all, last, now), a.index, b.index)
  {
    var i, j :| 0 <= i < j < |all| && all[i] == a && all[j] == b;
    var front, ids := all[..|all| - 1], Missed(all, last, now);
    var before := Missed(front, last, now);
    if j < |all| - 1 {
      assert front[i] == a && front[j] == b;
      ReportsKeepOrder(front, last, now, a, b);
      var k, l :| 0 <= k < l < |before| && before[k] == a.index && before[l] == b.index;
      assert ids[k] == a.index && ids[l] == b.index;
    } else {
      assert front[i] == a;
      MissedContains(front, last, now, a.index);
      var k :| 0 <= k < |before| && before[k] == a.index;
      assert ids[k] == a.index && ids[|before|] == b.index;
    }
  }

  /** An attachment without a period is reported by every poll. */
  lemma ZeroPeriodIsAlwaysReported(d: Deadlines, now: nat, a: Attachment)
    requires Inv(d) && d.clock <= now && a in d.attachments && a.period == 0
    ensures a.index in Reports(d, Poll(now))
  {
    ReportIsMissed(d, now, a);
  }
}

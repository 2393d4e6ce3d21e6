/** Whole runs of a wait set: attaches that succeed or fail, dropped guards and wait passes in any order. */
module WaitSetRuns {
  import opened Prelude
  import opened Callbacks
  import opened WaitSetState
  import opened WaitSetPasses
  import D = Deadlines
  import E = WaitSetEffects

  datatype Op =
    | NotificationOp(fd: Fd)
    | IntervalOp(period: nat, now: nat)
    | DeadlineOp(fd: Fd, period: nat, now: nat)
    | DropOp(guard: Guard)
    | PassOp(pass: Pass)

  ghost predicate OpEnabled(w: WaitSet, op: Op)
    requires Inv(w)
  {
    match op
    case NotificationOp(_) => true
    case IntervalOp(_, now) => w.queue.clock <= now
    case DeadlineOp(_, _, now) => w.queue.clock <= now
    case DropOp(g) => g in w.guards
    case PassOp(p) => Enabled(w, p)
  }

  ghost function Apply(w: WaitSet, op: Op): (r: WaitSet)
    requires Inv(w) && OpEnabled(w, op)
    ensures Inv(r)
  {
    match op
    case NotificationOp(fd) => AttachNotificationKeepsInv(w, fd); AttachNotification(w, fd).0
    case IntervalOp(period, now) => AttachIntervalKeepsInv(w, period, now); AttachInterval(w, period, now).0
    case DeadlineOp(fd, period, now) => AttachDeadlineKeepsInv(w, fd, period, now); AttachDeadline(w, fd, period, now).0
    case DropOp(g) => DropGuardKeepsInv(w, g); DropGuard(w, g)
    case PassOp(p) => ApplyPassKeepsInv(w, p); ApplyPass(w, p)
  }

  ghost predicate Possible(w: WaitSet, ops: seq<Op>)
    requires Inv(w)
    decreases |ops|
  {
    ops != [] ==> OpEnabled(w, ops[0]) && Possible(Apply(w, ops[0]), ops[1..])
  }

  /**
   * The state after a run. Its contract is the invariant of every reachable
   * state: the counter is the number of live guards and never above the
   * capacity, and maps, reactor and queue agree with the live guards.
   */
  ghost function Run(w: WaitSet, ops: seq<Op>): (r: WaitSet)
    requires Inv(w) && Possible(w, ops)
    ensures Inv(r)
    decreases |ops|
  {
    if ops == [] then w else Run(Apply(w, ops[0]), ops[1..])
  }

  /** What the invariant says about the live guards of a reachable state. */
  lemma LiveGuardsAgreeWithMaps(w: WaitSet, g: Guard)
    requires Inv(w) && g in w.guards
    ensures g.Deadline? ==> g.fd in w.fdToDeadline && w.fdToDeadline[g.fd] == g.index
    ensures g.Deadline? ==> g.index in w.deadlineToFd && w.deadlineToFd[g.index] == g.fd
    ensures g.Tick? ==> g.index !in w.deadlineToFd && forall fd :: fd in w.fdToDeadline ==> w.fdToDeadline[fd] != g.index
  {
    if g.Tick? {
      assert g == w.GuardOfIndex(g.index);
    }
  }

  // ------------------------------------------------------------------ boundaries

  /** A live interval or deadline guard whose attachment has the boundary still ahead of the last poll. */
  ghost predicate Pending(w: WaitSet, g: Guard, a: D.Attachment, k: nat) {
    && a.period > 0 && k >= 1
    && g in w.guards && g.HasIndex() && g.index == a.index
    && a in w.queue.attachments
    && w.queue.previous < D.Boundary(a, k)
  }

  /** The pass does not reset the guard's deadline. */
  predicate NotTriggered(p: Pass, g: Guard) {
    p.reactor.Triggered? && g.Deadline? ==> g.fd !in p.reactor.fds
  }

  /** The operation neither drops the guard, nor triggers it, nor polls at or after the boundary. */
  predicate Leaves(op: Op, g: Guard, a: D.Attachment, k: nat) {
    match op
    case DropOp(dropped) => dropped != g
    case PassOp(p) => NotTriggered(p, g) && (p.reactor.Triggered? ==> p.pollAt < D.Boundary(a, k))
    case _ => true
  }

  lemma QueueStepKeepsPending(w: WaitSet, e: D.Event, g: Guard, a: D.Attachment, k: nat)
    requires Inv(w) && Pending(w, g, a, k) && D.Enabled(w.queue, e) && D.Spares(e, a.index) && !e.Poll?
    ensures a in D.Step(w.queue, e).attachments && D.Step(w.queue, e).previous < D.Boundary(a, k)
  {
    D.StepKeepsAttachment(w.queue, e, a);
    D.StepKeepsPending(w.queue, e, a, k);
  }

  lemma PassEventsSpareGuard(w: WaitSet, p: Pass, g: Guard, a: D.Attachment, k: nat)
    requires Inv(w) && Enabled(w, p) && Pending(w, g, a, k) && NotTriggered(p, g)
    ensures D.LeavesPending(EventsBeforePoll(w, p), a, k)
    ensures Leaves(PassOp(p), g, a, k) ==> D.LeavesPending(PassEvents(w, p), a, k)
  {
    var es, bs := PassEvents(w, p), EventsBeforePoll(w, p);
    forall i | 0 <= i < |bs| ensures D.Spares(bs[i], a.index) && !bs[i].Poll? {
      EventSparesGuard(w, p, g, i);
    }
    assert forall i :: 0 <= i < |bs| ==> es[i] == bs[i];
    assert forall i :: |bs| <= i < |es| ==> es[i] == D.Poll(p.pollAt);
  }

  lemma EventSparesGuard(w: WaitSet, p: Pass, g: Guard, i: nat)
    requires Inv(w) && WellFormed(w, p) && i < |EventsBeforePoll(w, p)|
    requires g in w.guards && g.HasIndex() && NotTriggered(p, g)
    ensures D.Spares(EventsBeforePoll(w, p)[i], g.index) && !EventsBeforePoll(w, p)[i].Poll?
  {
    if i > 0 {
      var fd := ResetEventsAre(w.fdToDeadline, p.reactor.fds, p.resetAt, i - 1);
      ResetSparesGuard(w, g, fd);
    }
  }

  /** A descriptor that is not the guard's own is never mapped to the guard's index. */
  lemma ResetSparesGuard(w: WaitSet, g: Guard, fd: Fd)
    requires Inv(w) && g in w.guards && g.HasIndex() && fd in w.fdToDeadline
    requires g.Deadline? ==> g.fd != fd
    ensures w.fdToDeadline[fd] != g.index
  {
    assert g == w.GuardOfIndex(g.index);
  }

  lemma OpKeepsPending(w: WaitSet, op: Op, g: Guard, a: D.Attachment, k: nat)
    requires Inv(w) && OpEnabled(w, op) && Pending(w, g, a, k) && Leaves(op, g, a, k)
    ensures Pending(Apply(w, op), g, a, k)
  {
    match op {
      case NotificationOp(_) =>
      case IntervalOp(period, now) =>
        IntervalKeepsPending(w, period, now, g, a, k);
      case DeadlineOp(fd, period, now) =>
        DeadlineKeepsPending(w, fd, period, now, g, a, k);
      case DropOp(dropped) =>
        DropKeepsPending(w, dropped, g, a, k);
      case PassOp(p) =>
        PassKeepsPending(w, p, g, a, k);
    }
  }

  lemma IntervalKeepsPending(w: WaitSet, period: nat, now: nat, g: Guard, a: D.Attachment, k: nat)
    requires Inv(w) && Pending(w, g, a, k) && w.queue.clock <= now
    ensures Pending(AttachInterval(w, period, now).0, g, a, k)
  {
    AddThenRemoveKeepsPending(w, period, now, g, a, k);
  }

  lemma DeadlineKeepsPending(w: WaitSet, fd: Fd, period: nat, now: nat, g: Guard, a: D.Attachment, k: nat)
    requires Inv(w) && Pending(w, g, a, k) && w.queue.clock <= now
    ensures Pending(AttachDeadline(w, fd, period, now).0, g, a, k)
  {
    AddThenRemoveKeepsPending(w, period, now, g, a, k);
  }

  lemma DropKeepsPending(w: WaitSet, dropped: Guard, g: Guard, a: D.Attachment, k: nat)
    requires Inv(w) && dropped in w.guards && Pending(w, g, a, k) && dropped != g
    ensures w.counter > 0 && Pending(DropGuard(w, dropped), g, a, k)
  {
    DropGuardKeepsInv(w, dropped);
    if dropped.HasIndex() {
      assert g == w.GuardOfIndex(a.index);
      assert dropped.index != a.index;
      QueueStepKeepsPending(w, D.Remove(dropped.index), g, a, k);
    }
  }

  lemma PassKeepsPending(w: WaitSet, p: Pass, g: Guard, a: D.Attachment, k: nat)
    requires Inv(w) && Enabled(w, p) && Pending(w, g, a, k) && Leaves(PassOp(p), g, a, k)
    ensures Pending(ApplyPass(w, p), g, a, k)
  {
    PassEventsSpareGuard(w, p, g, a, k);
    PassIsFeasible(w, p);
    D.RunKeepsPending(w.queue, PassEvents(w, p), a, k);
  }

  lemma AddThenRemoveKeepsPending(w: WaitSet, period: nat, now: nat, g: Guard, a: D.Attachment, k: nat)
    requires Inv(w) && Pending(w, g, a, k) && w.queue.clock <= now
    ensures var added := D.Step(w.queue, D.Add(period, now));
            var removed := D.Step(added, D.Remove(w.queue.idCount));
            && a in added.attachments && added.previous < D.Boundary(a, k)
            && a in removed.attachments && removed.previous < D.Boundary(a, k)
  {
    QueueStepKeepsPending(w, D.Add(period, now), g, a, k);
    var added := D.Step(w.queue, D.Add(period, now));
    D.StepKeepsAttachment(added, D.Remove(w.queue.idCount), a);
  }

  lemma {:induction false} RunKeepsPending(w: WaitSet, ops: seq<Op>, g: Guard, a: D.Attachment, k: nat)
    requires Inv(w) && Possible(w, ops) && Pending(w, g, a, k)
    requires forall i :: 0 <= i < |ops| ==> Leaves(ops[i], g, a, k)
    ensures Pending(Run(w, ops), g, a, k)
    decreases |ops|
  {
    if ops != [] {
      OpKeepsPending(w, ops[0], g, a, k);
      RunKeepsPending(Apply(w, ops[0]), ops[1..], g, a, k);
    }
  }

  /**
   * No boundary is lost. Over every run in which the guard stays alive and its own
   * descriptor is not triggered - attaches that fail, other guards dropped, passes that are
   * interrupted or trigger others - the first pass that polls at or after a boundary of an
   * interval or a deadline finds it missed.
   */
  lemma NoBoundaryIsLost(w: WaitSet, ops: seq<Op>, p: Pass, g: Guard, a: D.Attachment, k: nat)
    requires Inv(w) && Possible(w, ops) && Pending(w, g, a, k)
    requires forall i :: 0 <= i < |ops| ==> Leaves(ops[i], g, a, k)
    requires Enabled(Run(w, ops), p) && p.reactor.Triggered? && NotTriggered(p, g) && D.Boundary(a, k) <= p.pollAt
    ensures g in Run(w, ops).guards && a.index in MissedIn(Run(w, ops), p)
  {
    RunKeepsPending(w, ops, g, a, k);
    var r := Run(w, ops);
    PassEventsSpareGuard(r, p, g, a, k);
    D.NoBoundaryIsLost(r.queue, EventsBeforePoll(r, p), p.pollAt, a, k);
  }

  /** So the callback is given the id of the guard in that pass, unless it stops the pass itself. */
  lemma BoundaryReachesCallback(w: WaitSet, ops: seq<Op>, p: Pass, g: Guard, a: D.Attachment, k: nat,
                                self: nat, call: Callback<AttachmentId>, called: seq<AttachmentId>)
    requires Inv(w) && Possible(w, ops) && Pending(w, g, a, k)
    requires forall i :: 0 <= i < |ops| ==> Leaves(ops[i], g, a, k)
    requires Enabled(Run(w, ops), p) && p.reactor.Triggered? && NotTriggered(p, g) && D.Boundary(a, k) <= p.pollAt
    requires CutAtStop(IdsOfPass(Run(w, ops), self, p), call, called) && !Stopped(call, called)
    ensures FromGuard(self, g) in called
  {
    NoBoundaryIsLost(w, ops, p, g, a, k);
    UncutIsAll(IdsOfPass(Run(w, ops), self, p), call, called);
    E.IndexIsCalled(Run(w, ops), self, p, g);
  }

  /** A new interval guard has all its boundaries ahead of it. */
  lemma NewIntervalIsPending(w: WaitSet, period: nat, now: nat, k: nat)
    requires Inv(w) && w.queue.clock <= now && period > 0 && k >= 1
    ensures var (r, result) := AttachInterval(w, period, now);
            && (result.Ok? <==> w.counter < w.capacity)
            && (result.Ok? ==> Pending(r, result.value, D.Attachment(w.queue.idCount, period, now), k))
  {
    D.AddedIsPending(w.queue, period, now, k);
  }

  /** And so has a new deadline guard. */
  lemma NewDeadlineIsPending(w: WaitSet, fd: Fd, period: nat, now: nat, k: nat)
    requires Inv(w) && w.queue.clock <= now && period > 0 && k >= 1
    ensures var (r, result) := AttachDeadline(w, fd, period, now);
            result.Ok? ==> Pending(r, result.value, D.Attachment(w.queue.idCount, period, now), k)
  {
    D.AddedIsPending(w.queue, period, now, k);
  }

  // ------------------------------------------------------------------- deadlines

  /**
   * A triggered deadline is reported missed in the same pass exactly when a full
   * period has gone by since that pass reset it.
   */
  lemma TriggeredIsMissedIffPeriodPassed(w: WaitSet, p: Pass, i: nat, a: D.Attachment)
    requires Inv(w) && Enabled(w, p) && p.reactor.Triggered? && i < |p.reactor.fds| && Distinct(p.reactor.fds)
    requires p.reactor.fds[i] in w.fdToDeadline && a.index == w.fdToDeadline[p.reactor.fds[i]]
    requires a in D.Run(w.queue, EventsBeforePoll(w, p)).attachments && a.period > 0
    ensures a.index in MissedIn(w, p) <==> p.resetAt[i] + a.period <= p.pollAt
  {
    var d := D.Run(w.queue, EventsBeforePoll(w, p));
    ResetsSetStart(w, p, i, a);
    D.ReportIsMissed(d, p.pollAt, a);
    D.FreshStartIsMissedIff(a, d.previous, p.pollAt);
  }

  /** Resets restart their deadlines, not before the last iteration of the queue. */
  lemma ResetsSetStart(w: WaitSet, p: Pass, i: nat, a: D.Attachment)
    requires Inv(w) && Enabled(w, p) && p.reactor.Triggered? && i < |p.reactor.fds| && Distinct(p.reactor.fds)
    requires p.reactor.fds[i] in w.fdToDeadline && a.index == w.fdToDeadline[p.reactor.fds[i]]
    requires a in D.Run(w.queue, EventsBeforePoll(w, p)).attachments
    ensures a.start == p.resetAt[i] && D.Run(w.queue, EventsBeforePoll(w, p)).previous <= p.resetAt[i]
  {
    var fds, at := p.reactor.fds, p.resetAt;
    var es := ResetEvents(w.fdToDeadline, fds, at);
    assert EventsBeforePoll(w, p)[1..] == es;
    var d := D.Step(w.queue, D.Wait(p.timeoutAt));
    assert Indices(d) == Indices(w.queue) by { StepIndices(w.queue, D.Wait(p.timeoutAt)); }
    forall j | 0 <= j < |es| ensures !es[j].Add? && !es[j].Remove? {
      var fd := ResetEventsAre(w.fdToDeadline, fds, at, j);
    }
    RunKeepsIndices(d, es);
    assert a.index in Indices(w.queue);
    forall j | 0 <= j < |fds| && fds[j] in w.fdToDeadline && w.fdToDeadline[fds[j]] == a.index ensures j == i {
      assert Deadline(fds[j], a.index) in w.guards && Deadline(fds[i], a.index) in w.guards;
      assert Deadline(fds[j], a.index) == w.GuardOfIndex(a.index) == Deadline(fds[i], a.index);
    }
    ResetOnce(d, w.fdToDeadline, fds, at, i, a);
    ResetsKeepPrevious(d, w.fdToDeadline, fds, at);
  }

  lemma {:induction false} ResetsKeepPrevious(d: D.Deadlines, fdToDeadline: map<Fd, nat>, fds: seq<Fd>, at: seq<nat>)
    requires |fds| == |at| && D.Inv(d) && D.Feasible(d, ResetEvents(fdToDeadline, fds, at))
    ensures D.Run(d, ResetEvents(fdToDeadline, fds, at)).previous == d.previous
    decreases |fds|
  {
    if fds != [] {
      var n := |fds| - 1;
      var front := ResetEvents(fdToDeadline, fds[..n], at[..n]);
      var last: seq<D.Event> := if fds[n] in fdToDeadline then [D.Reset(fdToDeadline[fds[n]], at[n])] else [];
      D.FeasiblePrefix(d, front, last);
      ResetsKeepPrevious(d, fdToDeadline, fds[..n], at[..n]);
    }
  }

  /** After a batch of resets that names an index once, that attachment starts at its reset time. */
  lemma {:induction false} ResetOnce(d: D.Deadlines, fdToDeadline: map<Fd, nat>, fds: seq<Fd>, at: seq<nat>,
                                     i: nat, a: D.Attachment)
    requires |fds| == |at| && i < |fds| && D.Inv(d) && D.Feasible(d, ResetEvents(fdToDeadline, fds, at))
    requires fds[i] in fdToDeadline && fdToDeadline[fds[i]] == a.index
    requires forall j :: 0 <= j < |fds| && fds[j] in fdToDeadline && fdToDeadline[fds[j]] == a.index ==> j == i
    requires a in D.Run(d, ResetEvents(fdToDeadline, fds, at)).attachments
    ensures a.start == at[i] && d.clock <= at[i]
    decreases |fds|
  {
    var n := |fds| - 1;
    var front := ResetEvents(fdToDeadline, fds[..n], at[..n]);
    var last: seq<D.Event> := if fds[n] in fdToDeadline then [D.Reset(fdToDeadline[fds[n]], at[n])] else [];
    D.FeasiblePrefix(d, front, last);
    var mid := D.Run(d, front);
    if i == n {
      D.ResetSetsStart(mid, a.index, at[n], a);
    } else {
      if last != [] {
        D.ResetSparesOthers(mid, fdToDeadline[fds[n]], at[n], a);
      }
      ResetOnce(d, fdToDeadline, fds[..n], at[..n], i, a);
    }
  }
}

/** Wait passes of iceoryx2/src/waitset.rs: their events, the ids they hand out, and whole runs. */
module WaitSetPasses {
  import opened WaitSetState
  import D = Deadlines

  // ------------------------------------------------------------------------- ids

  datatype AttachmentId =
    | TickId(waitset: nat, index: nat)
    | DeadlineId(waitset: nat, fd: Fd, index: nat)
    | NotificationId(waitset: nat, fd: Fd)

  function FromGuard(waitset: nat, g: Guard): AttachmentId {
    match g
    case Tick(index) => TickId(waitset, index)
    case Deadline(fd, index) => DeadlineId(waitset, fd, index)
    case Notification(fd) => NotificationId(waitset, fd)
  }

  predicate HasEventFrom(id: AttachmentId, waitset: nat, g: Guard) {
    var other := FromGuard(waitset, g);
    if other.DeadlineId? then
      id.NotificationId? && id.waitset == other.waitset && id.fd == other.fd
    else
      id == other
  }

  predicate HasMissedDeadline(id: AttachmentId, waitset: nat, g: Guard) {
    id.DeadlineId? && id == FromGuard(waitset, g)
  }

  /** The id that `handle_deadlines` builds for a missed index. */
  function IdOfIndex(self: nat, deadlineToFd: map<nat, Fd>, index: nat): AttachmentId {
    if index in deadlineToFd then DeadlineId(self, deadlineToFd[index], index) else TickId(self, index)
  }

  function IdsOfIndices(self: nat, deadlineToFd: map<nat, Fd>, indices: seq<nat>): (ids: seq<AttachmentId>)
    ensures |ids| == |indices|
  {
    seq(|indices|, i requires 0 <= i < |indices| => IdOfIndex(self, deadlineToFd, indices[i]))
  }

  function IdsOfFds(self: nat, fds: seq<Fd>): (ids: seq<AttachmentId>)
    ensures |ids| == |fds|
  {
    seq(|fds|, i requires 0 <= i < |fds| => NotificationId(self, fds[i]))
  }

  /** The ids a pass may hand to the callback: queued indices and attached descriptors. */
  ghost predicate HandedOut(w: WaitSet, self: nat, id: AttachmentId) {
    if id.NotificationId? then id == NotificationId(self, id.fd) && id.fd in w.reactor
    else id == IdOfIndex(self, w.deadlineToFd, id.index) && id.index in Indices(w.queue)
  }

  /**
   * Every id handed to the callback matches exactly one live guard, through
   * exactly one of the two queries, and no guard of another wait set.
   */
  lemma IdMatchesOneGuard(w: WaitSet, self: nat, id: AttachmentId) returns (owner: Guard)
    requires Inv(w) && HandedOut(w, self, id)
    ensures owner in w.guards
    ensures forall g :: g in w.guards ==> (HasEventFrom(id, self, g) != HasMissedDeadline(id, self, g) <==> g == owner)
    ensures forall g :: !(HasEventFrom(id, self, g) && HasMissedDeadline(id, self, g))
    ensures forall g, other :: other != self ==> !HasEventFrom(id, other, g) && !HasMissedDeadline(id, other, g)
    ensures HasMissedDeadline(id, self, owner) <==> id.DeadlineId?
  {
    owner := if id.NotificationId? then w.GuardOfFd(id.fd) else w.GuardOfIndex(id.index);
  }

  // ---------------------------------------------------------------------- passes

  datatype ReactorWait = Triggered(fds: seq<Fd>) | Interrupt | InsufficientPermissions | UnknownError

  /** One wait pass: when the timeout was computed, what the reactor returned, when deadlines were reset and polled. */
  datatype Pass = Pass(timeoutAt: nat, reactor: ReactorWait, resetAt: seq<nat>, pollAt: nat)

  function ResetEvents(fdToDeadline: map<Fd, nat>, fds: seq<Fd>, at: seq<nat>): (es: seq<D.Event>)
    requires |fds| == |at|
  {
    if fds == [] then [] else
    var n := |fds| - 1;
    ResetEvents(fdToDeadline, fds[..n], at[..n]) +
    if fds[n] in fdToDeadline then [D.Reset(fdToDeadline[fds[n]], at[n])] else []
  }

  ghost predicate WellFormed(w: WaitSet, p: Pass) {
    p.reactor.Triggered? ==> |p.resetAt| == |p.reactor.fds| && forall fd :: fd in p.reactor.fds ==> fd in w.reactor
  }

  /** What happens to the deadline queue before the callbacks run. */
  function EventsBeforePoll(w: WaitSet, p: Pass): seq<D.Event>
    requires WellFormed(w, p)
  {
    [D.Wait(p.timeoutAt)] +
    if p.reactor.Triggered? then ResetEvents(w.fdToDeadline, p.reactor.fds, p.resetAt) else []
  }

  function PassEvents(w: WaitSet, p: Pass): seq<D.Event>
    requires WellFormed(w, p)
  {
    EventsBeforePoll(w, p) + if p.reactor.Triggered? then [D.Poll(p.pollAt)] else []
  }

  ghost predicate Enabled(w: WaitSet, p: Pass)
    requires Inv(w)
  {
    && w.counter > 0 && WellFormed(w, p)
    && D.Feasible(w.queue, EventsBeforePoll(w, p))
    && D.Run(w.queue, EventsBeforePoll(w, p)).clock <= p.pollAt
  }

  lemma PassIsFeasible(w: WaitSet, p: Pass)
    requires Inv(w) && Enabled(w, p)
    ensures D.Feasible(w.queue, PassEvents(w, p))
    ensures p.reactor.Triggered? ==>
              D.Run(w.queue, PassEvents(w, p)) == D.Step(D.Run(w.queue, EventsBeforePoll(w, p)), D.Poll(p.pollAt))
  {
    var es := EventsBeforePoll(w, p);
    if p.reactor.Triggered? {
      var mid := D.Run(w.queue, es);
      assert D.Feasible(mid, [D.Poll(p.pollAt)]) by { assert [D.Poll(p.pollAt)][1..] == []; }
      D.RunConcat(w.queue, es, [D.Poll(p.pollAt)]);
    } else {
      assert PassEvents(w, p) == es;
    }
  }

  /** The indices that are missed when the callbacks run, in callback order. */
  function MissedIn(w: WaitSet, p: Pass): (indices: seq<nat>)
    requires Inv(w) && Enabled(w, p) && p.reactor.Triggered?
  {
    D.Reports(D.Run(w.queue, EventsBeforePoll(w, p)), D.Poll(p.pollAt))
  }

  /** Everything a pass has to hand out, in order. */
  function IdsOfPass(w: WaitSet, self: nat, p: Pass): seq<AttachmentId>
    requires Inv(w) && Enabled(w, p) && p.reactor.Triggered?
  {
    IdsOfIndices(self, w.deadlineToFd, MissedIn(w, p)) + IdsOfFds(self, p.reactor.fds)
  }

  function ApplyPass(w: WaitSet, p: Pass): WaitSet
    requires Inv(w) && Enabled(w, p)
  {
    PassIsFeasible(w, p);
    w.(queue := D.Run(w.queue, PassEvents(w, p)))
  }

  /** A pass, step by step: compute the timeout, reset the triggered deadlines, poll. */
  lemma PassUnfolds(w: WaitSet, p: Pass)
    requires Inv(w) && Enabled(w, p)
    ensures D.Enabled(w.queue, D.Wait(p.timeoutAt))
    ensures var q := D.Step(w.queue, D.Wait(p.timeoutAt));
            if p.reactor.Triggered? then
              var resets := ResetEvents(w.fdToDeadline, p.reactor.fds, p.resetAt);
              && D.Feasible(q, resets) && D.Run(q, resets).clock <= p.pollAt
              && ApplyPass(w, p) == w.(queue := D.Step(D.Run(q, resets), D.Poll(p.pollAt)))
              && MissedIn(w, p) == D.Reports(D.Run(q, resets), D.Poll(p.pollAt))
            else
              ApplyPass(w, p) == w.(queue := q)
  {
    PassIsFeasible(w, p);
    var es := EventsBeforePoll(w, p);
    if p.reactor.Triggered? {
      assert es[1..] == ResetEvents(w.fdToDeadline, p.reactor.fds, p.resetAt);
    } else {
      assert PassEvents(w, p) == es == [D.Wait(p.timeoutAt)];
      assert es[1..] == [];
      assert D.Run(w.queue, es) == D.Run(D.Step(w.queue, es[0]), es[1..]);
    }
  }

  lemma {:induction false} RunKeepsIndices(d: D.Deadlines, es: seq<D.Event>)
    requires D.Inv(d) && D.Feasible(d, es)
    requires forall i :: 0 <= i < |es| ==> !es[i].Add? && !es[i].Remove?
    ensures Indices(D.Run(d, es)) == Indices(d) && D.Run(d, es).idCount == d.idCount
    decreases |es|
  {
    if es != [] {
      StepIndices(d, es[0]);
      RunKeepsIndices(D.Step(d, es[0]), es[1..]);
    }
  }

  lemma {:induction false} ResetEventsAre(fdToDeadline: map<Fd, nat>, fds: seq<Fd>, at: seq<nat>, i: nat) returns (fd: Fd)
    requires |fds| == |at| && i < |ResetEvents(fdToDeadline, fds, at)|
    ensures fd in fds && fd in fdToDeadline
    ensures var e := ResetEvents(fdToDeadline, fds, at)[i]; e.Reset? && e.index == fdToDeadline[fd]
    decreases |fds|
  {
    var n := |fds| - 1;
    var front := ResetEvents(fdToDeadline, fds[..n], at[..n]);
    if i < |front| {
      fd := ResetEventsAre(fdToDeadline, fds[..n], at[..n], i);
    } else {
      fd := fds[n];
    }
  }

  lemma PassEventsAre(w: WaitSet, p: Pass, i: nat)
    requires WellFormed(w, p) && i < |PassEvents(w, p)|
    ensures var e := PassEvents(w, p)[i];
            && !e.Add? && !e.Remove?
            && (e.Reset? ==> exists fd :: fd in w.fdToDeadline && e.index == w.fdToDeadline[fd])
            && (e.Poll? ==> p.reactor.Triggered? && e.now == p.pollAt)
  {
    if p.reactor.Triggered? {
      var resets := ResetEvents(w.fdToDeadline, p.reactor.fds, p.resetAt);
      if 1 <= i < 1 + |resets| {
        var fd := ResetEventsAre(w.fdToDeadline, p.reactor.fds, p.resetAt, i - 1);
      }
    }
  }

  lemma ApplyPassKeepsInv(w: WaitSet, p: Pass)
    requires Inv(w) && Enabled(w, p)
    ensures Inv(ApplyPass(w, p))
  {
    PassIsFeasible(w, p);
    forall i | 0 <= i < |PassEvents(w, p)| ensures !PassEvents(w, p)[i].Add? && !PassEvents(w, p)[i].Remove? {
      PassEventsAre(w, p, i);
    }
    RunKeepsIndices(w.queue, PassEvents(w, p));
  }

  /** Whatever a pass hands to the callback is covered by `IdMatchesOneGuard`. */
  lemma PassHandsOutLiveIds(w: WaitSet, self: nat, p: Pass, id: AttachmentId)
    requires Inv(w) && Enabled(w, p) && p.reactor.Triggered?
    requires id in IdsOfPass(w, self, p)
    ensures HandedOut(w, self, id)
  {
    var missed := MissedIn(w, p);
    var ids := IdsOfIndices(self, w.deadlineToFd, missed);
    if id in ids {
      var i :| 0 <= i < |ids| && ids[i] == id;
      var es := EventsBeforePoll(w, p);
      forall j | 0 <= j < |es| ensures !es[j].Add? && !es[j].Remove? {
        PassEventsAre(w, p, j);
        assert PassEvents(w, p)[j] == es[j];
      }
      RunKeepsIndices(w.queue, es);
      var d := D.Run(w.queue, es);
      D.MissedContains(d.attachments, d.previous, p.pollAt, missed[i]);
    }
  }
}

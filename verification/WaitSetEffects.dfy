/** What attaching and dropping do to a wait set, for every guard, fresh or not. */
module WaitSetEffects {
  import opened Prelude
  import opened WaitSetState
  import opened WaitSetPasses
  import opened DeadlineEffects
  import opened Callbacks
  import D = Deadlines

  /** The descriptor of the guard, if it has one, is what the larger set has more. */
  ghost predicate DescriptorJoins(less: set<Fd>, more: set<Fd>, g: Guard) {
    if g.HasFd() then g.fd !in less && more == less + {g.fd} else more == less
  }

  /** The attachment of the guard, if it has one, is what the larger queue has more. */
  ghost predicate AttachmentJoins(less: D.Deadlines, more: D.Deadlines, g: Guard) {
    if g.HasIndex() then
      && g.index in Indices(more) && g.index !in Indices(less)
      && (forall a :: a in less.attachments <==> a in more.attachments && a.index != g.index)
    else
      more.attachments == less.attachments
  }

  /** `more` is `less` with the guard, its capacity, its descriptor and its attachment; nothing else differs. */
  ghost predicate Joins(less: WaitSet, more: WaitSet, g: Guard) {
    && g !in less.guards && more.guards == less.guards + {g}
    && more.counter == less.counter + 1 && more.capacity == less.capacity
    && DescriptorJoins(less.reactor, more.reactor, g)
    && AttachmentJoins(less.queue, more.queue, g)
  }

  /** Nothing is attached or detached. */
  ghost predicate SameAttachments(w: WaitSet, r: WaitSet) {
    && r.guards == w.guards && r.counter == w.counter && r.capacity == w.capacity
    && r.reactor == w.reactor && r.queue.attachments == w.queue.attachments
  }

  lemma NotificationJoins(w: WaitSet, fd: Fd)
    requires Inv(w)
    ensures var (r, result) := AttachNotification(w, fd);
            && (fd in w.reactor ==> result == Err(AlreadyAttached))
            && (result.Ok? ==> result.value == Notification(fd) && Joins(w, r, Notification(fd)) && r.queue == w.queue)
            && (result.Err? ==> r == w)
  {
    if Notification(fd) in w.guards {
      assert w.GuardOfFd(fd) == Notification(fd);
    }
  }

  lemma IntervalJoins(w: WaitSet, period: nat, now: nat)
    requires Inv(w) && w.queue.clock <= now
    ensures var (r, result) := AttachInterval(w, period, now);
            && (result.Ok? ==>
                  && result.value.Tick? && Joins(w, r, result.value)
                  && D.Attachment(result.value.index, period, now) in r.queue.attachments)
            && (result.Err? ==> result == Err(InsufficientCapacity) && SameAttachments(w, r))
            && r.fdToDeadline == w.fdToDeadline && r.deadlineToFd == w.deadlineToFd
  {
    IndexIsFresh(w);
    AddedJoins(w.queue, period, now);
    RemoveUndoesAdd(w.queue, period, now);
  }

  lemma AddedJoins(d: D.Deadlines, period: nat, now: nat)
    requires D.Inv(d) && d.clock <= now
    ensures var r, added := D.Step(d, D.Add(period, now)), D.Attachment(d.idCount, period, now);
            && added in r.attachments && d.idCount in Indices(r) && d.idCount !in Indices(d)
            && forall a: D.Attachment :: a in d.attachments <==> a in r.attachments && a.index != d.idCount
  {
    var r, added := D.Step(d, D.Add(period, now)), D.Attachment(d.idCount, period, now);
    forall a ensures a in r.attachments <==> a in d.attachments || a == added {
      AddComesLast(d, period, now, a);
    }
    StepIndices(d, D.Add(period, now));
  }

  /** A refused deadline leaves its two map entries behind, and nothing else. */
  lemma DeadlineJoins(w: WaitSet, fd: Fd, period: nat, now: nat)
    requires Inv(w) && w.queue.clock <= now
    ensures var (r, result) := AttachDeadline(w, fd, period, now);
            && (fd in w.reactor ==> result == Err(AlreadyAttached))
            && (result == Err(AlreadyAttached) ==> r == w)
            && (result.Ok? ==>
                  && result.value.Deadline? && result.value.fd == fd && Joins(w, r, result.value)
                  && D.Attachment(result.value.index, period, now) in r.queue.attachments)
            && (result == Err(InsufficientCapacity) ==> SameAttachments(w, r))
            && (result != Err(AlreadyAttached) ==>
                  && r.fdToDeadline == w.fdToDeadline[fd := w.queue.idCount]
                  && r.deadlineToFd == w.deadlineToFd[w.queue.idCount := fd])
  {
    IndexIsFresh(w);
    AddedJoins(w.queue, period, now);
    RemoveUndoesAdd(w.queue, period, now);
  }

  /** Dropping any living guard is the reverse of attaching it. */
  lemma DropLeaves(w: WaitSet, g: Guard)
    requires Inv(w) && g in w.guards
    ensures w.counter > 0 && Joins(DropGuard(w, g), w, g)
  {
    DropGuardKeepsInv(w, g);
    if g.HasFd() {
      assert g == w.GuardOfFd(g.fd);
    }
    if g.HasIndex() {
      assert g == w.GuardOfIndex(g.index);
      RemovedLeaves(w.queue, g);
    }
  }

  lemma RemovedLeaves(d: D.Deadlines, g: Guard)
    requires D.Inv(d) && g.HasIndex() && g.index in Indices(d)
    ensures AttachmentJoins(D.Step(d, D.Remove(g.index)), d, g)
  {
    StepIndices(d, D.Remove(g.index));
    forall a ensures a in D.Step(d, D.Remove(g.index)).attachments <==> a in d.attachments && a.index != g.index {
      RemoveTakesIndex(d, g.index, a);
    }
  }

  /** The maps forget a dropped deadline, and nothing else. */
  lemma DropForgetsDeadline(w: WaitSet, g: Guard)
    requires Inv(w) && g in w.guards
    ensures w.counter > 0
    ensures var r := DropGuard(w, g);
            && (forall fd :: fd in r.fdToDeadline <==> fd in w.fdToDeadline && g != Deadline(fd, w.fdToDeadline[fd]))
            && (forall fd :: fd in r.fdToDeadline ==> r.fdToDeadline[fd] == w.fdToDeadline[fd])
            && (forall i :: i in r.deadlineToFd <==> i in w.deadlineToFd && g != Deadline(w.deadlineToFd[i], i))
            && (forall i :: i in r.deadlineToFd ==> r.deadlineToFd[i] == w.deadlineToFd[i])
  {
    if g.Deadline? {
      assert g == w.GuardOfFd(g.fd) && g == w.GuardOfIndex(g.index);
    }
  }

  /** Dropping the guard of a notification that was just attached restores the wait set. */
  lemma DropUndoesNotification(w: WaitSet, fd: Fd)
    requires Inv(w)
    ensures var (r, result) := AttachNotification(w, fd);
            result.Ok? ==>
              && Inv(r) && result.value in r.guards && r.counter > 0
              && DropGuard(r, result.value) == w
  {
    AttachNotificationKeepsInv(w, fd);
    NotificationJoins(w, fd);
    if AttachNotification(w, fd).1.Ok? {
      assert w.reactor + {fd} - {fd} == w.reactor;
      assert w.guards + {Notification(fd)} - {Notification(fd)} == w.guards;
    }
  }

  // ---------------------------------------------------------------------- calls

  /**
   * The ids of a pass and the living guards: a guard has an event exactly when its descriptor was
   * triggered or its interval is over, and a missed deadline exactly when its deadline is over.
   */
  lemma CalledIff(w: WaitSet, self: nat, p: Pass, g: Guard)
    requires Inv(w) && Enabled(w, p) && p.reactor.Triggered? && g in w.guards
    ensures (exists id :: id in IdsOfPass(w, self, p) && HasEventFrom(id, self, g)) <==>
            if g.Tick? then g.index in MissedIn(w, p) else g.fd in p.reactor.fds
    ensures (exists id :: id in IdsOfPass(w, self, p) && HasMissedDeadline(id, self, g)) <==>
            g.Deadline? && g.index in MissedIn(w, p)
  {
    forall id | id in IdsOfPass(w, self, p)
      ensures HasEventFrom(id, self, g) ==> if g.Tick? then g.index in MissedIn(w, p) else g.fd in p.reactor.fds
      ensures HasMissedDeadline(id, self, g) ==> g.Deadline? && g.index in MissedIn(w, p)
    {
      IdComesFromPass(w, self, p, id);
    }
    if g.HasIndex() && g.index in MissedIn(w, p) {
      IndexIsCalled(w, self, p, g);
    }
    if g.HasFd() && g.fd in p.reactor.fds {
      DescriptorIsCalled(w, self, p, g.fd);
    }
  }

  lemma IdComesFromPass(w: WaitSet, self: nat, p: Pass, id: AttachmentId)
    requires Inv(w) && Enabled(w, p) && p.reactor.Triggered? && id in IdsOfPass(w, self, p)
    ensures if id.NotificationId? then id.fd in p.reactor.fds else id.index in MissedIn(w, p)
  {
    var missed, fds := IdsOfIndices(self, w.deadlineToFd, MissedIn(w, p)), IdsOfFds(self, p.reactor.fds);
    if id in missed {
      var i :| 0 <= i < |missed| && missed[i] == id;
      assert MissedIn(w, p)[i] == id.index;
    } else {
      var i :| 0 <= i < |fds| && fds[i] == id;
      assert p.reactor.fds[i] == id.fd;
    }
  }

  lemma IndexIsCalled(w: WaitSet, self: nat, p: Pass, g: Guard)
    requires Inv(w) && Enabled(w, p) && p.reactor.Triggered?
    requires g in w.guards && g.HasIndex() && g.index in MissedIn(w, p)
    ensures FromGuard(self, g) in IdsOfPass(w, self, p)
  {
    assert g == w.GuardOfIndex(g.index);
    var missed := MissedIn(w, p);
    var i :| 0 <= i < |missed| && missed[i] == g.index;
    assert IdsOfPass(w, self, p)[i] == IdOfIndex(self, w.deadlineToFd, g.index);
  }

  lemma DescriptorIsCalled(w: WaitSet, self: nat, p: Pass, fd: Fd)
    requires Inv(w) && Enabled(w, p) && p.reactor.Triggered? && fd in p.reactor.fds
    ensures NotificationId(self, fd) in IdsOfPass(w, self, p)
  {
    var i :| 0 <= i < |p.reactor.fds| && p.reactor.fds[i] == fd;
    assert IdsOfPass(w, self, p)[|MissedIn(w, p)| + i] == NotificationId(self, fd);
  }

  /** A triggered descriptor reaches the callback as an event of its guard, unless the callback stops the pass. */
  lemma EventReachesCallback(w: WaitSet, self: nat, p: Pass, g: Guard,
                             call: Callback<AttachmentId>, called: seq<AttachmentId>)
    requires Inv(w) && Enabled(w, p) && p.reactor.Triggered? && g in w.guards && g.HasFd() && g.fd in p.reactor.fds
    requires CutAtStop(IdsOfPass(w, self, p), call, called) && !Stopped(call, called)
    ensures exists id :: id in called && HasEventFrom(id, self, g)
  {
    UncutIsAll(IdsOfPass(w, self, p), call, called);
    CalledIff(w, self, p, g);
  }

  /** Everything missed is handed out before any event of a descriptor. */
  lemma MissedComesFirst(w: WaitSet, self: nat, p: Pass, i: nat, j: nat)
    requires Inv(w) && Enabled(w, p) && p.reactor.Triggered? && i < |IdsOfPass(w, self, p)| && j < |IdsOfPass(w, self, p)|
    requires !IdsOfPass(w, self, p)[i].NotificationId? && IdsOfPass(w, self, p)[j].NotificationId?
    ensures i < j
  {
  }
}

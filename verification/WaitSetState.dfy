/**
 * The attachments of iceoryx2/src/waitset.rs as a value: the reactor's file
 * descriptors, the deadline queue, the two maps between them, the counter, and
 * the guards that are alive.
 */
module WaitSetState {
  import opened Prelude
  import D = Deadlines

  type Fd = int

  datatype Guard = Tick(index: nat) | Deadline(fd: Fd, index: nat) | Notification(fd: Fd)
  {
    predicate HasFd() { !Tick? }
    predicate HasIndex() { !Notification? }
  }

  datatype AttachmentError = InsufficientCapacity | AlreadyAttached

  datatype WaitSet = WaitSet(
    capacity: nat,
    reactor: set<Fd>,
    queue: D.Deadlines,
    fdToDeadline: map<Fd, nat>,
    deadlineToFd: map<nat, Fd>,
    counter: nat,
    guards: set<Guard>)
  {
    /** The only guard that may hold the descriptor. */
    function GuardOfFd(fd: Fd): Guard {
      if fd in fdToDeadline && Deadline(fd, fdToDeadline[fd]) in guards then Deadline(fd, fdToDeadline[fd])
      else Notification(fd)
    }

    /** The only guard that may hold the deadline index. */
    function GuardOfIndex(index: nat): Guard {
      if index in deadlineToFd then Deadline(deadlineToFd[index], index) else Tick(index)
    }
  }

  ghost function Indices(d: D.Deadlines): set<nat> {
    set i | 0 <= i < |d.attachments| :: d.attachments[i].index
  }

  lemma StepIndices(d: D.Deadlines, e: D.Event)
    requires D.Inv(d) && D.Enabled(d, e)
    ensures Indices(D.Step(d, e)) == match e
      case Add(_, _) => Indices(d) + {d.idCount}
      case Remove(index) => Indices(d) - {index}
      case _ => Indices(d)
    ensures D.Step(d, e).idCount >= d.idCount
  {
    var r := D.Step(d, e);
    match e {
      case Add(_, _) =>
        assert forall i :: 0 <= i < |d.attachments| ==> r.attachments[i] == d.attachments[i];
        assert r.attachments[|d.attachments|].index == d.idCount;
      case Remove(index) =>
        RemoveIndices(d, index);
      case Reset(_, _) =>
        assert forall i :: 0 <= i < |d.attachments| ==> r.attachments[i].index == d.attachments[i].index;
      case _ =>
    }
  }

  lemma RemoveIndices(d: D.Deadlines, index: nat)
    requires D.Inv(d)
    ensures Indices(D.Step(d, D.Remove(index))) == Indices(d) - {index}
  {
    var all, p := d.attachments, D.Position(d.attachments, index);
    if p < |all| {
      IndicesWithout(all, p);
    }
  }

  lemma IndicesWithout(all: seq<D.Attachment>, p: nat)
    requires p < |all| && forall i, j :: 0 <= i < j < |all| ==> all[i].index != all[j].index
    ensures (set i | 0 <= i < |all| - 1 :: Without(all, p)[i].index) ==
            (set i | 0 <= i < |all| :: all[i].index) - {all[p].index}
  {
    var rest := Without(all, p);
    var left := set i | 0 <= i < |all| - 1 :: rest[i].index;
    forall i | 0 <= i < |all| && i != p ensures all[i].index in left {
      assert rest[if i < p then i else i - 1] == all[i];
    }
    forall i | 0 <= i < |rest| ensures rest[i].index != all[p].index && exists j :: 0 <= j < |all| && all[j] == rest[i] {
      assert rest[i] == all[if i < p then i else i + 1];
    }
  }

  // ------------------------------------------------------------------ invariant

  /** Every descriptor in the reactor belongs to one live guard, and so does every queued index. */
  ghost predicate GuardsOwnResources(w: WaitSet) {
    && (forall fd :: fd in w.reactor <==> w.GuardOfFd(fd) in w.guards)
    && (forall g :: g in w.guards && g.HasFd() ==> g == w.GuardOfFd(g.fd))
    && (forall index :: index in Indices(w.queue) <==> w.GuardOfIndex(index) in w.guards)
    && (forall g :: g in w.guards && g.HasIndex() ==> g == w.GuardOfIndex(g.index))
  }

  /** Map entries left behind by failed attaches name indices that are not in the queue. */
  ghost predicate StaleEntriesAreDead(w: WaitSet) {
    && (forall index :: index in w.deadlineToFd ==> index < w.queue.idCount)
    && (forall fd :: fd in w.fdToDeadline ==>
          && w.fdToDeadline[fd] < w.queue.idCount
          && (w.fdToDeadline[fd] in Indices(w.queue) ==> Deadline(fd, w.fdToDeadline[fd]) in w.guards))
  }

  ghost predicate Inv(w: WaitSet) {
    && D.Inv(w.queue)
    && w.counter == |w.guards| <= w.capacity
    && GuardsOwnResources(w)
    && StaleEntriesAreDead(w)
  }

  function Create(capacity: nat, now: nat): (w: WaitSet)
  {
    WaitSet(capacity, {}, D.Deadlines([], 0, now, now), map[], map[], 0, {})
  }

  lemma CreateEstablishesInv(capacity: nat, now: nat)
    ensures Inv(Create(capacity, now))
    ensures Create(capacity, now).capacity == capacity && Create(capacity, now).guards == {}
    ensures Create(capacity, now).queue.previous == now
  {
  }

  // ------------------------------------------------------------------ operations

  /** The reactor refuses when full and when the descriptor is present; both surface as AlreadyAttached. */
  predicate ReactorRefuses(w: WaitSet, fd: Fd) {
    |w.reactor| >= w.capacity || fd in w.reactor
  }

  function AttachNotification(w: WaitSet, fd: Fd): (WaitSet, Result<Guard, AttachmentError>)
  {
    if ReactorRefuses(w, fd) then (w, Err(AlreadyAttached))
    else if w.counter == w.capacity then (w, Err(InsufficientCapacity))
    else (w.(reactor := w.reactor + {fd}, counter := w.counter + 1, guards := w.guards + {Notification(fd)}),
          Ok(Notification(fd)))
  }

  function AttachInterval(w: WaitSet, period: nat, now: nat): (WaitSet, Result<Guard, AttachmentError>)
    requires D.Inv(w.queue) && w.queue.clock <= now
  {
    var index := w.queue.idCount;
    var added := w.(queue := D.Step(w.queue, D.Add(period, now)));
    if w.counter == w.capacity then
      (added.(queue := D.Step(added.queue, D.Remove(index))), Err(InsufficientCapacity))
    else
      (added.(counter := w.counter + 1, guards := w.guards + {Tick(index)}), Ok(Tick(index)))
  }

  /** Both maps are filled before the capacity is checked; a failure leaves them filled. */
  function AttachDeadline(w: WaitSet, fd: Fd, period: nat, now: nat): (WaitSet, Result<Guard, AttachmentError>)
    requires D.Inv(w.queue) && w.queue.clock <= now
  {
    if ReactorRefuses(w, fd) then
      (w, Err(AlreadyAttached))
    else
      var index := w.queue.idCount;
      var added := w.(queue := D.Step(w.queue, D.Add(period, now)),
                      fdToDeadline := w.fdToDeadline[fd := index],
                      deadlineToFd := w.deadlineToFd[index := fd]);
      if w.counter == w.capacity then
        (added.(queue := D.Step(added.queue, D.Remove(index))), Err(InsufficientCapacity))
      else
        (added.(reactor := w.reactor + {fd}, counter := w.counter + 1, guards := w.guards + {Deadline(fd, index)}),
         Ok(Deadline(fd, index)))
  }

  /** Dropping a guard: the maps first, then the counter, then the reactor and queue guards it owns. */
  function DropGuard(w: WaitSet, g: Guard): WaitSet
    requires D.Inv(w.queue) && w.counter > 0
  {
    var unmapped := if g.Deadline? then
                      w.(fdToDeadline := w.fdToDeadline - {g.fd}, deadlineToFd := w.deadlineToFd - {g.index})
                    else w;
    unmapped.(counter := w.counter - 1,
              reactor := if g.HasFd() then w.reactor - {g.fd} else w.reactor,
              queue := if g.HasIndex() then D.Step(w.queue, D.Remove(g.index)) else w.queue,
              guards := w.guards - {g})
  }

  lemma AttachNotificationKeepsInv(w: WaitSet, fd: Fd)
    requires Inv(w)
    ensures Inv(AttachNotification(w, fd).0)
  {
    if !ReactorRefuses(w, fd) && w.counter < w.capacity {
      FreshNotificationKeepsInv(w, fd);
    }
  }

  lemma FreshNotificationKeepsInv(w: WaitSet, fd: Fd)
    requires Inv(w) && fd !in w.reactor && w.counter < w.capacity
    ensures Inv(w.(reactor := w.reactor + {fd}, counter := w.counter + 1, guards := w.guards + {Notification(fd)}))
  {
    var r := w.(reactor := w.reactor + {fd}, counter := w.counter + 1, guards := w.guards + {Notification(fd)});
    assert forall g :: g in w.guards && g.HasFd() ==> g.fd != fd;
    assert forall f :: f != fd ==> r.GuardOfFd(f) == w.GuardOfFd(f);
    assert r.GuardOfFd(fd) == Notification(fd);
    assert forall i :: r.GuardOfIndex(i) == w.GuardOfIndex(i);
    assert GuardsOwnResources(r);
    assert StaleEntriesAreDead(r);
  }

  lemma AttachIntervalKeepsInv(w: WaitSet, period: nat, now: nat)
    requires Inv(w) && w.queue.clock <= now
    ensures Inv(AttachInterval(w, period, now).0)
  {
    var index := w.queue.idCount;
    var queue := D.Step(w.queue, D.Add(period, now));
    StepIndices(w.queue, D.Add(period, now));
    IndexIsFresh(w);
    if w.counter == w.capacity {
      StepIndices(queue, D.Remove(index));
      NewQueueKeepsInv(w, D.Step(queue, D.Remove(index)));
    } else {
      FreshTickKeepsInv(w, queue);
    }
  }

  /** The next index is neither queued nor mapped nor part of a live guard. */
  lemma IndexIsFresh(w: WaitSet)
    requires Inv(w)
    ensures w.queue.idCount !in Indices(w.queue) && w.queue.idCount !in w.deadlineToFd
    ensures forall g :: g in w.guards && g.HasIndex() ==> g.index != w.queue.idCount
  {
  }

  lemma NewQueueKeepsInv(w: WaitSet, queue: D.Deadlines)
    requires Inv(w) && D.Inv(queue) && Indices(queue) == Indices(w.queue) && queue.idCount >= w.queue.idCount
    ensures Inv(w.(queue := queue))
  {
    var r := w.(queue := queue);
    assert forall f :: r.GuardOfFd(f) == w.GuardOfFd(f);
    assert forall i :: r.GuardOfIndex(i) == w.GuardOfIndex(i);
    assert GuardsOwnResources(r);
    assert StaleEntriesAreDead(r);
  }

  lemma FreshTickKeepsInv(w: WaitSet, queue: D.Deadlines)
    requires Inv(w) && D.Inv(queue) && w.counter < w.capacity
    requires Indices(queue) == Indices(w.queue) + {w.queue.idCount} && queue.idCount >= w.queue.idCount
    ensures Inv(w.(queue := queue, counter := w.counter + 1, guards := w.guards + {Tick(w.queue.idCount)}))
  {
    IndexIsFresh(w);
    var r := w.(queue := queue, counter := w.counter + 1, guards := w.guards + {Tick(w.queue.idCount)});
    assert forall f :: r.GuardOfFd(f) == w.GuardOfFd(f);
    assert forall i :: r.GuardOfIndex(i) == w.GuardOfIndex(i);
  }

  lemma AttachDeadlineKeepsInv(w: WaitSet, fd: Fd, period: nat, now: nat)
    requires Inv(w) && w.queue.clock <= now
    ensures Inv(AttachDeadline(w, fd, period, now).0)
  {
    if !ReactorRefuses(w, fd) {
      var index := w.queue.idCount;
      var queue := D.Step(w.queue, D.Add(period, now));
      StepIndices(w.queue, D.Add(period, now));
      assert index !in Indices(w.queue);
      if w.counter == w.capacity {
        StepIndices(queue, D.Remove(index));
        StaleEntriesKeepInv(w, fd, D.Step(queue, D.Remove(index)));
      } else {
        FreshDeadlineKeepsInv(w, fd, queue);
      }
    }
  }

  /** A failed attach changes no live guard's view of the maps. */
  lemma StaleEntriesKeepInv(w: WaitSet, fd: Fd, queue: D.Deadlines)
    requires Inv(w) && D.Inv(queue) && fd !in w.reactor
    requires Indices(queue) == Indices(w.queue) && queue.idCount == w.queue.idCount + 1
    ensures Inv(w.(queue := queue, fdToDeadline := w.fdToDeadline[fd := w.queue.idCount],
                   deadlineToFd := w.deadlineToFd[w.queue.idCount := fd]))
  {
    var index := w.queue.idCount;
    assert index !in Indices(w.queue);
    assert forall g :: g in w.guards && g.HasIndex() ==> g.index != index;
    var r := w.(queue := queue, fdToDeadline := w.fdToDeadline[fd := index], deadlineToFd := w.deadlineToFd[index := fd]);
    assert forall f :: r.GuardOfFd(f) == w.GuardOfFd(f) || f == fd;
    assert forall i :: i != index ==> r.GuardOfIndex(i) == w.GuardOfIndex(i);
  }

  lemma FreshDeadlineKeepsInv(w: WaitSet, fd: Fd, queue: D.Deadlines)
    requires Inv(w) && D.Inv(queue) && fd !in w.reactor && w.counter < w.capacity
    requires Indices(queue) == Indices(w.queue) + {w.queue.idCount} && queue.idCount == w.queue.idCount + 1
    ensures Inv(w.(queue := queue, fdToDeadline := w.fdToDeadline[fd := w.queue.idCount],
                   deadlineToFd := w.deadlineToFd[w.queue.idCount := fd], reactor := w.reactor + {fd},
                   counter := w.counter + 1, guards := w.guards + {Deadline(fd, w.queue.idCount)}))
  {
    var index := w.queue.idCount;
    IndexIsFresh(w);
    assert forall g :: g in w.guards && g.HasFd() ==> g.fd != fd;
    var r := w.(queue := queue, fdToDeadline := w.fdToDeadline[fd := index], deadlineToFd := w.deadlineToFd[index := fd],
                reactor := w.reactor + {fd}, counter := w.counter + 1, guards := w.guards + {Deadline(fd, index)});
    assert forall f :: f != fd ==> r.GuardOfFd(f) == w.GuardOfFd(f);
    assert forall i :: i != index ==> r.GuardOfIndex(i) == w.GuardOfIndex(i);
    assert r.GuardOfFd(fd) == r.GuardOfIndex(index) == Deadline(fd, index);
    FreshGuardOwnsResources(w, r, Deadline(fd, index));
    assert StaleEntriesAreDead(r);
  }

  /** A guard with a new descriptor and a new index joins the others. */
  lemma FreshGuardOwnsResources(w: WaitSet, r: WaitSet, g: Guard)
    requires GuardsOwnResources(w) && g.Deadline? && r.guards == w.guards + {g}
    requires r.reactor == w.reactor + {g.fd} && Indices(r.queue) == Indices(w.queue) + {g.index}
    requires forall h :: h in w.guards ==> (h.HasFd() ==> h.fd != g.fd) && (h.HasIndex() ==> h.index != g.index)
    requires forall f :: f != g.fd ==> r.GuardOfFd(f) == w.GuardOfFd(f)
    requires forall i :: i != g.index ==> r.GuardOfIndex(i) == w.GuardOfIndex(i)
    requires r.GuardOfFd(g.fd) == r.GuardOfIndex(g.index) == g
    ensures GuardsOwnResources(r)
  {
  }

  lemma DropGuardKeepsInv(w: WaitSet, g: Guard)
    requires Inv(w) && g in w.guards
    ensures w.counter > 0 && Inv(DropGuard(w, g))
  {
    assert |w.guards - {g}| == |w.guards| - 1;
    if g.HasIndex() { StepIndices(w.queue, D.Remove(g.index)); }
    var r := DropGuard(w, g);
    assert forall f :: !g.HasFd() || f != g.fd ==> r.GuardOfFd(f) == w.GuardOfFd(f);
    assert forall i :: !g.HasIndex() || i != g.index ==> r.GuardOfIndex(i) == w.GuardOfIndex(i);
  }

  /**
   * Dropping a guard undoes its attach: only the index counter and the clock have
   * moved, and a stale map entry that the descriptor had from a failed attach is gone.
   */
  lemma DropUndoesDeadline(w: WaitSet, fd: Fd, period: nat, now: nat)
    requires Inv(w) && w.queue.clock <= now
    ensures var (r, result) := AttachDeadline(w, fd, period, now);
            result.Ok? ==>
              && Inv(r) && result.value in r.guards
              && DropGuard(r, result.value) ==
                 w.(fdToDeadline := w.fdToDeadline - {fd}, queue := w.queue.(idCount := w.queue.idCount + 1, clock := now))
  {
    AttachDeadlineKeepsInv(w, fd, period, now);
    if AttachDeadline(w, fd, period, now).1.Ok? {
      IndexIsFresh(w);
      DropUndoesFreshDeadline(w, fd, period, now);
    }
  }

  lemma DropUndoesFreshDeadline(w: WaitSet, fd: Fd, period: nat, now: nat)
    requires D.Inv(w.queue) && w.queue.clock <= now && AttachDeadline(w, fd, period, now).1.Ok?
    requires w.queue.idCount !in w.deadlineToFd && Deadline(fd, w.queue.idCount) !in w.guards
    ensures var (r, result) := AttachDeadline(w, fd, period, now);
            && D.Inv(r.queue) && r.counter > 0
            && DropGuard(r, result.value) ==
               w.(fdToDeadline := w.fdToDeadline - {fd}, queue := w.queue.(idCount := w.queue.idCount + 1, clock := now))
  {
    var index := w.queue.idCount;
    RemoveUndoesAdd(w.queue, period, now);
    assert w.fdToDeadline[fd := index] - {fd} == w.fdToDeadline - {fd};
    assert w.deadlineToFd[index := fd] - {index} == w.deadlineToFd;
    assert w.reactor + {fd} - {fd} == w.reactor;
    assert w.guards + {Deadline(fd, index)} - {Deadline(fd, index)} == w.guards;
  }

  lemma DropUndoesInterval(w: WaitSet, period: nat, now: nat)
    requires Inv(w) && w.queue.clock <= now
    ensures var (r, result) := AttachInterval(w, period, now);
            if result.Ok? then
              && result.value in r.guards && D.Inv(r.queue) && r.counter > 0
              && DropGuard(r, result.value) == w.(queue := w.queue.(idCount := w.queue.idCount + 1, clock := now))
            else
              r == w.(queue := w.queue.(idCount := w.queue.idCount + 1, clock := now))
  {
    RemoveUndoesAdd(w.queue, period, now);
    IndexIsFresh(w);
    var (r, result) := AttachInterval(w, period, now);
    if result.Ok? {
      assert DropGuard(r, result.value).guards == w.guards;
    }
  }

  lemma RemoveUndoesAdd(d: D.Deadlines, period: nat, now: nat)
    requires D.Inv(d) && d.clock <= now
    ensures D.Step(D.Step(d, D.Add(period, now)), D.Remove(d.idCount)) == d.(idCount := d.idCount + 1, clock := now)
  {
    var all := D.Step(d, D.Add(period, now)).attachments;
    assert D.Position(all, d.idCount) == |d.attachments| by {
      assert all[|d.attachments|].index == d.idCount;
      assert forall i :: 0 <= i < |d.attachments| ==> all[i].index != d.idCount;
    }
    assert Without(all, |d.attachments|) == d.attachments;
  }
}

/**
 * Which error a full wait set reports. The reactor has the capacity of the wait set and is
 * asked first; when it is full, its refusal is passed on as "already attached".
 */
module WaitSetErrors {
  import opened Prelude
  import opened WaitSetState

  /** The guards that hold a descriptor. */
  ghost function DescriptorGuards(w: WaitSet): set<Guard> {
    set g | g in w.guards && g.HasFd()
  }

  /** One descriptor per such guard. */
  lemma ReactorSize(w: WaitSet)
    requires Inv(w)
    ensures |w.reactor| == |DescriptorGuards(w)|
  {
    var fdOf := (g: Guard) requires g.HasFd() => g.fd;
    var guards := DescriptorGuards(w);
    forall fd | fd in w.reactor ensures exists g :: g in guards && fdOf(g) == fd {
      assert w.GuardOfFd(fd) in guards && fdOf(w.GuardOfFd(fd)) == fd;
    }
    forall g | g in guards ensures fdOf(g) in w.reactor {
      assert g == w.GuardOfFd(g.fd);
    }
    assert w.reactor == set g | g in guards :: fdOf(g);
    InjectiveImageSize(guards, fdOf, w.reactor);
  }

  ghost predicate HoldsInterval(w: WaitSet) {
    exists g :: g in w.guards && g.Tick?
  }

  lemma ReactorFullIff(w: WaitSet)
    requires Inv(w)
    ensures |w.reactor| >= w.capacity <==> w.counter == w.capacity && !HoldsInterval(w)
  {
    ReactorSize(w);
    SubsetSize(DescriptorGuards(w), w.guards);
    if !HoldsInterval(w) {
      assert DescriptorGuards(w) == w.guards;
    }
  }

  /**
   * Attaching a new descriptor fails exactly when the capacity is used up. The error is the
   * documented one exactly when some of the capacity went to an interval.
   */
  lemma NotificationErrorIff(w: WaitSet, fd: Fd)
    requires Inv(w) && fd !in w.reactor
    ensures AttachNotification(w, fd).1 == Err(AlreadyAttached) <==> w.counter == w.capacity && !HoldsInterval(w)
    ensures AttachNotification(w, fd).1 == Err(InsufficientCapacity) <==> w.counter == w.capacity && HoldsInterval(w)
  {
    ReactorFullIff(w);
  }

  lemma DeadlineErrorIff(w: WaitSet, fd: Fd, period: nat, now: nat)
    requires Inv(w) && fd !in w.reactor && w.queue.clock <= now
    ensures AttachDeadline(w, fd, period, now).1 == Err(AlreadyAttached) <==>
            w.counter == w.capacity && !HoldsInterval(w)
    ensures AttachDeadline(w, fd, period, now).1 == Err(InsufficientCapacity) <==>
            w.counter == w.capacity && HoldsInterval(w)
  {
    ReactorFullIff(w);
  }

  /** A wait set for one attachment calls a second, different descriptor already attached. */
  lemma FullReactorMisreports(fd: Fd, other: Fd, now: nat)
    requires fd != other
    ensures var w := AttachNotification(Create(1, now), fd).0;
            && AttachNotification(Create(1, now), fd).1.Ok? && other !in w.reactor
            && AttachNotification(w, other) == (w, Err(AlreadyAttached))
  {
    CreateEstablishesInv(1, now);
    AttachNotificationKeepsInv(Create(1, now), fd);
    NotificationErrorIff(AttachNotification(Create(1, now), fd).0, other);
  }
}

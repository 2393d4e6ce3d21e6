/** The mutable wait set of iceoryx2/src/waitset.rs. */
module WaitSet {
  import opened Prelude
  import opened Callbacks
  import opened WaitSetState
  import opened WaitSetPasses
  import D = Deadlines
  import Math
  import Q = DeadlineQueue

  datatype RunResult = TerminationRequest | Interrupted | StopRequest | AllEventsHandled
  datatype RunError = NoPermission | InternalError | NoAttachments

  /** How long the queue lets the reactor sleep: until the next boundary, not at all when one is already missed. */
  ghost predicate QueueAllows(q: D.Deadlines, now: nat, sleep: nat)
    requires D.Inv(q) && q.clock <= now
  {
    if q.attachments == [] then
      sleep == Q.DURATION_MAX
    else if D.Missed(q.attachments, q.previous, now) != [] then
      sleep == 0
    else
      exists distance :: 0 < distance && Q.IsDistanceToNext(q.attachments, now, distance) && sleep == distance % Math.WORD
  }

  /** The reactor sleeps no longer than the caller and the queue allow, and as long as both do. */
  ghost predicate WaitsUntilNext(q: D.Deadlines, now: nat, timeout: nat, wait: nat)
    requires D.Inv(q) && q.clock <= now
  {
    exists sleep :: QueueAllows(q, now, sleep) && wait <= timeout && wait <= sleep && (wait == timeout || wait == sleep)
  }

  class WaitSet {
    /** The address of the wait set, which its ids carry. */
    const self: nat
    const capacity: nat
    const handleSignals: bool
    const queue: Q.DeadlineQueue
    var reactor: set<Fd>
    var fdToDeadline: map<Fd, nat>
    var deadlineToFd: map<nat, Fd>
    var counter: nat
    /** The guards handed out and not yet dropped. */
    ghost var guards: set<Guard>

    ghost function State(): (w: WaitSetState.WaitSet)
      reads this, queue
    {
      WaitSetState.WaitSet(capacity, reactor, queue.State(), fdToDeadline, deadlineToFd, counter, guards)
    }

    /** The heap part of the invariant; `Inv(State())` is the rest. */
    ghost predicate Valid()
      reads this, queue
    {
      queue.Valid()
    }

    constructor (self: nat, capacity: nat, handleSignals: bool, now: nat)
      ensures Valid() && fresh(queue)
      ensures State() == Create(capacity, now)
      ensures this.self == self && this.handleSignals == handleSignals
    {
      this.self, this.capacity, this.handleSignals := self, capacity, handleSignals;
      queue := new Q.DeadlineQueue(now);
      reactor, fdToDeadline, deadlineToFd, counter, guards := {}, map[], map[], 0, {};
    }

    /** Takes one place of the capacity, unless all are taken. */
    method Attach() returns (attached: bool)
      modifies this`counter
      ensures attached <==> old(counter) != capacity
      ensures counter == if attached then old(counter) + 1 else old(counter)
    {
      if counter == capacity {
        return false;
      }
      counter := counter + 1;
      return true;
    }

    method AttachToReactor(fd: Fd) returns (attached: bool)
      modifies this`reactor
      ensures attached <==> |old(reactor)| < capacity && fd !in old(reactor)
      ensures reactor == if attached then old(reactor) + {fd} else old(reactor)
    {
      if |reactor| >= capacity || fd in reactor {
        return false;
      }
      reactor := reactor + {fd};
      return true;
    }

    method AttachNotification(fd: Fd) returns (result: Result<Guard, AttachmentError>)
      requires Valid()
      modifies this
      ensures Valid() && (State(), result) == WaitSetState.AttachNotification(old(State()), fd)
    {
      var added := AttachToReactor(fd);
      if !added {
        return Err(AlreadyAttached);
      }
      var attached := Attach();
      if !attached {
        reactor := reactor - {fd};
        return Err(InsufficientCapacity);
      }
      guards := guards + {Notification(fd)};
      return Ok(Notification(fd));
    }

    method AttachInterval(interval: nat, now: nat) returns (result: Result<Guard, AttachmentError>)
      requires Valid() && queue.clock <= now && interval <= Q.DURATION_MAX
      modifies this, queue
      ensures Valid() && (State(), result) == WaitSetState.AttachInterval(old(State()), interval, now)
    {
      var index := queue.AddDeadlineInterval(interval, now);
      var attached := Attach();
      if !attached {
        queue.Remove(index);
        return Err(InsufficientCapacity);
      }
      guards := guards + {Tick(index)};
      return Ok(Tick(index));
    }

    method AttachDeadline(fd: Fd, deadline: nat, now: nat) returns (result: Result<Guard, AttachmentError>)
      requires Valid() && queue.clock <= now && deadline <= Q.DURATION_MAX
      modifies this, queue
      ensures Valid() && (State(), result) == WaitSetState.AttachDeadline(old(State()), fd, deadline, now)
    {
      var added := AttachToReactor(fd);
      if !added {
        return Err(AlreadyAttached);
      }
      var index := queue.AddDeadlineInterval(deadline, now);
      fdToDeadline := fdToDeadline[fd := index];
      deadlineToFd := deadlineToFd[index := fd];
      var attached := Attach();
      if !attached {
        queue.Remove(index);
        reactor := reactor - {fd};
        return Err(InsufficientCapacity);
      }
      guards := guards + {Deadline(fd, index)};
      return Ok(Deadline(fd, index));
    }

    method DropGuard(g: Guard)
      requires Valid() && Inv(State()) && g in guards
      modifies this, queue
      ensures Valid() && State() == WaitSetState.DropGuard(old(State()), g)
    {
      DropGuardKeepsInv(State(), g);
      if g.Deadline? {
        fdToDeadline := fdToDeadline - {g.fd};
        deadlineToFd := deadlineToFd - {g.index};
      }
      counter := counter - 1;
      if g.HasFd() {
        reactor := reactor - {g.fd};
      }
      if g.HasIndex() {
        queue.Remove(g.index);
      }
      guards := guards - {g};
    }

    method ResetDeadline(fd: Fd, now: nat)
      requires queue.Valid() && (fd in fdToDeadline ==> queue.clock <= now)
      modifies queue
      ensures queue.Valid()
      ensures queue.State() == if fd in fdToDeadline then D.Step(old(queue.State()), D.Reset(fdToDeadline[fd], now))
                               else old(queue.State())
    {
      if fd in fdToDeadline {
        queue.Reset(fdToDeadline[fd], now);
      }
    }

    /** Calls back for the missed deadlines in order, up to the first Stop. */
    method HandleDeadlines(now: nat, call: Callback<AttachmentId>) returns (result: RunResult, called: seq<AttachmentId>)
      requires queue.Valid() && queue.clock <= now
      modifies queue
      ensures queue.Valid() && queue.State() == D.Step(old(queue.State()), D.Poll(now))
      ensures CutAtStop(IdsOfIndices(self, deadlineToFd, D.Reports(old(queue.State()), D.Poll(now))), call, called)
      ensures result == if Stopped(call, called) then StopRequest else AllEventsHandled
    {
      var me, toFd := self, deadlineToFd;
      var indices := queue.MissedDeadlines(now, (called: seq<nat>) => call(IdsOfIndices(me, toFd, called)));
      called := IdsOfIndices(me, toFd, indices);
      CutOfIds(me, toFd, D.Reports(old(queue.State()), D.Poll(now)), call, indices);
      result := if called != [] && call(called) then StopRequest else AllEventsHandled;
    }

    method ResetDeadlines(fds: seq<Fd>, resetAt: seq<nat>)
      requires queue.Valid() && |fds| == |resetAt|
      requires D.Feasible(queue.State(), ResetEvents(fdToDeadline, fds, resetAt))
      modifies queue
      ensures queue.Valid() && queue.State() == D.Run(old(queue.State()), ResetEvents(fdToDeadline, fds, resetAt))
    {
      ghost var q := queue.State();
      for i := 0 to |fds|
        invariant queue.Valid() && D.Feasible(q, ResetEvents(fdToDeadline, fds[..i], resetAt[..i]))
        invariant queue.State() == D.Run(q, ResetEvents(fdToDeadline, fds[..i], resetAt[..i]))
      {
        OneMoreReset(q, fdToDeadline, fds, resetAt, i);
        ResetDeadline(fds[i], resetAt[i]);
      }
      assert fds[..|fds|] == fds && resetAt[..|fds|] == resetAt;
    }

    /** Calls back for the triggered descriptors in order, up to the first Stop. */
    method Notify(fds: seq<Fd>, call: Callback<AttachmentId>, before: seq<AttachmentId>)
      returns (result: RunResult, called: seq<AttachmentId>)
      requires !Stopped(call, before)
      ensures CutAtStop(before + IdsOfFds(self, fds), call, called)
      ensures result == if Stopped(call, called) then StopRequest else AllEventsHandled
    {
      called := before;
      ghost var ids := IdsOfFds(self, fds);
      for i := 0 to |fds|
        invariant called == before + ids[..i]
        invariant forall n :: 0 < n <= i ==> !call(before + ids[..n])
      {
        called := called + [NotificationId(self, fds[i])];
        assert called == before + ids[..i + 1];
        if call(called) {
          NotificationsCut(before, ids, call, i + 1);
          return StopRequest, called;
        }
      }
      NotificationsCut(before, ids, call, |fds|);
      return AllEventsHandled, called;
    }

    /** Resets first, then missed deadlines, then the triggered descriptors in order. */
    method HandleAllAttachments(fds: seq<Fd>, resetAt: seq<nat>, pollAt: nat, call: Callback<AttachmentId>)
      returns (result: RunResult, called: seq<AttachmentId>)
      requires queue.Valid() && |fds| == |resetAt|
      requires D.Feasible(queue.State(), ResetEvents(fdToDeadline, fds, resetAt))
      requires D.Run(queue.State(), ResetEvents(fdToDeadline, fds, resetAt)).clock <= pollAt
      modifies queue
      ensures queue.Valid()
      ensures queue.State() ==
              D.Step(D.Run(old(queue.State()), ResetEvents(fdToDeadline, fds, resetAt)), D.Poll(pollAt))
      ensures var missed := D.Reports(D.Run(old(queue.State()), ResetEvents(fdToDeadline, fds, resetAt)), D.Poll(pollAt));
              CutAtStop(IdsOfIndices(self, deadlineToFd, missed) + IdsOfFds(self, fds), call, called)
      ensures result == if Stopped(call, called) then StopRequest else AllEventsHandled
    {
      ResetDeadlines(fds, resetAt);
      ghost var missed := IdsOfIndices(self, deadlineToFd, D.Reports(queue.State(), D.Poll(pollAt)));
      result, called := HandleDeadlines(pollAt, call);
      if result == StopRequest {
        CutPrefix(missed, IdsOfFds(self, fds), call, called);
        return;
      }
      UncutIsAll(missed, call, called);
      result, called := Notify(fds, call, called);
    }

    /** What follows the reactor's return. */
    method Dispatch(p: Pass, call: Callback<AttachmentId>)
      returns (outcome: Result<RunResult, RunError>, called: seq<AttachmentId>)
      requires queue.Valid()
      requires p.reactor.Triggered? ==>
                 && |p.reactor.fds| == |p.resetAt|
                 && D.Feasible(queue.State(), ResetEvents(fdToDeadline, p.reactor.fds, p.resetAt))
                 && D.Run(queue.State(), ResetEvents(fdToDeadline, p.reactor.fds, p.resetAt)).clock <= p.pollAt
      modifies queue
      ensures queue.Valid()
      ensures match p.reactor
              case Interrupt => queue.State() == old(queue.State()) && outcome == Ok(Interrupted) && called == []
              case InsufficientPermissions =>
                queue.State() == old(queue.State()) && outcome == Err(NoPermission) && called == []
              case UnknownError => queue.State() == old(queue.State()) && outcome == Err(InternalError) && called == []
              case Triggered(fds) =>
                var q := D.Run(old(queue.State()), ResetEvents(fdToDeadline, fds, p.resetAt));
                && queue.State() == D.Step(q, D.Poll(p.pollAt))
                && CutAtStop(IdsOfIndices(self, deadlineToFd, D.Reports(q, D.Poll(p.pollAt))) + IdsOfFds(self, fds),
                             call, called)
                && outcome == Ok(if Stopped(call, called) then StopRequest else AllEventsHandled)
    {
      called := [];
      var result: RunResult;
      match p.reactor {
        case Triggered(fds) =>
          if |fds| == 0 {
            ghost var missed := IdsOfIndices(self, deadlineToFd, D.Reports(queue.State(), D.Poll(p.pollAt)));
            result, called := HandleDeadlines(p.pollAt, call);
            assert missed + IdsOfFds(self, fds) == missed;
          } else {
            result, called := HandleAllAttachments(fds, p.resetAt, p.pollAt, call);
          }
          outcome := Ok(result);
        case Interrupt => outcome := Ok(Interrupted);
        case InsufficientPermissions => outcome := Err(NoPermission);
        case UnknownError => outcome := Err(InternalError);
      }
    }

    /** One pass; `wait` is the time the reactor is given to sleep. */
    method WaitAndProcessOnceWithTimeout(terminationRequested: bool, timeout: nat, p: Pass, call: Callback<AttachmentId>)
      returns (outcome: Result<RunResult, RunError>, called: seq<AttachmentId>, wait: nat)
      requires Valid() && Inv(State()) && (counter > 0 ==> Enabled(State(), p))
      modifies queue
      ensures Valid()
      ensures handleSignals && terminationRequested ==>
                outcome == Ok(TerminationRequest) && State() == old(State()) && called == []
      ensures !(handleSignals && terminationRequested) && counter == 0 ==>
                outcome == Err(NoAttachments) && State() == old(State()) && called == []
      ensures !(handleSignals && terminationRequested) && counter > 0 ==>
                && State() == ApplyPass(old(State()), p)
                && WaitsUntilNext(old(queue.State()), p.timeoutAt, timeout, wait)
                && match p.reactor
                   case Interrupt => outcome == Ok(Interrupted) && called == []
                   case InsufficientPermissions => outcome == Err(NoPermission) && called == []
                   case UnknownError => outcome == Err(InternalError) && called == []
                   case Triggered(fds) =>
                     && CutAtStop(IdsOfPass(old(State()), self, p), call, called)
                     && outcome == Ok(if Stopped(call, called) then StopRequest else AllEventsHandled)
    {
      if handleSignals && terminationRequested {
        return Ok(TerminationRequest), [], 0;
      }
      if counter == 0 {
        return Err(NoAttachments), [], 0;
      }
      PassUnfolds(State(), p);
      var nextTimeout := queue.DurationUntilNextDeadline(p.timeoutAt);
      assert QueueAllows(old(queue.State()), p.timeoutAt, nextTimeout);
      wait := if nextTimeout < timeout then nextTimeout else timeout;
      outcome, called := Dispatch(p, call);
    }
  }

  /** Cutting the missed indices by their ids is cutting the ids. */
  lemma CutOfIds(self: nat, toFd: map<nat, Fd>, all: seq<nat>, call: Callback<AttachmentId>, indices: seq<nat>)
    requires CutAtStop(all, (called: seq<nat>) => call(IdsOfIndices(self, toFd, called)), indices)
    ensures CutAtStop(IdsOfIndices(self, toFd, all), call, IdsOfIndices(self, toFd, indices))
    ensures Stopped(call, IdsOfIndices(self, toFd, indices)) <==> indices != [] && call(IdsOfIndices(self, toFd, indices))
  {
    var ids := IdsOfIndices(self, toFd, indices);
    forall n | 0 <= n <= |indices| ensures ids[..n] == IdsOfIndices(self, toFd, indices[..n]) {}
    assert IdsOfIndices(self, toFd, all)[..|ids|] == ids;
    assert ids[..|ids|] == ids;
  }

  /** Calls that all continued, followed by `n` descriptors of which only the last may stop. */
  lemma NotificationsCut<T>(first: seq<T>, second: seq<T>, stop: Callback<T>, n: nat)
    requires !Stopped(stop, first) && n <= |second|
    requires forall m :: 0 < m < n ==> !stop(first + second[..m])
    requires n < |second| ==> n > 0 && stop(first + second[..n])
    ensures CutAtStop(first + second, stop, first + second[..n])
    ensures Stopped(stop, first + second[..n]) <==> n > 0 && stop(first + second[..n])
  {
    var called := first + second[..n];
    forall m | 0 < m <= |called|
      ensures m <= |first| ==> !stop(called[..m])
      ensures m > |first| ==> called[..m] == first + second[..m - |first|]
    {
      if m <= |first| {
        assert called[..m] == first[..m];
      }
    }
    assert called == (first + second)[..|called|];
    assert called[..|called|] == called;
  }

  /** The resets of a prefix of the descriptors are a prefix of the run of resets. */
  lemma {:induction false} ResetPrefix(q: D.Deadlines, fdToDeadline: map<Fd, nat>, fds: seq<Fd>, at: seq<nat>, i: nat)
    requires |fds| == |at| && i <= |fds| && D.Inv(q) && D.Feasible(q, ResetEvents(fdToDeadline, fds, at))
    ensures D.Feasible(q, ResetEvents(fdToDeadline, fds[..i], at[..i]))
    decreases |fds|
  {
    if i == |fds| {
      assert fds[..i] == fds && at[..i] == at;
    } else {
      var n := |fds| - 1;
      LastReset(q, fdToDeadline, fds, at);
      ResetPrefix(q, fdToDeadline, fds[..n], at[..n], i);
      assert fds[..n][..i] == fds[..i] && at[..n][..i] == at[..i];
    }
  }

  lemma OneMoreReset(q: D.Deadlines, fdToDeadline: map<Fd, nat>, fds: seq<Fd>, at: seq<nat>, i: nat)
    requires |fds| == |at| && i < |fds| && D.Inv(q) && D.Feasible(q, ResetEvents(fdToDeadline, fds, at))
    ensures var before := ResetEvents(fdToDeadline, fds[..i], at[..i]);
            var after := ResetEvents(fdToDeadline, fds[..i + 1], at[..i + 1]);
            && D.Feasible(q, before) && D.Feasible(q, after)
            && (fds[i] in fdToDeadline ==> D.Run(q, before).clock <= at[i])
            && D.Run(q, after) ==
               if fds[i] !in fdToDeadline then D.Run(q, before)
               else D.Step(D.Run(q, before), D.Reset(fdToDeadline[fds[i]], at[i]))
  {
    ResetPrefix(q, fdToDeadline, fds, at, i + 1);
    LastReset(q, fdToDeadline, fds[..i + 1], at[..i + 1]);
    assert fds[..i + 1][..i] == fds[..i] && at[..i + 1][..i] == at[..i];
  }

  lemma LastReset(q: D.Deadlines, fdToDeadline: map<Fd, nat>, fds: seq<Fd>, at: seq<nat>)
    requires |fds| == |at| > 0 && D.Inv(q) && D.Feasible(q, ResetEvents(fdToDeadline, fds, at))
    ensures var n := |fds| - 1;
            var before := ResetEvents(fdToDeadline, fds[..n], at[..n]);
            && D.Feasible(q, before)
            && (fds[n] in fdToDeadline ==> D.Run(q, before).clock <= at[n])
            && D.Run(q, ResetEvents(fdToDeadline, fds, at)) ==
               if fds[n] !in fdToDeadline then D.Run(q, before)
               else D.Step(D.Run(q, before), D.Reset(fdToDeadline[fds[n]], at[n]))
  {
    var n := |fds| - 1;
    D.FeasiblePrefix(q, ResetEvents(fdToDeadline, fds[..n], at[..n]),
                     if fds[n] in fdToDeadline then [D.Reset(fdToDeadline[fds[n]], at[n])] else []);
  }
}

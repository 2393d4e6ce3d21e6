/**
 * The loan protocol of one active request: increment_loan_counter and the loan
 * paths of iceoryx2/src/active_request.rs, and the drop of a response in
 * iceoryx2/src/response_mut.rs, as interleaved steps of any number of threads.
 */
module LoanCounter {
  import Math

  type ThreadId = nat
  type LoanId = nat

  datatype Loans = Loans(
    maxLoans: nat,
    counter: nat,
    loaded: map<ThreadId, nat>,   // threads in the compare-and-swap loop
    inFlight: set<ThreadId>,      // counted, memory not yet allocated
    live: set<LoanId>,            // responses held by the user
    dropping: set<LoanId>,        // sample returned, counter not yet decremented
    failed: nat,                  // counted, but the allocation failed
    nextLoan: LoanId)

  datatype Event =
    | Load(thread: ThreadId)
    | Exchange(thread: ThreadId)
    | AllocationSucceeds(thread: ThreadId)
    | AllocationFails(thread: ThreadId)
    | ReturnSample(loan: LoanId)
    | Decrement(loan: LoanId)

  datatype Outcome = Continues | ExceedsMaxLoans | Admitted | Loaned(loan: LoanId)

  function Create(maxLoans: nat): Loans {
    Loans(maxLoans, 0, map[], {}, {}, {}, 0, 0)
  }

  predicate Enabled(s: Loans, e: Event) {
    match e
    case Load(t) => t !in s.loaded && t !in s.inFlight
    case Exchange(t) => t in s.loaded
    case AllocationSucceeds(t) => t in s.inFlight
    case AllocationFails(t) => t in s.inFlight
    case ReturnSample(loan) => loan in s.live
    case Decrement(loan) => loan in s.dropping
  }

  /** `fetch_sub` on a zero counter would wrap to the largest word. */
  function FetchSub(counter: nat): nat {
    if counter == 0 then Math.WORD - 1 else counter - 1
  }

  function Step(s: Loans, e: Event): (Loans, Outcome)
    requires Enabled(s, e)
  {
    match e
    case Load(t) =>
      (s.(loaded := s.loaded[t := s.counter]), Continues)
    case Exchange(t) =>
      if s.maxLoans <= s.loaded[t] then
        (s.(loaded := s.loaded - {t}), ExceedsMaxLoans)
      else if s.counter == s.loaded[t] then
        (s.(counter := s.counter + 1, loaded := s.loaded - {t}, inFlight := s.inFlight + {t}), Admitted)
      else
        (s.(loaded := s.loaded[t := s.counter]), Continues)
    case AllocationSucceeds(t) =>
      (s.(inFlight := s.inFlight - {t}, live := s.live + {s.nextLoan}, nextLoan := s.nextLoan + 1), Loaned(s.nextLoan))
    case AllocationFails(t) =>
      (s.(inFlight := s.inFlight - {t}, failed := s.failed + 1), Continues)
    case ReturnSample(loan) =>
      (s.(live := s.live - {loan}, dropping := s.dropping + {loan}), Continues)
    case Decrement(loan) =>
      (s.(dropping := s.dropping - {loan}, counter := FetchSub(s.counter)), Continues)
  }

  /** The counter accounts for every loan between its increment and its decrement. */
  ghost predicate Inv(s: Loans) {
    && s.counter == |s.inFlight| + |s.live| + |s.dropping| + s.failed
    && s.counter <= s.maxLoans
    && s.inFlight !! s.loaded.Keys
    && s.live !! s.dropping
    && (forall loan :: loan in s.live || loan in s.dropping ==> loan < s.nextLoan)
  }

  lemma StepKeepsInv(s: Loans, e: Event)
    requires Inv(s) && Enabled(s, e)
    ensures Inv(Step(s, e).0)
    ensures Step(s, e).0.maxLoans == s.maxLoans && Step(s, e).0.failed >= s.failed
  {
    var r := Step(s, e).0;
    match e {
      case Load(_) =>
      case Exchange(t) =>
        assert r.counter == s.counter || |r.inFlight| == |s.inFlight| + 1;
      case AllocationSucceeds(t) =>
        assert |r.inFlight| == |s.inFlight| - 1 && |r.live| == |s.live| + 1;
      case AllocationFails(t) =>
        assert |r.inFlight| == |s.inFlight| - 1;
      case ReturnSample(loan) =>
        assert |r.live| == |s.live| - 1 && |r.dropping| == |s.dropping| + 1;
      case Decrement(loan) =>
        assert |r.dropping| == |s.dropping| - 1;
    }
  }

  ghost predicate Possible(s: Loans, es: seq<Event>)
    decreases |es|
  {
    es != [] ==> Enabled(s, es[0]) && Possible(Step(s, es[0]).0, es[1..])
  }

  function Run(s: Loans, es: seq<Event>): (r: Loans)
    requires Possible(s, es)
    decreases |es|
  {
    if es == [] then s else Run(Step(s, es[0]).0, es[1..])
  }

  lemma {:induction false} RunKeepsInv(s: Loans, es: seq<Event>)
    requires Inv(s) && Possible(s, es)
    ensures Inv(Run(s, es)) && Run(s, es).maxLoans == s.maxLoans && Run(s, es).failed >= s.failed
    decreases |es|
  {
    if es != [] {
      StepKeepsInv(s, es[0]);
      RunKeepsInv(Step(s, es[0]).0, es[1..]);
    }
  }

  /** For every interleaving: live loans never exceed the maximum, and no decrement underflows. */
  lemma LoansStayBelowMax(maxLoans: nat, es: seq<Event>)
    requires Possible(Create(maxLoans), es)
    ensures var s := Run(Create(maxLoans), es);
            && |s.live| <= s.counter <= maxLoans
            && s.counter == |s.inFlight| + |s.live| + |s.dropping| + s.failed
            && (forall loan :: loan in s.dropping ==> FetchSub(s.counter) == s.counter - 1)
  {
    RunKeepsInv(Create(maxLoans), es);
  }

  /**
   * What a lone loan attempt needs: with nobody else in the protocol it gets
   * through exactly when live loans and earlier failed allocations leave room.
   */
  lemma LoanAdmittedIff(s: Loans, t: ThreadId)
    requires Inv(s) && s.loaded == map[] && s.inFlight == {} && s.dropping == {}
    ensures var loadedState := Step(s, Load(t)).0;
            Step(loadedState, Exchange(t)).1 == if |s.live| + s.failed < s.maxLoans then Admitted else ExceedsMaxLoans
  {
  }

  /**
   * The answer to every exchange: refused exactly when the counter was full as the thread saw it,
   * admitted exactly when it was not and has not moved since, and otherwise to be tried again.
   */
  lemma ExchangeAnswers(s: Loans, t: ThreadId)
    requires Inv(s) && t in s.loaded
    ensures var outcome := Step(s, Exchange(t)).1;
            && (outcome == ExceedsMaxLoans <==> s.maxLoans <= s.loaded[t])
            && (outcome == Admitted <==> s.loaded[t] == s.counter < s.maxLoans)
            && !outcome.Loaned?
            && (outcome == Continues <==> t in Step(s, Exchange(t)).0.loaded)
  {
  }

  /** Whether it loaded just now or lost an exchange, a thread left alone gets the answer that the counter gives. */
  lemma LoneAnswers(s: Loans, e: Event)
    requires Inv(s) && Enabled(s, e) && (e.Load? || (e.Exchange? && Step(s, e).1 == Continues))
    ensures var r := Step(s, e).0;
            && Inv(r) && r.counter == s.counter && e.thread in r.loaded
            && Step(r, Exchange(e.thread)).1 == if s.counter < s.maxLoans then Admitted else ExceedsMaxLoans
  {
    StepKeepsInv(s, e);
  }

  /** The steps of one thread leave the attempts of the others alone. */
  lemma OthersKeepTheirAttempts(s: Loans, e: Event, u: ThreadId)
    requires Enabled(s, e) && ((e.Load? || e.Exchange? || e.AllocationSucceeds? || e.AllocationFails?) ==> e.thread != u)
    ensures var r := Step(s, e).0;
            && (u in r.loaded <==> u in s.loaded) && (u in s.loaded ==> r.loaded[u] == s.loaded[u])
            && (u in r.inFlight <==> u in s.inFlight)
  {
  }

  // --------------------------------------------------------------------- history

  /** What the events of a run and their answers say about its loans. */
  datatype Ledger = Ledger(admitted: set<ThreadId>, live: set<LoanId>, returned: set<LoanId>, failures: nat)

  function Entry(b: Ledger, e: Event, outcome: Outcome): Ledger {
    match e
    case AllocationSucceeds(t) =>
      if outcome.Loaned? then b.(admitted := b.admitted - {t}, live := b.live + {outcome.loan}) else b
    case AllocationFails(t) => b.(admitted := b.admitted - {t}, failures := b.failures + 1)
    case ReturnSample(loan) => b.(live := b.live - {loan}, returned := b.returned + {loan})
    case Decrement(loan) => b.(returned := b.returned - {loan})
    case Exchange(t) => if outcome == Admitted then b.(admitted := b.admitted + {t}) else b
    case Load(_) => b
  }

  function Book(s: Loans, es: seq<Event>, b: Ledger): Ledger
    requires Possible(s, es)
    decreases |es|
  {
    if es == [] then b else Book(Step(s, es[0]).0, es[1..], Entry(b, es[0], Step(s, es[0]).1))
  }

  ghost predicate Agrees(s: Loans, b: Ledger) {
    s.inFlight == b.admitted && s.live == b.live && s.dropping == b.returned && s.failed == b.failures
  }

  lemma StepAgrees(s: Loans, e: Event, b: Ledger)
    requires Enabled(s, e) && Agrees(s, b)
    ensures Agrees(Step(s, e).0, Entry(b, e, Step(s, e).1))
  {
  }

  /** The state is what the history of the run says; in particular `failed` counts the failed allocations. */
  lemma {:induction false} RunAgrees(s: Loans, es: seq<Event>, b: Ledger)
    requires Possible(s, es) && Agrees(s, b)
    ensures Agrees(Run(s, es), Book(s, es, b))
    decreases |es|
  {
    if es != [] {
      StepAgrees(s, es[0], b);
      RunAgrees(Step(s, es[0]).0, es[1..], Entry(b, es[0], Step(s, es[0]).1));
    }
  }

  /** The counter, over every interleaving, in terms of the history alone. */
  lemma CounterIsBalance(maxLoans: nat, es: seq<Event>)
    requires Possible(Create(maxLoans), es)
    ensures var b := Book(Create(maxLoans), es, Ledger({}, {}, {}, 0));
            Run(Create(maxLoans), es).counter == |b.admitted| + |b.live| + |b.returned| + b.failures
  {
    RunKeepsInv(Create(maxLoans), es);
    RunAgrees(Create(maxLoans), es, Ledger({}, {}, {}, 0));
  }

  /** The id of a new response belongs to no other one. */
  lemma LoanIsFresh(s: Loans, t: ThreadId)
    requires Inv(s) && t in s.inFlight
    ensures var outcome := Step(s, AllocationSucceeds(t)).1;
            outcome.Loaned? && outcome.loan !in s.live && outcome.loan !in s.dropping
  {
  }

  /** Every loan up to the maximum is admitted: from an idle state, `n` more responses can be alive at once. */
  lemma {:induction false} LoansAddUp(s: Loans, t: ThreadId, n: nat) returns (es: seq<Event>)
    requires Inv(s) && s.loaded == map[] && s.inFlight == {} && s.counter + n <= s.maxLoans
    ensures Possible(s, es) && |Run(s, es).live| == |s.live| + n
    decreases n
  {
    if n == 0 {
      return [];
    }
    TakeLoanRuns(s, t);
    var taken := Run(s, TakeLoan(t));
    RunKeepsInv(s, TakeLoan(t));
    var rest := LoansAddUp(taken, t, n - 1);
    RunConcat(s, TakeLoan(t), rest);
    es := TakeLoan(t) + rest;
  }

  /** So a new request lets exactly its maximum be alive. */
  lemma MaximumIsReached(maxLoans: nat, t: ThreadId) returns (es: seq<Event>)
    ensures Possible(Create(maxLoans), es) && |Run(Create(maxLoans), es).live| == maxLoans
  {
    es := LoansAddUp(Create(maxLoans), t, maxLoans);
  }

  /** A loan that is admitted, allocated and dropped leaves everything as it was, up to the next id. */
  lemma LoanAndDropBalance(s: Loans, t: ThreadId)
    requires Inv(s) && t !in s.loaded && t !in s.inFlight && s.counter < s.maxLoans
    ensures var es := TakeLoan(t) + DropLoan(s.nextLoan);
            Possible(s, es) && Run(s, es) == s.(nextLoan := s.nextLoan + 1)
  {
    var loan := s.nextLoan;
    TakeLoanRuns(s, t);
    var taken := Run(s, TakeLoan(t));
    DropLoanRuns(taken, loan);
    assert s.live + {loan} - {loan} == s.live && s.dropping + {loan} - {loan} == s.dropping;
    RunConcat(s, TakeLoan(t), DropLoan(loan));
  }

  function TakeLoan(t: ThreadId): seq<Event> { [Load(t), Exchange(t), AllocationSucceeds(t)] }

  function DropLoan(loan: LoanId): seq<Event> { [ReturnSample(loan), Decrement(loan)] }

  lemma TakeLoanRuns(s: Loans, t: ThreadId)
    requires Inv(s) && t !in s.loaded && t !in s.inFlight && s.counter < s.maxLoans
    ensures Possible(s, TakeLoan(t))
    ensures Run(s, TakeLoan(t)) == s.(counter := s.counter + 1, live := s.live + {s.nextLoan}, nextLoan := s.nextLoan + 1)
  {
    var s1 := s.(loaded := s.loaded[t := s.counter]);
    var s2 := s.(counter := s.counter + 1, inFlight := s.inFlight + {t});
    AdmittedState(s, t);
    ThreeSteps(s, s1, s2, Load(t), Exchange(t), AllocationSucceeds(t));
    assert s.inFlight + {t} - {t} == s.inFlight;
  }

  lemma AdmittedState(s: Loans, t: ThreadId)
    requires t !in s.loaded && s.counter < s.maxLoans
    ensures var s1 := s.(loaded := s.loaded[t := s.counter]);
            Step(s1, Exchange(t)).0 == s.(counter := s.counter + 1, inFlight := s.inFlight + {t})
  {
    assert s.loaded[t := s.counter] - {t} == s.loaded;
  }

  lemma ThreeSteps(s: Loans, s1: Loans, s2: Loans, e: Event, f: Event, g: Event)
    requires Enabled(s, e) && s1 == Step(s, e).0 && Enabled(s1, f) && s2 == Step(s1, f).0 && Enabled(s2, g)
    ensures Possible(s, [e, f, g]) && Run(s, [e, f, g]) == Step(s2, g).0
  {
    StepThenRun(s2, g, []);
    StepThenRun(s1, f, [g] + []);
    StepThenRun(s, e, [f] + ([g] + []));
    assert [e, f, g] == [e] + ([f] + ([g] + []));
  }

  lemma StepThenRun(s: Loans, e: Event, es: seq<Event>)
    requires Enabled(s, e) && Possible(Step(s, e).0, es)
    ensures Possible(s, [e] + es) && Run(s, [e] + es) == Run(Step(s, e).0, es)
  {
    assert ([e] + es)[1..] == es;
  }

  lemma DropLoanRuns(s: Loans, loan: LoanId)
    requires loan in s.live && loan !in s.dropping && s.counter > 0
    ensures Possible(s, DropLoan(loan))
    ensures Run(s, DropLoan(loan)) ==
            s.(counter := s.counter - 1, live := s.live - {loan}, dropping := s.dropping + {loan} - {loan})
  {
    var s1 := Step(s, ReturnSample(loan)).0;
    StepThenRun(s1, Decrement(loan), []);
    StepThenRun(s, ReturnSample(loan), [Decrement(loan)] + []);
    assert DropLoan(loan) == [ReturnSample(loan)] + ([Decrement(loan)] + []);
  }

  lemma {:induction false} RunConcat(s: Loans, es: seq<Event>, fs: seq<Event>)
    requires Possible(s, es) && Possible(Run(s, es), fs)
    ensures Possible(s, es + fs) && Run(s, es + fs) == Run(Run(s, es), fs)
    decreases |es|
  {
    if es == [] {
      assert es + fs == fs;
    } else {
      var all := es + fs;
      assert all[0] == es[0] && all[1..] == es[1..] + fs;
      RunConcat(Step(s, es[0]).0, es[1..], fs);
    }
  }

  /**
   * A failed allocation keeps its place for ever: once they fill the maximum,
   * every later attempt of every continuation is rejected, with no loan alive.
   */
  lemma FailedAllocationsBlockForEver(s: Loans, es: seq<Event>, t: ThreadId)
    requires Inv(s) && s.failed == s.maxLoans && Possible(s, es)
    requires t !in Run(s, es).loaded && t !in Run(s, es).inFlight
    ensures var r := Run(s, es);
            r.live == {} && Step(Step(r, Load(t)).0, Exchange(t)).1 == ExceedsMaxLoans
  {
    RunKeepsInv(s, es);
    var r := Run(s, es);
    assert |r.live| == 0;
  }

  /** Such a state is reached from the start, by as many failing allocations as the maximum. */
  lemma {:induction false} FailuresAddUp(s: Loans, t: ThreadId, n: nat) returns (es: seq<Event>)
    requires Inv(s) && s.loaded == map[] && s.inFlight == {} && s.counter + n <= s.maxLoans
    ensures Possible(s, es) && Run(s, es) == s.(counter := s.counter + n, failed := s.failed + n)
    decreases n
  {
    if n == 0 {
      return [];
    }
    var s1 := Step(s, Load(t)).0;
    var s2 := Step(s1, Exchange(t)).0;
    var s3 := Step(s2, AllocationFails(t)).0;
    assert s3 == s.(counter := s.counter + 1, failed := s.failed + 1);
    var rest := FailuresAddUp(s3, t, n - 1);
    StepThenRun(s2, AllocationFails(t), rest);
    StepThenRun(s1, Exchange(t), [AllocationFails(t)] + rest);
    StepThenRun(s, Load(t), [Exchange(t)] + ([AllocationFails(t)] + rest));
    es := [Load(t)] + ([Exchange(t)] + ([AllocationFails(t)] + rest));
  }
}

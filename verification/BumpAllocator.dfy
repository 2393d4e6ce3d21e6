/**
 * The lock-free bump allocator of iceoryx2-bb/memory/src/bump_allocator.rs, as
 * interleaved steps of any number of threads. A thread loads the position,
 * computes the aligned chunk behind it and publishes its end with a weak
 * compare-and-swap; `deallocate` resets the position to zero at any moment.
 */
module BumpAllocator {
  import opened Math

  type ThreadId = nat

  datatype Request = Request(size: nat, alignment: nat)

  /** A thread inside the retry loop: its request and the position it last saw. */
  datatype Attempt = Attempt(request: Request, loaded: nat)

  /** A chunk handed out: its offset in the region and the request it answers. */
  datatype Chunk = Chunk(offset: nat, request: Request)
  {
    function End(): nat { offset + request.size }
  }

  datatype Allocator = Allocator(
    start: nat,
    size: nat,
    position: nat,
    attempts: map<ThreadId, Attempt>,
    granted: seq<Chunk>)   // since the last deallocate, oldest first
  {
    /** The end of all that is granted. */
    function Used(): nat { if granted == [] then 0 else granted[|granted| - 1].End() }
  }

  datatype Event =
    | Load(thread: ThreadId, request: Request)
    | Exchange(thread: ThreadId, spurious: bool)
    | Deallocate

  datatype Outcome = Pending | SizeIsZero | OutOfMemory | Granted(chunk: Chunk)

  function Create(start: nat, size: nat): Allocator {
    Allocator(start, size, 0, map[], [])
  }

  /** The chunk that follows a loaded position. */
  function Candidate(a: Allocator, attempt: Attempt): (c: Chunk)
    requires attempt.request.alignment > 0
    ensures c.offset >= attempt.loaded
    ensures (a.start + c.offset) % attempt.request.alignment == 0
  {
    Chunk(Align(a.start + attempt.loaded, attempt.request.alignment) - a.start, attempt.request)
  }

  predicate Enabled(a: Allocator, e: Event) {
    match e
    case Load(t, request) => t !in a.attempts && request.alignment > 0
    case Exchange(t, _) => t in a.attempts
    case Deallocate => true
  }

  function Step(a: Allocator, e: Event): (Allocator, Outcome)
    requires Enabled(a, e) && AttemptsInv(a)
  {
    match e
    case Load(t, request) =>
      if request.size == 0 then (a, SizeIsZero)
      else (a.(attempts := a.attempts[t := Attempt(request, a.position)]), Pending)
    case Exchange(t, spurious) =>
      var attempt := a.attempts[t];
      var chunk := Candidate(a, attempt);
      if chunk.End() > a.size then
        (a.(attempts := a.attempts - {t}), OutOfMemory)
      else if a.position == attempt.loaded && !spurious then
        (a.(position := chunk.End(), attempts := a.attempts - {t}, granted := a.granted + [chunk]), Granted(chunk))
      else
        (a.(attempts := a.attempts[t := attempt.(loaded := a.position)]), Pending)
    case Deallocate =>
      (a.(position := 0, granted := []), Pending)
  }

  ghost predicate AttemptsInv(a: Allocator) {
    forall t :: t in a.attempts ==>
      a.attempts[t].request.size > 0 && a.attempts[t].request.alignment > 0 && a.attempts[t].loaded <= a.size
  }

  /** The position is the end of all chunks. Every chunk lies below it, aligned, and before the chunks granted after it. */
  ghost predicate ChunksInv(a: Allocator) {
    && a.position == a.Used() <= a.size
    && (forall i :: 0 <= i < |a.granted| ==>
          && a.granted[i].request.size > 0 && a.granted[i].request.alignment > 0
          && a.granted[i].End() <= a.position
          && (a.start + a.granted[i].offset) % a.granted[i].request.alignment == 0)
    && (forall i, j :: 0 <= i < j < |a.granted| ==> a.granted[i].End() <= a.granted[j].offset)
  }

  ghost predicate Inv(a: Allocator) {
    AttemptsInv(a) && ChunksInv(a)
  }

  lemma StepKeepsInv(a: Allocator, e: Event)
    requires Inv(a) && Enabled(a, e)
    ensures Inv(Step(a, e).0)
    ensures Step(a, e).0.start == a.start && Step(a, e).0.size == a.size
    ensures Step(a, e).1.Granted? ==> Step(a, e).0.granted == a.granted + [Step(a, e).1.chunk]
  {
    StepKeepsAttempts(a, e);
    match e {
      case Load(_, _) => AttemptsDoNotMatter(a, Step(a, e).0);
      case Exchange(t, spurious) => ExchangeKeepsChunks(a, t, spurious);
      case Deallocate =>
    }
  }

  lemma AttemptsDoNotMatter(a: Allocator, b: Allocator)
    requires ChunksInv(a) && b == a.(attempts := b.attempts)
    ensures ChunksInv(b)
  {
  }

  lemma StepKeepsAttempts(a: Allocator, e: Event)
    requires Inv(a) && Enabled(a, e)
    ensures AttemptsInv(Step(a, e).0)
  {
  }

  /** A chunk is only granted behind the current position, whatever the thread saw before. */
  lemma ExchangeKeepsChunks(a: Allocator, t: ThreadId, spurious: bool)
    requires Inv(a) && t in a.attempts
    ensures ChunksInv(Step(a, Exchange(t, spurious)).0)
  {
    var chunk := Candidate(a, a.attempts[t]);
    if chunk.End() <= a.size && a.position == a.attempts[t].loaded && !spurious {
      GrantKeepsChunks(a, chunk);
    } else {
      AttemptsDoNotMatter(a, Step(a, Exchange(t, spurious)).0);
    }
  }

  lemma GrantKeepsChunks(a: Allocator, chunk: Chunk)
    requires ChunksInv(a) && a.position <= chunk.offset && chunk.End() <= a.size
    requires chunk.request.size > 0 && chunk.request.alignment > 0
    requires (a.start + chunk.offset) % chunk.request.alignment == 0
    ensures ChunksInv(a.(position := chunk.End(), granted := a.granted + [chunk]))
  {
  }

  ghost predicate Possible(a: Allocator, es: seq<Event>)
    requires Inv(a)
    decreases |es|
  {
    es != [] ==> Enabled(a, es[0]) && (StepKeepsInv(a, es[0]); Possible(Step(a, es[0]).0, es[1..]))
  }

  ghost function Run(a: Allocator, es: seq<Event>): (r: Allocator)
    requires Inv(a) && Possible(a, es)
    ensures Inv(r) && r.start == a.start && r.size == a.size
    decreases |es|
  {
    if es == [] then a else
    StepKeepsInv(a, es[0]);
    Run(Step(a, es[0]).0, es[1..])
  }

  /** For every interleaving: a chunk granted since the last deallocate is aligned as requested and inside the region. */
  lemma GrantedChunkIsInside(start: nat, size: nat, es: seq<Event>, i: nat)
    requires Possible(Create(start, size), es) && i < |Run(Create(start, size), es).granted|
    ensures var chunk := Run(Create(start, size), es).granted[i];
            (start + chunk.offset) % chunk.request.alignment == 0 && chunk.offset + chunk.request.size <= size
  {
  }

  /** And any two of them are disjoint. */
  lemma GrantedChunksAreDisjoint(start: nat, size: nat, es: seq<Event>, i: nat, j: nat)
    requires Possible(Create(start, size), es)
    requires var g := Run(Create(start, size), es).granted; i < |g| && j < |g| && i != j
    ensures var g := Run(Create(start, size), es).granted;
            g[i].offset + g[i].request.size <= g[j].offset || g[j].offset + g[j].request.size <= g[i].offset
  {
    var g := Run(Create(start, size), es).granted;
    if i < j {
      assert g[i].End() <= g[j].offset;
    } else {
      assert g[j].End() <= g[i].offset;
    }
  }

  /**
   * The end of a candidate as the source computes it, every operation in wrapping 64-bit
   * arithmetic: `value` is the current address and `rest` its remainder by the alignment.
   */
  function WordEnd(value: nat, rest: nat, start: nat, request: Request): nat
    requires rest < WORD && start < WORD
  {
    var aligned := if rest == 0 then value else WordSub(WordAdd(value, request.alignment), rest);
    WordAdd(WordSub(aligned, start), request.size)
  }

  lemma WordEndIsExact(value: nat, rest: nat, start: nat, request: Request)
    requires start <= value < WORD && rest <= value && rest < request.alignment
    requires value - start <= ISIZE_MAX && request.size + request.alignment - 1 <= ISIZE_MAX
    ensures WordEnd(value, rest, start, request) ==
            (if rest == 0 then value else value + request.alignment - rest) - start + request.size < WORD
  {
  }

  /**
   * With the layouts and regions that Rust admits the words give the exact end, also where
   * the sum in `align` wraps around: the difference with `start` undoes the wrap.
   */
  lemma WrappingIsExact(a: Allocator, t: ThreadId)
    requires Inv(a) && t in a.attempts && a.size <= ISIZE_MAX && a.start + a.size < WORD
    requires a.attempts[t].request.size + a.attempts[t].request.alignment - 1 <= ISIZE_MAX
    ensures var (request, value) := (a.attempts[t].request, a.start + a.attempts[t].loaded);
            && value < WORD
            && Candidate(a, a.attempts[t]).End() == WordEnd(value, value % request.alignment, a.start, request) < WORD
  {
    AlignedWordEnd(a.start + a.attempts[t].loaded, a.start, a.attempts[t].request);
  }

  lemma AlignedWordEnd(value: nat, start: nat, request: Request)
    requires start <= value < WORD && request.alignment > 0
    requires value - start <= ISIZE_MAX && request.size + request.alignment - 1 <= ISIZE_MAX
    ensures WordEnd(value, value % request.alignment, start, request) ==
            Align(value, request.alignment) - start + request.size < WORD
  {
    RestIsBelow(value, request.alignment);
    WordEndIsExact(value, value % request.alignment, start, request);
  }

  lemma RestIsBelow(value: nat, alignment: nat)
    requires alignment > 0
    ensures value % alignment < alignment && value % alignment <= value
  {
    DivModEquation(value, alignment);
    MulMonotone(0, value / alignment, alignment);
  }

  /** A thread left alone finishes with its second exchange at the latest. */
  lemma AloneItFinishes(a: Allocator, t: ThreadId)
    requires Inv(a) && t in a.attempts
    ensures var (b, outcome) := Step(a, Exchange(t, false));
            outcome == Pending ==>
              Enabled(b, Exchange(t, false)) && AttemptsInv(b) && Step(b, Exchange(t, false)).1 != Pending
  {
    StepKeepsInv(a, Exchange(t, false));
  }

  /** The request could be served at this offset of the region. */
  ghost predicate HasRoom(start: nat, size: nat, request: Request, offset: nat)
    requires request.alignment > 0
  {
    (start + offset) % request.alignment == 0 && offset + request.size <= size
  }

  /** The request could be served at this offset, at or behind `from`. */
  ghost predicate Fits(a: Allocator, request: Request, from: nat, offset: nat)
    requires request.alignment > 0
  {
    from <= offset && HasRoom(a.start, a.size, request, offset)
  }

  ghost predicate SomethingFits(a: Allocator, request: Request, from: nat)
    requires request.alignment > 0
  {
    exists offset :: Fits(a, request, from, offset)
  }

  /** The right answer to a request: the least place at or behind `from` that fits, or none fits. */
  ghost predicate Answers(a: Allocator, request: Request, from: nat, outcome: Outcome)
    requires request.alignment > 0
  {
    if SomethingFits(a, request, from) then
      && outcome.Granted? && outcome.chunk.request == request
      && Fits(a, request, from, outcome.chunk.offset)
      && (forall offset :: Fits(a, request, from, offset) ==> outcome.chunk.offset <= offset)
    else
      outcome == OutOfMemory
  }

  /** The candidate is the least place that fits, if any place does. */
  lemma CandidateIsLeast(a: Allocator, attempt: Attempt)
    requires attempt.request.alignment > 0
    ensures var c := Candidate(a, attempt);
            Answers(a, attempt.request, attempt.loaded, if c.End() <= a.size then Granted(c) else OutOfMemory)
  {
    var request, c := attempt.request, Candidate(a, attempt);
    forall offset | Fits(a, request, attempt.loaded, offset) ensures c.offset <= offset {
      AlignIsLeast(a.start + attempt.loaded, request.alignment, a.start + offset);
    }
    if c.End() <= a.size {
      assert Fits(a, request, attempt.loaded, c.offset);
    }
  }

  /**
   * The answer to every exchange, current or not: refused exactly when nothing fits behind the
   * position that was loaded, granted at the least place exactly when moreover the position has
   * not moved, and otherwise to be tried again.
   */
  lemma ExchangeAnswers(a: Allocator, t: ThreadId, spurious: bool)
    requires Inv(a) && t in a.attempts
    ensures var (attempt, outcome) := (a.attempts[t], Step(a, Exchange(t, spurious)).1);
            && (outcome == OutOfMemory <==> !SomethingFits(a, attempt.request, attempt.loaded))
            && (outcome.Granted? <==>
                  SomethingFits(a, attempt.request, attempt.loaded) && attempt.loaded == a.Used() && !spurious)
            && (outcome != Pending ==> Answers(a, attempt.request, attempt.loaded, outcome))
            && outcome != SizeIsZero
            && (outcome == Pending <==> t in Step(a, Exchange(t, spurious)).0.attempts)
  {
    CandidateIsLeast(a, a.attempts[t]);
  }

  /** A thread that has to try again sees the chunks granted in between: left alone, it gets the right answer. */
  lemma RetryAnswers(a: Allocator, t: ThreadId, spurious: bool)
    requires Inv(a) && t in a.attempts && Step(a, Exchange(t, spurious)).1 == Pending
    ensures var b := Step(a, Exchange(t, spurious)).0;
            && Inv(b) && t in b.attempts && b.granted == a.granted
            && Answers(a, a.attempts[t].request, a.Used(), Step(b, Exchange(t, false)).1)
  {
    StepKeepsInv(a, Exchange(t, spurious));
    var b := Step(a, Exchange(t, spurious)).0;
    CandidateIsLeast(b, b.attempts[t]);
    SameRegionSameAnswer(a, b, a.attempts[t].request, a.Used(), Step(b, Exchange(t, false)).1);
  }

  lemma SameRegionSameAnswer(a: Allocator, b: Allocator, request: Request, from: nat, outcome: Outcome)
    requires request.alignment > 0 && a.start == b.start && a.size == b.size
    ensures Answers(a, request, from, outcome) <==> Answers(b, request, from, outcome)
  {
    assert forall offset :: Fits(a, request, from, offset) <==> Fits(b, request, from, offset);
  }

  /** An allocation that nobody disturbs gets the right answer, behind all that is granted. */
  lemma UndisturbedAnswers(a: Allocator, t: ThreadId, request: Request)
    requires Inv(a) && Enabled(a, Load(t, request))
    ensures var (b, outcome) := Step(a, Load(t, request));
            && (outcome == SizeIsZero <==> request.size == 0)
            && (outcome == SizeIsZero ==> b == a)
            && (outcome != SizeIsZero ==>
                  Inv(b) && t in b.attempts && Answers(a, request, a.Used(), Step(b, Exchange(t, false)).1))
  {
    StepKeepsInv(a, Load(t, request));
    if request.size != 0 {
      var b := Step(a, Load(t, request)).0;
      CandidateIsLeast(b, b.attempts[t]);
      SameRegionSameAnswer(a, b, request, a.Used(), Step(b, Exchange(t, false)).1);
    }
  }

  /** After `deallocate` the whole region is available again, from its start. */
  lemma DeallocateMakesRoom(a: Allocator, t: ThreadId, request: Request)
    requires Inv(a) && t !in a.attempts && request.size > 0 && request.alignment > 0
    ensures var freed := Step(a, Deallocate).0;
            && Inv(freed) && Enabled(freed, Load(t, request))
            && var loaded := Step(freed, Load(t, request)).0;
               Inv(loaded) && t in loaded.attempts && Answers(a, request, 0, Step(loaded, Exchange(t, false)).1)
  {
    StepKeepsInv(a, Deallocate);
    var freed := Step(a, Deallocate).0;
    UndisturbedAnswers(freed, t, request);
    SameRegionSameAnswer(a, freed, request, 0, Step(Step(freed, Load(t, request)).0, Exchange(t, false)).1);
  }

  /** A new allocator offers its whole region: the first request is granted exactly when some aligned place has room. */
  lemma NewRegionIsFree(start: nat, size: nat, t: ThreadId, request: Request)
    requires request.size > 0 && request.alignment > 0
    ensures Inv(Create(start, size)) && Enabled(Create(start, size), Load(t, request))
    ensures var loaded := Step(Create(start, size), Load(t, request)).0;
            && Inv(loaded) && t in loaded.attempts
            && (Step(loaded, Exchange(t, false)).1.Granted? <==>
                  exists offset :: HasRoom(start, size, request, offset))
  {
    var a := Create(start, size);
    UndisturbedAnswers(a, t, request);
    assert forall offset: nat :: Fits(a, request, 0, offset) <==> HasRoom(start, size, request, offset);
  }

  /** The steps of one thread leave the attempts of the others alone. */
  lemma OthersKeepTheirAttempts(a: Allocator, e: Event, u: ThreadId)
    requires Inv(a) && Enabled(a, e) && (e.Deallocate? || u != e.thread)
    ensures u in Step(a, e).0.attempts <==> u in a.attempts
    ensures u in a.attempts ==> Step(a, e).0.attempts[u] == a.attempts[u]
  {
  }

  /** What was handed out since the last `deallocate`, read off the answers of the run. */
  ghost function Grants(a: Allocator, es: seq<Event>, before: seq<Chunk>): seq<Chunk>
    requires Inv(a) && Possible(a, es)
    decreases |es|
  {
    if es == [] then before else
    StepKeepsInv(a, es[0]);
    var (b, outcome) := Step(a, es[0]);
    Grants(b, es[1..], if es[0].Deallocate? then [] else if outcome.Granted? then before + [outcome.chunk] else before)
  }

  /** The chunks that the safety theorems speak about are exactly those that were handed out. */
  lemma {:induction false} GrantedIsWhatWasHandedOut(a: Allocator, es: seq<Event>)
    requires Inv(a) && Possible(a, es)
    ensures Run(a, es).granted == Grants(a, es, a.granted)
    decreases |es|
  {
    if es != [] {
      StepKeepsInv(a, es[0]);
      GrantedIsWhatWasHandedOut(Step(a, es[0]).0, es[1..]);
    }
  }
}

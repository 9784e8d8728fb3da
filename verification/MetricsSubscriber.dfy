/** Metrics of a reactive stream: the first terminal signal or cancellation of a subscriber is
    counted and timed, once, however the calls race. Counters and timer are shared. */
module MetricsSubscriber {
  import opened Wrappers

  datatype Signal = Error | Complete | Cancel

  datatype Counters = Counters(success: nat, error: nat, cancelled: nat)
  {
    function Incremented(signal: Signal): Counters {
      match signal
      case Error => this.(error := error + 1)
      case Complete => this.(success := success + 1)
      case Cancel => this.(cancelled := cancelled + 1)
    }

    function Total(): nat {
      success + error + cancelled
    }

    function Of(signal: Signal): nat {
      match signal
      case Error => error
      case Complete => success
      case Cancel => cancelled
    }
  }

  /** One sample of the shared timer. */
  datatype Sample = Sample(subscriber: nat, nanos: int)

  // ---- interleaved steps -----------------------------------------------------------------

  /** How far a call of `onError`, `onComplete` or `cancel` has come. */
  datatype Phase =
    | Entered    // before the compare-and-set
    | Claimed    // the compare-and-set succeeded
    | Counted    // its counter is incremented
    | Measured   // the timer has its sample, or the compare-and-set failed
    | Passed     // the signal has been passed on
    | Raised     // a cancellation found no subscription to pass on to

  datatype Call = Call(subscriber: nat, signal: Signal, phase: Phase, won: bool)

  /** Flags, accepted subscriptions and start times are indexed by subscriber, calls by arrival. */
  datatype State = State(
    clock: int,
    flags: seq<bool>,
    accepted: seq<bool>,
    starts: seq<Option<int>>,
    calls: seq<Call>,
    counters: Counters,
    samples: seq<Sample>,
    passed: seq<(nat, Signal)>)

  /** `onSubscribe` takes two steps: it stores the subscription, then the start time. */
  datatype Step =
    | Tick(nanos: nat)
    | Create
    | Accept(subscriber: nat)
    | StartClock(subscriber: nat)
    | Enter(subscriber: nat, signal: Signal)
    | Advance(call: nat)

  /** No subscribers yet; `System.nanoTime()` may start anywhere. */
  function Initial(origin: int): State {
    State(origin, [], [], [], [], Counters(0, 0, 0), [], [])
  }

  ghost predicate WellFormed(s: State) {
    && |s.accepted| == |s.starts| == |s.flags|
    && (forall i :: 0 <= i < |s.calls| ==> s.calls[i].subscriber < |s.flags|)
  }

  /** The `start` field, zero until it is set. */
  function StartOf(s: State, k: nat): int
    requires k < |s.starts|
  {
    if s.starts[k].Some? then s.starts[k].value else 0
  }

  function SampleNow(s: State, k: nat): Sample
    requires k < |s.starts|
  {
    Sample(k, s.clock - StartOf(s, k))
  }

  /** A cancellation needs the subscription it is passed on to. */
  predicate CanPass(s: State, c: Call)
    requires c.subscriber < |s.accepted|
  {
    c.signal.Cancel? ==> s.accepted[c.subscriber]
  }

  /** The next atomic action of one call, by one thread. */
  function AdvanceCall(s: State, i: nat): State
    requires WellFormed(s) && i < |s.calls|
  {
    var c := s.calls[i];
    match c.phase
    case Entered =>
      if s.flags[c.subscriber]
      then s.(calls := s.calls[i := c.(phase := Measured)])
      else s.(flags := s.flags[c.subscriber := true], calls := s.calls[i := c.(phase := Claimed, won := true)])
    case Claimed =>
      s.(counters := s.counters.Incremented(c.signal), calls := s.calls[i := c.(phase := Counted)])
    case Counted =>
      s.(samples := s.samples + [SampleNow(s, c.subscriber)], calls := s.calls[i := c.(phase := Measured)])
    case Measured =>
      if CanPass(s, c)
      then s.(passed := s.passed + [(c.subscriber, c.signal)], calls := s.calls[i := c.(phase := Passed)])
      else s.(calls := s.calls[i := c.(phase := Raised)])
    case Passed => s
    case Raised => s
  }

  function Next(s: State, step: Step): (s': State)
    requires WellFormed(s)
    ensures WellFormed(s')
  {
    match step
    case Tick(nanos) => s.(clock := s.clock + nanos)
    case Create => s.(flags := s.flags + [false], accepted := s.accepted + [false], starts := s.starts + [None])
    case Accept(k) => if k < |s.accepted| then s.(accepted := s.accepted[k := true]) else s
    case StartClock(k) =>
      if k < |s.starts| && s.accepted[k] && s.starts[k].None? then s.(starts := s.starts[k := Some(s.clock)]) else s
    case Enter(k, signal) =>
      if k < |s.flags| then s.(calls := s.calls + [Call(k, signal, Entered, false)]) else s
    case Advance(i) =>
      if i < |s.calls| then AdvanceCall(s, i) else s
  }

  /** The state after any interleaving of steps. */
  function Run(origin: int, steps: seq<Step>): (s: State)
    ensures WellFormed(s)
    decreases |steps|
  {
    if steps == [] then Initial(origin) else Next(Run(origin, steps[..|steps| - 1]), steps[|steps| - 1])
  }

  // ---- counting --------------------------------------------------------------------------

  function Count<T>(s: seq<T>, p: T -> bool): nat {
    if s == [] then 0 else Count(s[..|s| - 1], p) + (if p(s[|s| - 1]) then 1 else 0)
  }

  lemma {:induction false} CountUpdate<T>(s: seq<T>, i: nat, x: T, p: T -> bool)
    requires i < |s|
    ensures Count(s[i := x], p) == Count(s, p) - (if p(s[i]) then 1 else 0) + (if p(x) then 1 else 0)
  {
    var n := |s| - 1;
    if i == n {
      assert s[i := x][..n] == s[..n];
    } else {
      assert s[i := x][..n] == s[..n][i := x];
      CountUpdate(s[..n], i, x, p);
    }
  }

  lemma CountAppend<T>(s: seq<T>, x: T, p: T -> bool)
    ensures Count(s + [x], p) == Count(s, p) + (if p(x) then 1 else 0)
  {
    assert (s + [x])[..|s|] == s;
  }

  lemma {:induction false} CountSplit<T>(s: seq<T>, p: T -> bool, q: T -> bool, r: T -> bool)
    requires forall x :: x in s ==> (if p(x) then 1 else 0) == (if q(x) then 1 else 0) + (if r(x) then 1 else 0)
    ensures Count(s, p) == Count(s, q) + Count(s, r)
  {
    if s != [] {
      CountSplit(s[..|s| - 1], p, q, r);
    }
  }

  lemma {:induction false} CountNone<T>(s: seq<T>, p: T -> bool)
    ensures Count(s, p) == 0 <==> forall x :: x in s ==> !p(x)
  {
    if s != [] {
      CountNone(s[..|s| - 1], p);
      assert s == s[..|s| - 1] + [s[|s| - 1]];
    }
  }

  // ---- the invariant ---------------------------------------------------------------------

  ghost function InPhase(phase: Phase): Call -> bool {
    (c: Call) => c.phase == phase
  }

  ghost function Won(): Call -> bool {
    (c: Call) => c.won
  }

  ghost function WonBy(k: nat): Call -> bool {
    (c: Call) => c.won && c.subscriber == k
  }

  ghost function CountedAs(signal: Signal): Call -> bool {
    (c: Call) => c.won && c.phase != Claimed && c.signal == signal
  }

  ghost function TimedFor(k: nat): Call -> bool {
    (c: Call) => c.won && c.phase != Claimed && c.phase != Counted && c.subscriber == k
  }

  ghost function SampleOf(k: nat): Sample -> bool {
    (x: Sample) => x.subscriber == k
  }

  ghost function IsSet(): bool -> bool {
    (b: bool) => b
  }

  /** Phases, flags and the outcome of the compare-and-set fit together; a subscriber's flag is
      set exactly when one call has won it, and never two have. */
  ghost predicate OneWinner(s: State)
    requires WellFormed(s)
  {
    && (forall i :: 0 <= i < |s.calls| ==>
          && (s.calls[i].phase.Entered? ==> !s.calls[i].won)
          && (!s.calls[i].phase.Entered? ==> s.flags[s.calls[i].subscriber])
          && (s.calls[i].phase.Claimed? || s.calls[i].phase.Counted? ==> s.calls[i].won))
    && (forall k: nat :: k < |s.flags| ==> Count(s.calls, WonBy(k)) == if s.flags[k] then 1 else 0)
    && Count(s.calls, Won()) == Count(s.flags, IsSet())
  }

  /** Each increment comes from a winning call that has got that far, and every call that gets to
      the end passes its signal on, winner or not. */
  ghost predicate Tallied(s: State) {
    && (forall signal: Signal :: s.counters.Of(signal) == Count(s.calls, CountedAs(signal)))
    && s.counters.Total() + Count(s.calls, InPhase(Claimed)) == Count(s.calls, Won())
    && |s.passed| == Count(s.calls, InPhase(Passed))
  }

  /** Each sample comes from a winning call that has got that far; no start lies in the future. */
  ghost predicate Timed(s: State)
    requires WellFormed(s)
  {
    && |s.samples| + Count(s.calls, InPhase(Counted)) == s.counters.Total()
    && (forall k: nat :: k < |s.flags| ==> Count(s.samples, SampleOf(k)) == Count(s.calls, TimedFor(k)))
    && (forall k: nat :: k < |s.starts| && s.starts[k].Some? ==> s.starts[k].value <= s.clock)
    && (forall x :: x in s.samples ==> x.subscriber < |s.flags|)
  }

  ghost predicate Consistent(s: State) {
    WellFormed(s) && OneWinner(s) && Tallied(s) && Timed(s)
  }

  function Unit(b: bool): int {
    if b then 1 else 0
  }

  /** How the counts in the invariant move when call i becomes c, for the same subscriber. */
  lemma Retally(calls: seq<Call>, i: nat, c: Call)
    requires i < |calls| && c.subscriber == calls[i].subscriber && c.signal == calls[i].signal
    ensures var calls' := calls[i := c];
            && Count(calls', Won()) == Count(calls, Won()) + Unit(c.won) - Unit(calls[i].won)
            && (forall k: nat :: Count(calls', WonBy(k)) == Count(calls, WonBy(k))
                  + Unit(WonBy(k)(c)) - Unit(WonBy(k)(calls[i])))
            && (forall g: Signal :: Count(calls', CountedAs(g)) == Count(calls, CountedAs(g))
                  + Unit(CountedAs(g)(c)) - Unit(CountedAs(g)(calls[i])))
            && (forall k: nat :: Count(calls', TimedFor(k)) == Count(calls, TimedFor(k))
                  + Unit(TimedFor(k)(c)) - Unit(TimedFor(k)(calls[i])))
            && (forall h: Phase :: Count(calls', InPhase(h)) == Count(calls, InPhase(h))
                  + Unit(c.phase == h) - Unit(calls[i].phase == h))
  {
    CountUpdate(calls, i, c, Won());
    forall k: nat {
      CountUpdate(calls, i, c, WonBy(k));
    }
    forall k: nat {
      CountUpdate(calls, i, c, TimedFor(k));
    }
    forall g: Signal {
      CountUpdate(calls, i, c, CountedAs(g));
    }
    forall h: Phase {
      CountUpdate(calls, i, c, InPhase(h));
    }
  }

  lemma ClaimConsistent(s: State, i: nat)
    requires Consistent(s) && i < |s.calls| && s.calls[i].phase.Entered?
    ensures Consistent(AdvanceCall(s, i))
  {
    hide Count;
    var c := s.calls[i];
    Retally(s.calls, i, AdvanceCall(s, i).calls[i]);
    CountUpdate(s.flags, c.subscriber, true, IsSet());
  }

  lemma CountConsistent(s: State, i: nat)
    requires Consistent(s) && i < |s.calls| && s.calls[i].phase.Claimed?
    ensures Consistent(AdvanceCall(s, i))
  {
    hide Count;
    Retally(s.calls, i, AdvanceCall(s, i).calls[i]);
  }

  lemma MeasureConsistent(s: State, i: nat)
    requires Consistent(s) && i < |s.calls| && s.calls[i].phase.Counted?
    ensures Consistent(AdvanceCall(s, i))
  {
    var c := s.calls[i];
    Retally(s.calls, i, AdvanceCall(s, i).calls[i]);
    forall k: nat {
      CountAppend(s.samples, SampleNow(s, c.subscriber), SampleOf(k));
    }
  }

  lemma PassConsistent(s: State, i: nat)
    requires Consistent(s) && i < |s.calls| && s.calls[i].phase.Measured?
    ensures Consistent(AdvanceCall(s, i))
  {
    hide Count;
    Retally(s.calls, i, AdvanceCall(s, i).calls[i]);
  }

  lemma AdvanceConsistent(s: State, i: nat)
    requires Consistent(s) && i < |s.calls|
    ensures Consistent(AdvanceCall(s, i))
  {
    match s.calls[i].phase
    case Entered => ClaimConsistent(s, i);
    case Claimed => CountConsistent(s, i);
    case Counted => MeasureConsistent(s, i);
    case Measured => PassConsistent(s, i);
    case Passed =>
    case Raised =>
  }

  lemma EnterConsistent(s: State, k: nat, signal: Signal)
    requires Consistent(s)
    ensures Consistent(Next(s, Enter(k, signal)))
  {
    forall p: Call -> bool {
      CountAppend(s.calls, Call(k, signal, Entered, false), p);
    }
  }

  lemma CreateConsistent(s: State)
    requires Consistent(s)
    ensures Consistent(Next(s, Create))
  {
    hide Count;
    var n := |s.flags|;
    CountAppend(s.flags, false, IsSet());
    CountNone(s.calls, WonBy(n));
    CountNone(s.calls, TimedFor(n));
    CountNone(s.samples, SampleOf(n));
  }

  lemma StepConsistent(s: State, step: Step)
    requires Consistent(s)
    ensures Consistent(Next(s, step))
  {
    match step
    case Tick(nanos) =>
    case Create => CreateConsistent(s);
    case Accept(k) =>
    case StartClock(k) =>
    case Enter(k, signal) => EnterConsistent(s, k, signal);
    case Advance(i) => if i < |s.calls| { AdvanceConsistent(s, i); }
  }

  lemma {:induction false} RunConsistent(origin: int, steps: seq<Step>)
    ensures Consistent(Run(origin, steps))
    decreases |steps|
  {
    hide Consistent, Next;
    if steps == [] {
      EmptyConsistent(Initial(origin));
    } else {
      RunConsistent(origin, steps[..|steps| - 1]);
      StepConsistent(Run(origin, steps[..|steps| - 1]), steps[|steps| - 1]);
    }
  }

  lemma EmptyConsistent(s: State)
    requires |s.flags| == 0 && |s.accepted| == 0 && |s.starts| == 0 && |s.calls| == 0
    requires |s.samples| == 0 && |s.passed| == 0 && s.counters.Total() == 0
    ensures Consistent(s)
  {
  }

  // ---- what every run keeps --------------------------------------------------------------

  /** No call is between winning its compare-and-set and recording its time. */
  ghost predicate Settled(s: State) {
    forall c :: c in s.calls ==> !c.phase.Claimed? && !c.phase.Counted?
  }

  ghost function SetFlags(s: State): nat {
    Count(s.flags, IsSet())
  }

  /** Exact accounting in every reachable state: flags, counters and timer differ only by the
      calls caught in between. */
  lemma Accounting(origin: int, steps: seq<Step>)
    ensures var s := Run(origin, steps);
            && SetFlags(s) == s.counters.Total() + Count(s.calls, InPhase(Claimed))
            && s.counters.Total() == |s.samples| + Count(s.calls, InPhase(Counted))
            && (Settled(s) ==> s.counters.Total() == |s.samples| == SetFlags(s))
  {
    RunConsistent(origin, steps);
    CountNone(Run(origin, steps).calls, InPhase(Claimed));
    CountNone(Run(origin, steps).calls, InPhase(Counted));
  }

  /** What subscriber k has contributed to the three counters. */
  ghost function IncrementsBy(s: State, k: nat): nat {
    Count(s.calls, (c: Call) => c.won && c.phase != Claimed && c.subscriber == k)
  }

  /** However its signals race, a subscriber contributes at most one increment and at most one
      sample, and once settled exactly one of each if any of its calls got past the flag. */
  lemma OncePerSubscriber(origin: int, steps: seq<Step>, k: nat)
    requires k < |Run(origin, steps).flags|
    ensures var s := Run(origin, steps);
            && Count(s.samples, SampleOf(k)) <= IncrementsBy(s, k) <= 1
            && (Settled(s) ==>
                  Count(s.samples, SampleOf(k)) == IncrementsBy(s, k) == if s.flags[k] then 1 else 0)
            && (s.flags[k] <==> exists c :: c in s.calls && c.subscriber == k && !c.phase.Entered?)
  {
    RunConsistent(origin, steps);
    var s := Run(origin, steps);
    var counted := (c: Call) => c.won && c.phase != Claimed && c.subscriber == k;
    CountSplit(s.calls, WonBy(k), counted, (c: Call) => c.won && c.phase == Claimed && c.subscriber == k);
    CountSplit(s.calls, counted, TimedFor(k), (c: Call) => c.won && c.phase == Counted && c.subscriber == k);
    CountNone(s.calls, (c: Call) => c.won && c.phase == Claimed && c.subscriber == k);
    CountNone(s.calls, (c: Call) => c.won && c.phase == Counted && c.subscriber == k);
    CountNone(s.calls, WonBy(k));
  }

  /** Once a subscriber's clock has started, the sample its call is about to record is not
      negative. */
  lemma StartedSamplesAreSane(origin: int, steps: seq<Step>, k: nat)
    requires k < |Run(origin, steps).starts| && Run(origin, steps).starts[k].Some?
    ensures SampleNow(Run(origin, steps), k).nanos >= 0
  {
    RunConsistent(origin, steps);
  }

  // ---- durations, from the steps of a run ------------------------------------------------

  /** Time that passes in a run. */
  function Ticks(steps: seq<Step>): nat {
    if steps == [] then 0
    else
      var last := steps[|steps| - 1];
      Ticks(steps[..|steps| - 1]) + (if last.Tick? then last.nanos else 0)
  }

  function Created(steps: seq<Step>): nat {
    if steps == [] then 0
    else Created(steps[..|steps| - 1]) + (if steps[|steps| - 1].Create? then 1 else 0)
  }

  /** Step i accepts a subscription for subscriber k, which exists by then. */
  ghost predicate AcceptsAt(steps: seq<Step>, i: nat, k: nat) {
    i < |steps| && steps[i] == Accept(k) && k < Created(steps[..i])
  }

  ghost predicate Accepted(steps: seq<Step>, k: nat) {
    exists i: nat :: AcceptsAt(steps, i, k)
  }

  /** Step j reads the clock for subscriber k, after a subscription was accepted. */
  ghost predicate ReadsClockAt(steps: seq<Step>, j: nat, k: nat) {
    j < |steps| && steps[j] == StartClock(k) && exists i: nat :: i < j && AcceptsAt(steps, i, k)
  }

  ghost predicate ReadsClock(steps: seq<Step>, k: nat) {
    exists j: nat :: ReadsClockAt(steps, j, k)
  }

  /** ... and is the first to do so. */
  ghost predicate StartsAt(steps: seq<Step>, j: nat, k: nat) {
    ReadsClockAt(steps, j, k) && forall i: nat :: i < j ==> !ReadsClockAt(steps, i, k)
  }

  lemma {:induction false} TicksSplit(steps: seq<Step>, j: nat)
    requires j <= |steps|
    ensures Ticks(steps) == Ticks(steps[..j]) + Ticks(steps[j..])
    decreases |steps|
  {
    if j == |steps| {
      assert steps[..j] == steps && steps[j..] == [];
    } else {
      var n := |steps| - 1;
      assert steps[..n][..j] == steps[..j] && steps[..n][j..] == steps[j..][..n - j];
      TicksSplit(steps[..n], j);
    }
  }

  lemma AcceptsOneMore(steps: seq<Step>, k: nat)
    requires steps != []
    ensures var n := |steps| - 1;
            && (forall i: nat :: i < n ==> (AcceptsAt(steps[..n], i, k) <==> AcceptsAt(steps, i, k)))
            && (Accepted(steps, k) <==> Accepted(steps[..n], k) || AcceptsAt(steps, n, k))
  {
    var n := |steps| - 1;
    forall i: nat | i < n
      ensures AcceptsAt(steps[..n], i, k) <==> AcceptsAt(steps, i, k)
    {
      assert steps[..n][..i] == steps[..i];
    }
  }

  lemma ReadsOneMore(steps: seq<Step>, k: nat)
    requires steps != []
    ensures var n := |steps| - 1;
            && (forall j: nat :: j < n ==> (ReadsClockAt(steps[..n], j, k) <==> ReadsClockAt(steps, j, k)))
            && (ReadsClockAt(steps, n, k) <==> steps[n] == StartClock(k) && Accepted(steps[..n], k))
            && (ReadsClock(steps, k) <==> ReadsClock(steps[..n], k) || ReadsClockAt(steps, n, k))
  {
    AcceptsOneMore(steps, k);
    var n := |steps| - 1;
    assert forall i: nat :: AcceptsAt(steps[..n], i, k) ==> i < n;
    hide AcceptsAt;
    forall j: nat | j < n
      ensures ReadsClockAt(steps[..n], j, k) <==> ReadsClockAt(steps, j, k)
    {
    }
  }

  lemma StartsOneMore(steps: seq<Step>, k: nat)
    requires steps != []
    ensures var n := |steps| - 1;
            forall j: nat :: StartsAt(steps, j, k) ==>
              if j < n then StartsAt(steps[..n], j, k)
              else j == n && ReadsClockAt(steps, n, k) && !ReadsClock(steps[..n], k)
  {
    ReadsOneMore(steps, k);
  }

  /** The clock, the subscribers and how far their `onSubscribe` came, read off the steps. */
  ghost predicate Explained(origin: int, steps: seq<Step>, k: nat) {
    var s := Run(origin, steps);
    && s.clock == origin + Ticks(steps)
    && |s.flags| == Created(steps)
    && (Accepted(steps, k) <==> k < |s.flags| && s.accepted[k])
    && (ReadsClock(steps, k) <==> k < |s.flags| && s.starts[k].Some?)
  }

  /** What one step does to the clock and to subscriber k's subscription and start time. */
  lemma NextSubscription(s: State, step: Step, k: nat)
    requires WellFormed(s)
    ensures var s' := Next(s, step);
            && s'.clock == s.clock + (if step.Tick? then step.nanos else 0)
            && |s'.flags| == |s.flags| + (if step.Create? then 1 else 0)
            && (k < |s.flags| ==>
                  && (s'.accepted[k] <==> s.accepted[k] || step == Accept(k))
                  && s'.starts[k] == if s.starts[k] == None && step == StartClock(k) && s.accepted[k]
                                     then Some(s.clock) else s.starts[k])
            && (|s.flags| <= k < |s'.flags| ==> !s'.accepted[k] && s'.starts[k] == None)
  {
  }

  lemma {:induction false} RunExplained(origin: int, steps: seq<Step>, k: nat)
    ensures Explained(origin, steps, k)
    decreases |steps|
  {
    if steps != [] {
      var n := |steps| - 1;
      RunExplained(origin, steps[..n], k);
      AcceptsOneMore(steps, k);
      ReadsOneMore(steps, k);
      NextSubscription(Run(origin, steps[..n]), steps[n], k);
      assert AcceptsAt(steps, n, k) <==> steps[n] == Accept(k) && k < Created(steps[..n]);
      hide Next, Accepted, ReadsClock, ReadsClockAt, AcceptsAt;
    }
  }

  lemma {:induction false} StartExplained(origin: int, steps: seq<Step>, j: nat, k: nat)
    requires StartsAt(steps, j, k)
    ensures var s := Run(origin, steps); k < |s.flags| && s.starts[k] == Some(origin + Ticks(steps[..j]))
    decreases |steps|
  {
    var n := |steps| - 1;
    RunExplained(origin, steps[..n], k);
    StartsOneMore(steps, k);
    NextSubscription(Run(origin, steps[..n]), steps[n], k);
    ReadsOneMore(steps, k);
    hide Next, Accepted, ReadsClock, ReadsClockAt, AcceptsAt, StartsAt;
    if j < n {
      StartExplained(origin, steps[..n], j, k);
      assert steps[..n][..j] == steps[..j];
    }
  }

  ghost predicate Samples(s: State, step: Step) {
    step.Advance? && step.call < |s.calls| && s.calls[step.call].phase == Counted
  }

  lemma NextSamples(s: State, step: Step)
    requires WellFormed(s)
    ensures Next(s, step).samples
         == if Samples(s, step) then s.samples + [SampleNow(s, s.calls[step.call].subscriber)] else s.samples
  {
  }

  /** What a call records: whatever the interleaving, a step adds a sample exactly when it advances
      a call that has been counted but not timed. The duration is the time since the clock was
      first read for the call's subscriber, or the clock itself if it never was. */
  lemma SampleDurations(origin: int, steps: seq<Step>, step: Step)
    ensures var s, s' := Run(origin, steps), Run(origin, steps + [step]);
            if Samples(s, step) then
              var k := s.calls[step.call].subscriber;
              && |s'.samples| == |s.samples| + 1 && s'.samples[..|s.samples|] == s.samples
              && s'.samples[|s.samples|].subscriber == k
              && (forall j: nat :: StartsAt(steps, j, k) ==> s'.samples[|s.samples|].nanos == Ticks(steps[j..]))
              && (!ReadsClock(steps, k) ==> s'.samples[|s.samples|].nanos == origin + Ticks(steps))
            else s'.samples == s.samples
  {
    assert (steps + [step])[..|steps|] == steps;
    var s := Run(origin, steps);
    NextSamples(s, step);
    if Samples(s, step) {
      var k := s.calls[step.call].subscriber;
      RunExplained(origin, steps, k);
      hide Next, StartsAt, Ticks, ReadsClock;
      forall j: nat | StartsAt(steps, j, k)
        ensures s.starts[k] == Some(s.clock - Ticks(steps[j..]))
      {
        StartExplained(origin, steps, j, k);
        TicksSplit(steps, j);
      }
    }
  }

  /** What a later state owes to an earlier one: the outcome of a compare-and-set never changes,
      no counter decreases, and no sample or signal is taken back. */
  ghost predicate Extends(s: State, s': State) {
    && |s.calls| <= |s'.calls|
    && (forall i :: 0 <= i < |s.calls| ==>
          && s'.calls[i].subscriber == s.calls[i].subscriber
          && s'.calls[i].signal == s.calls[i].signal
          && (!s.calls[i].phase.Entered? ==> !s'.calls[i].phase.Entered? && s'.calls[i].won == s.calls[i].won))
    && s.counters.error <= s'.counters.error
    && s.counters.success <= s'.counters.success
    && s.counters.cancelled <= s'.counters.cancelled
    && s.samples <= s'.samples
    && s.passed <= s'.passed
  }

  lemma NextExtends(s: State, step: Step)
    requires WellFormed(s)
    ensures Extends(s, Next(s, step))
  {
  }

  lemma ExtendsItself(s: State)
    ensures Extends(s, s)
  {
  }

  lemma ExtendsTransitive(s: State, s': State, s'': State)
    requires Extends(s, s') && Extends(s', s'')
    ensures Extends(s, s'')
  {
  }

  lemma {:induction false} RunExtends(origin: int, steps: seq<Step>, more: seq<Step>)
    ensures Extends(Run(origin, steps), Run(origin, steps + more))
    decreases |more|
  {
    hide Next, Extends;
    if more == [] {
      assert steps + more == steps;
      ExtendsItself(Run(origin, steps));
    } else {
      var n := |more| - 1;
      assert (steps + more)[..|steps + more| - 1] == steps + more[..n];
      RunExtends(origin, steps, more[..n]);
      NextExtends(Run(origin, steps + more[..n]), more[n]);
      ExtendsTransitive(Run(origin, steps), Run(origin, steps + more[..n]), Run(origin, steps + more));
    }
  }

  /** Each counter counts the winners of its own signal, and whatever steps follow, winners stay
      winners, losers stay losers, and nothing counted is lost. */
  lemma WinnersAreFinal(origin: int, steps: seq<Step>, more: seq<Step>)
    ensures Extends(Run(origin, steps), Run(origin, steps + more))
    ensures var s' := Run(origin, steps + more);
            && s'.counters.error == Count(s'.calls, CountedAs(Error))
            && s'.counters.success == Count(s'.calls, CountedAs(Complete))
            && s'.counters.cancelled == Count(s'.calls, CountedAs(Cancel))
  {
    hide Run, Count, Extends;
    RunExtends(origin, steps, more);
    RunConsistent(origin, steps + more);
    var counters := Run(origin, steps + more).counters;
    assert counters.Of(Error) == counters.error && counters.Of(Complete) == counters.success;
    assert counters.Of(Cancel) == counters.cancelled;
  }

  // ---- one subscriber, in place ----------------------------------------------------------

  class Meters {
    var counters: Counters
    var samples: seq<Sample>

    constructor ()
      ensures counters == Counters(0, 0, 0) && samples == []
    {
      counters, samples := Counters(0, 0, 0), [];
    }
  }

  class ProteusMetricsSubscriber {
    const id: nat
    const meters: Meters
    var fired: bool
    var subscription: Option<nat>
    var start: int
    var passed: seq<Signal>

    constructor (id: nat, meters: Meters)
      ensures this.id == id && this.meters == meters
      ensures !fired && subscription == None && start == 0 && passed == []
    {
      this.id, this.meters := id, meters;
      fired, subscription, start, passed := false, None, 0, [];
    }

    /** Accept the first subscription only, and start the clock for it. */
    method OnSubscribe(s: nat, now: int) returns (accepted: bool)
      modifies this`subscription, this`start
      ensures accepted <==> old(subscription) == None
      ensures subscription == (if accepted then Some(s) else old(subscription))
      ensures start == if accepted then now else old(start)
    {
      accepted := subscription == None;
      if accepted {
        subscription := Some(s);
        start := now;
      }
    }

    /** Count and time the signal unless one was counted before. */
    method Record(signal: Signal, now: int)
      modifies this`fired, meters
      ensures fired
      ensures meters.counters == AloneCounters(old(fired), old(meters.counters), signal)
      ensures meters.samples == AloneSamples(old(fired), old(meters.samples), Sample(id, now - start))
    {
      if !fired {
        fired := true;
        meters.counters := meters.counters.Incremented(signal);
        meters.samples := meters.samples + [Sample(id, now - start)];
      }
    }

    method OnError(now: int)
      modifies this`fired, this`passed, meters
      ensures fired && passed == old(passed) + [Error]
      ensures meters.counters == if old(fired) then old(meters.counters)
                                 else old(meters.counters).(error := old(meters.counters.error) + 1)
      ensures meters.samples == AloneSamples(old(fired), old(meters.samples), Sample(id, now - start))
    {
      Record(Error, now);
      passed := passed + [Error];
    }

    method OnComplete(now: int)
      modifies this`fired, this`passed, meters
      ensures fired && passed == old(passed) + [Complete]
      ensures meters.counters == if old(fired) then old(meters.counters)
                                 else old(meters.counters).(success := old(meters.counters.success) + 1)
      ensures meters.samples == AloneSamples(old(fired), old(meters.samples), Sample(id, now - start))
    {
      Record(Complete, now);
      passed := passed + [Complete];
    }

    /** Cancelling before any subscription is counted, and then fails for want of one. */
    method Cancel(now: int) returns (ok: bool)
      modifies this`fired, this`passed, meters
      ensures ok <==> subscription.Some?
      ensures fired && passed == old(passed) + (if ok then [Signal.Cancel] else [])
      ensures meters.counters == if old(fired) then old(meters.counters)
                                 else old(meters.counters).(cancelled := old(meters.counters.cancelled) + 1)
      ensures meters.samples == AloneSamples(old(fired), old(meters.samples), Sample(id, now - start))
    {
      Record(Signal.Cancel, now);
      ok := subscription.Some?;
      if ok {
        passed := passed + [Signal.Cancel];
      }
    }
  }

  function AloneCounters(fired: bool, counters: Counters, signal: Signal): Counters {
    if fired then counters
    else
      var Counters(success, error, cancelled) := counters;
      match signal
      case Error => Counters(success, error + 1, cancelled)
      case Complete => Counters(success + 1, error, cancelled)
      case Cancel => Counters(success, error, cancelled + 1)
  }

  function AloneSamples(fired: bool, samples: seq<Sample>, sample: Sample): seq<Sample> {
    if fired then samples else samples + [sample]
  }

  /** A call that runs through without interference does to the shared state what the method does,
      before the subscription as after it. */
  lemma AloneCall(s: State, k: nat, signal: Signal)
    requires WellFormed(s) && k < |s.flags|
    ensures var i := |s.calls|;
            var s1 := Next(s, Enter(k, signal));
            var s' := Next(Next(Next(Next(s1, Advance(i)), Advance(i)), Advance(i)), Advance(i));
            var ok := signal.Cancel? ==> s.accepted[k];
            var start := if s.starts[k].Some? then s.starts[k].value else 0;
            && s'.flags == s.flags[k := true]
            && s'.counters == AloneCounters(s.flags[k], s.counters, signal)
            && s'.samples == AloneSamples(s.flags[k], s.samples, Sample(k, s.clock - start))
            && s'.passed == s.passed + (if ok then [(k, signal)] else [])
            && s'.calls == s.calls + [Call(k, signal, if ok then Passed else Raised, !s.flags[k])]
  {
    var i := |s.calls|;
    var s1 := Next(s, Enter(k, signal));
    var s2 := Next(s1, Advance(i));
    var s3 := Next(s2, Advance(i));
    var s4 := Next(s3, Advance(i));
    var s5 := Next(s4, Advance(i));
    assert s5.calls[..i] == s.calls;
    assert s5.calls[i].won == !s.flags[k];
  }
}

/** The concurrency throttle: two bounded channels used as counting semaphores, deferred receives,
    and a timer, over all interleavings of any number of requests. */
module Throttle {
  import opened Strings

  /** `active` has capacity `limit`; `backlog` exists only when `backlogLimit` is positive. */
  datatype Config = Config(limit: nat, backlogLimit: int)

  datatype Outcome = Answered | Panicked | Throttled | ClientGone

  /** Where a request is. A queued one holds its backlog slot until the very end. */
  datatype Phase =
    | Arrived
    | Overflowed
    | Waiting
    | Serving(queued: bool)
    | Served(queued: bool, outcome: Outcome)
    | Leaving(outcome: Outcome)
    | Done(outcome: Outcome)

  /** The tokens buffered in the two channels, and the requests. */
  datatype State = State(active: nat, backlog: nat, phases: seq<Phase>)

  datatype Event =
    | TryActive
    | TryBacklog
    | TakeSlot
    | TimerFires
    | ClientLeaves
    | HandlerEnds(panics: bool)
    | ReleaseActive
    | ReleaseBacklog

  datatype Move = Move(request: nat, event: Event)

  /** The channel operations that would block are not enabled. */
  predicate Enabled(config: Config, s: State, m: Move) {
    m.request < |s.phases| &&
    match (s.phases[m.request], m.event)
    case (Arrived, TryActive) => true
    case (Overflowed, TryBacklog) => true
    case (Waiting, TakeSlot) => s.active < config.limit
    case (Waiting, TimerFires) => true
    case (Waiting, ClientLeaves) => true
    case (Serving(_), HandlerEnds(_)) => true
    case (Served(_, _), ReleaseActive) => s.active > 0
    case (Leaving(_), ReleaseBacklog) => s.backlog > 0
    case _ => false
  }

  function Step(config: Config, s: State, m: Move): (t: State)
    requires Enabled(config, s, m)
    ensures |t.phases| == |s.phases|
  {
    var i := m.request;
    match (s.phases[i], m.event)
    case (Arrived, TryActive) =>
      if s.active < config.limit then State(s.active + 1, s.backlog, s.phases[i := Serving(false)])
      else s.(phases := s.phases[i := Overflowed])
    case (Overflowed, TryBacklog) =>
      if config.backlogLimit > 0 && s.backlog < config.backlogLimit
      then State(s.active, s.backlog + 1, s.phases[i := Waiting])
      else s.(phases := s.phases[i := Done(Throttled)])
    case (Waiting, TakeSlot) => State(s.active + 1, s.backlog, s.phases[i := Serving(true)])
    case (Waiting, TimerFires) => s.(phases := s.phases[i := Leaving(Throttled)])
    case (Waiting, ClientLeaves) => s.(phases := s.phases[i := Leaving(ClientGone)])
    case (Serving(queued), HandlerEnds(panics)) =>
      s.(phases := s.phases[i := Served(queued, if panics then Panicked else Answered)])
    case (Served(queued, outcome), ReleaseActive) =>
      State(s.active - 1, s.backlog, s.phases[i := if queued then Leaving(outcome) else Done(outcome)])
    case (Leaving(outcome), ReleaseBacklog) =>
      State(s.active, s.backlog - 1, s.phases[i := Done(outcome)])
  }

  function Start(n: nat): State {
    State(0, 0, seq(n, _ => Arrived))
  }

  /** The state after a run of moves, or None when one of them was not enabled. */
  function Run(config: Config, n: nat, moves: seq<Move>): (r: Option<State>)
    ensures r.Some? ==> |r.value.phases| == n
  {
    if moves == [] then Some(Start(n))
    else
      var last := |moves| - 1;
      match Run(config, n, moves[..last])
      case None => None
      case Some(s) => if Enabled(config, s, moves[last]) then Some(Step(config, s, moves[last])) else None
  }

  // --------------------------------------------------------------------- counting

  function One(b: bool): nat {
    if b then 1 else 0
  }

  function Count(phases: seq<Phase>, holds: Phase -> bool): nat {
    if phases == [] then 0 else One(holds(phases[0])) + Count(phases[1..], holds)
  }

  lemma {:induction false} CountUpdate(phases: seq<Phase>, i: nat, phase: Phase, holds: Phase -> bool)
    requires i < |phases|
    ensures Count(phases[i := phase], holds) + One(holds(phases[i])) == Count(phases, holds) + One(holds(phase))
  {
    if i == 0 {
      assert phases[0 := phase][1..] == phases[1..];
    } else {
      assert phases[i := phase][1..] == phases[1..][i - 1 := phase];
      CountUpdate(phases[1..], i - 1, phase, holds);
    }
  }

  lemma {:induction false} CountAtLeast(phases: seq<Phase>, i: nat, holds: Phase -> bool)
    requires i < |phases| && holds(phases[i])
    ensures Count(phases, holds) >= 1
  {
    if i > 0 { CountAtLeast(phases[1..], i - 1, holds); }
  }

  lemma {:induction false} CountNone(phases: seq<Phase>, holds: Phase -> bool)
    requires forall p | p in phases :: !holds(p)
    ensures Count(phases, holds) == 0
  {
    if phases != [] { CountNone(phases[1..], holds); }
  }

  lemma {:induction false} CountSplits(phases: seq<Phase>, whole: Phase -> bool, a: Phase -> bool, b: Phase -> bool)
    requires forall p :: One(whole(p)) == One(a(p)) + One(b(p))
    ensures Count(phases, whole) == Count(phases, a) + Count(phases, b)
  {
    if phases != [] { CountSplits(phases[1..], whole, a, b); }
  }

  // ------------------------------------------------------------------ conservation

  /** The requests that have taken an active token and not yet given it back. */
  const HoldsActive := (p: Phase) => p.Serving? || p.Served?

  const HoldsBacklog := (p: Phase) =>
    p.Waiting? || p.Leaving? || (p.Serving? && p.queued) || (p.Served? && p.queued)

  predicate Conserved(config: Config, s: State) {
    && s.active == Count(s.phases, HoldsActive) <= config.limit
    && s.backlog == Count(s.phases, HoldsBacklog)
    && (s.backlog == 0 || s.backlog <= config.backlogLimit)
  }

  lemma StepConserves(config: Config, s: State, m: Move)
    requires Conserved(config, s) && Enabled(config, s, m)
    ensures Conserved(config, Step(config, s, m))
  {
    var phase := Step(config, s, m).phases[m.request];
    CountUpdate(s.phases, m.request, phase, HoldsActive);
    CountUpdate(s.phases, m.request, phase, HoldsBacklog);
  }

  /** In every reachable state the tokens in each channel are exactly those of the requests that
      took one and have not given it back, and neither channel is over its capacity. */
  lemma {:induction false} TokensConserved(config: Config, n: nat, moves: seq<Move>)
    requires Run(config, n, moves).Some?
    ensures Conserved(config, Run(config, n, moves).value)
  {
    if moves == [] {
      CountNone(Start(n).phases, HoldsActive);
      CountNone(Start(n).phases, HoldsBacklog);
    } else {
      var last := |moves| - 1;
      TokensConserved(config, n, moves[..last]);
      StepConserves(config, Run(config, n, moves[..last]).value, moves[last]);
    }
  }

  /** When every request has ended, however it ended, both channels are empty again. */
  lemma QuietMeansEmpty(config: Config, n: nat, moves: seq<Move>)
    requires Run(config, n, moves).Some?
    requires forall p | p in Run(config, n, moves).value.phases :: p.Done?
    ensures Run(config, n, moves).value.active == 0 && Run(config, n, moves).value.backlog == 0
  {
    TokensConserved(config, n, moves);
    CountNone(Run(config, n, moves).value.phases, HoldsActive);
    CountNone(Run(config, n, moves).value.phases, HoldsBacklog);
  }

  // ---------------------------------------------------------------------- progress

  /** No deferred receive ever blocks, and a request that has not ended always has a step to
      take, given that handlers return and timers fire. */
  lemma NeverStuck(config: Config, n: nat, moves: seq<Move>, i: nat)
    requires Run(config, n, moves).Some? && i < n
    ensures var s := Run(config, n, moves).value;
            && (s.phases[i].Served? ==> Enabled(config, s, Move(i, ReleaseActive)))
            && (s.phases[i].Leaving? ==> Enabled(config, s, Move(i, ReleaseBacklog)))
            && (!s.phases[i].Done? ==> exists e :: Enabled(config, s, Move(i, e)))
  {
    TokensConserved(config, n, moves);
    var s := Run(config, n, moves).value;
    if HoldsActive(s.phases[i]) { CountAtLeast(s.phases, i, HoldsActive); }
    if HoldsBacklog(s.phases[i]) { CountAtLeast(s.phases, i, HoldsBacklog); }
    match s.phases[i]
    case Arrived => assert Enabled(config, s, Move(i, TryActive));
    case Overflowed => assert Enabled(config, s, Move(i, TryBacklog));
    case Waiting => assert Enabled(config, s, Move(i, TimerFires));
    case Serving(_) => assert Enabled(config, s, Move(i, HandlerEnds(false)));
    case Served(_, _) => assert Enabled(config, s, Move(i, ReleaseActive));
    case Leaving(_) => assert Enabled(config, s, Move(i, ReleaseBacklog));
    case Done(_) =>
  }

  /** The steps that a request can still take at most. */
  function Rank(p: Phase): nat {
    match p
    case Arrived => 6
    case Overflowed => 5
    case Waiting => 4
    case Serving(queued) => 2 + One(queued)
    case Served(queued, _) => 1 + One(queued)
    case Leaving(_) => 1
    case Done(_) => 0
  }

  function Work(phases: seq<Phase>): nat {
    if phases == [] then 0 else Rank(phases[0]) + Work(phases[1..])
  }

  lemma {:induction false} WorkUpdate(phases: seq<Phase>, i: nat, phase: Phase)
    requires i < |phases|
    ensures Work(phases[i := phase]) + Rank(phases[i]) == Work(phases) + Rank(phase)
  {
    if i == 0 {
      assert phases[0 := phase][1..] == phases[1..];
    } else {
      assert phases[i := phase][1..] == phases[1..][i - 1 := phase];
      WorkUpdate(phases[1..], i - 1, phase);
    }
  }

  lemma {:induction false} WorkAtStart(n: nat)
    ensures Work(Start(n).phases) == 6 * n
  {
    if n > 0 {
      assert Start(n).phases[1..] == Start(n - 1).phases;
      WorkAtStart(n - 1);
    }
  }

  lemma StepUsesWork(config: Config, s: State, m: Move)
    requires Enabled(config, s, m)
    ensures Work(Step(config, s, m).phases) < Work(s.phases)
  {
    WorkUpdate(s.phases, m.request, Step(config, s, m).phases[m.request]);
  }

  /** Every move uses up work, so the requests end within six moves each, in any interleaving. */
  lemma {:induction false} RunsAreBounded(config: Config, n: nat, moves: seq<Move>)
    requires Run(config, n, moves).Some?
    ensures |moves| + Work(Run(config, n, moves).value.phases) <= 6 * n
  {
    if moves == [] {
      WorkAtStart(n);
    } else {
      var last := |moves| - 1;
      RunsAreBounded(config, n, moves[..last]);
      StepUsesWork(config, Run(config, n, moves[..last]).value, moves[last]);
    }
  }

  // ------------------------------------------------------------------------ outcomes

  function OutcomeOf(p: Phase): Option<Outcome> {
    match p
    case Served(_, outcome) => Some(outcome)
    case Leaving(outcome) => Some(outcome)
    case Done(outcome) => Some(outcome)
    case _ => None
  }

  /** How a request ends tells what happened to it: its handler ran to the end or panicked, its
      client left, or none of these and it was turned away, at once or by the timer. */
  lemma {:induction false} OutcomeTellsWhatHappened(config: Config, n: nat, moves: seq<Move>, i: nat)
    requires Run(config, n, moves).Some? && i < n
    ensures var outcome := OutcomeOf(Run(config, n, moves).value.phases[i]);
            && (Move(i, HandlerEnds(false)) in moves <==> outcome == Some(Answered))
            && (Move(i, HandlerEnds(true)) in moves <==> outcome == Some(Panicked))
            && (Move(i, ClientLeaves) in moves <==> outcome == Some(ClientGone))
            && (Move(i, TimerFires) in moves ==> outcome == Some(Throttled))
            && (Move(i, TakeSlot) in moves ==> outcome != Some(Throttled) && outcome != Some(ClientGone))
  {
    if moves != [] {
      var last := |moves| - 1;
      OutcomeTellsWhatHappened(config, n, moves[..last], i);
      assert moves == moves[..last] + [moves[last]];
      assert forall m :: m in moves <==> m in moves[..last] || m == moves[last];
      ServingNotEnded(config, n, moves[..last], i);
    }
  }

  /** A request that waits has not been given a slot. */
  lemma {:induction false} ServingNotEnded(config: Config, n: nat, moves: seq<Move>, i: nat)
    requires Run(config, n, moves).Some? && i < n
    ensures var p := Run(config, n, moves).value.phases[i];
            p.Arrived? || p.Overflowed? || p.Waiting? ==> Move(i, TakeSlot) !in moves
  {
    if moves != [] {
      var last := |moves| - 1;
      ServingNotEnded(config, n, moves[..last], i);
      assert forall m :: m in moves <==> m in moves[..last] || m == moves[last];
    }
  }

  // ------------------------------------------------------- who is turned away, exactly

  const IsWaiting := (p: Phase) => p.Waiting?
  const IsBeingServed := (p: Phase) => p.Serving?
  /** Out of the queue, and still keeping its place in it. */
  const KeepsPlace := (p: Phase) => p.Leaving? || (p.Serving? && p.queued) || (p.Served? && p.queued)

  /** At most `limit` handlers run at once. A request that arrives is served at once exactly when
      a slot is free; one that finds none is turned away exactly when the requests waiting and
      those that once waited and have not yet left fill the backlog. */
  lemma TurnedAwayExactly(config: Config, n: nat, moves: seq<Move>, i: nat)
    requires Run(config, n, moves).Some? && i < n
    ensures var s := Run(config, n, moves).value;
            && Count(s.phases, IsBeingServed) <= config.limit
            && (s.phases[i].Arrived? ==>
                  (Step(config, s, Move(i, TryActive)).phases[i] == Serving(false)
                   <==> Count(s.phases, HoldsActive) < config.limit))
            && (s.phases[i].Overflowed? ==>
                  (Step(config, s, Move(i, TryBacklog)).phases[i] == Done(Throttled)
                   <==> Count(s.phases, IsWaiting) + Count(s.phases, KeepsPlace) >= config.backlogLimit))
  {
    TokensConserved(config, n, moves);
    var s := Run(config, n, moves).value;
    CountSplits(s.phases, HoldsActive, IsBeingServed, (p: Phase) => p.Served?);
    CountSplits(s.phases, HoldsBacklog, IsWaiting, KeepsPlace);
  }

  // -------------------------------------------- what the backlog limit promises, exactly

  /** Still in the queue, or just given up waiting and about to leave it. */
  const InQueue := (p: Phase) => p.Waiting? || p.Leaving?
  /** In service with a place in the backlog. */
  const QueuedActive := (p: Phase) => (p.Serving? && p.queued) || (p.Served? && p.queued)
  const NeverQueued := (p: Phase) => (p.Serving? && !p.queued) || (p.Served? && !p.queued)

  ghost predicate Reachable(config: Config, s: State) {
    exists moves :: Run(config, |s.phases|, moves) == Some(s)
  }

  /** A request that found no slot is turned away in this state. */
  predicate Refuses(config: Config, s: State, i: nat) {
    i < |s.phases| && s.phases[i].Overflowed? && Step(config, s, Move(i, TryBacklog)).phases[i] == Done(Throttled)
  }

  /** In every run, whoever is turned away finds at least m requests of this sort. */
  ghost predicate RefusedOnlyWith(config: Config, counted: Phase -> bool, m: int) {
    forall s, i | Reachable(config, s) && Refuses(config, s, i) :: Count(s.phases, counted) >= m
  }

  lemma ReachableNext(config: Config, s: State, m: Move)
    requires Reachable(config, s) && Enabled(config, s, m)
    ensures Reachable(config, Step(config, s, m))
  {
    var moves :| Run(config, |s.phases|, moves) == Some(s);
    assert (moves + [m])[..|moves|] == moves;
    assert Run(config, |s.phases|, moves + [m]) == Some(Step(config, s, m));
  }

  lemma ReachableConserves(config: Config, s: State)
    requires Reachable(config, s)
    ensures Conserved(config, s)
  {
    var moves :| Run(config, |s.phases|, moves) == Some(s);
    TokensConserved(config, |s.phases|, moves);
  }

  /** First the `a` requests that were served at once, of which `d` have ended; then the `b` that
      were queued, of which `d` have taken the freed slots and the next `t` have given up; then those
      yet to come. */
  function PhaseAt(k: nat, a: nat, b: nat, d: nat, t: nat): Phase {
    if k < d then Done(Answered)
    else if k < a then Serving(false)
    else if k < a + d then Serving(true)
    else if k < a + d + t then Leaving(Throttled)
    else if k < a + b then Waiting
    else Arrived
  }

  function Crowd(n: nat, a: nat, b: nat, d: nat, t: nat): State {
    State(a, b, seq(n, k requires k >= 0 => PhaseAt(k, a, b, d, t)))
  }

  lemma {:induction false} SlotsFill(config: Config, n: nat, a: nat)
    requires a <= config.limit && a <= n
    ensures Reachable(config, Crowd(n, a, 0, 0, 0))
  {
    var t := Crowd(n, a, 0, 0, 0);
    if a == 0 {
      assert Run(config, n, []) == Some(Start(n));
      assert t.phases == Start(n).phases;
    } else {
      SlotsFill(config, n, a - 1);
      var s := Crowd(n, a - 1, 0, 0, 0);
      ReachableNext(config, s, Move(a - 1, TryActive));
      assert s.phases[a - 1 := Serving(false)] == t.phases;
    }
  }

  lemma {:induction false} BacklogFills(config: Config, n: nat, b: nat)
    requires (b == 0 || b <= config.backlogLimit) && config.limit + b <= n
    ensures Reachable(config, Crowd(n, config.limit, b, 0, 0))
  {
    if b == 0 {
      SlotsFill(config, n, config.limit);
    } else {
      BacklogFills(config, n, b - 1);
      var i := config.limit + b - 1;
      var s, t := Crowd(n, config.limit, b - 1, 0, 0), Crowd(n, config.limit, b, 0, 0);
      ReachableNext(config, s, Move(i, TryActive));
      var u := Step(config, s, Move(i, TryActive));
      ReachableNext(config, u, Move(i, TryBacklog));
      assert u.phases[i := Waiting] == t.phases;
    }
  }

  lemma {:induction false} QueueGivesUp(config: Config, n: nat, b: nat, t: nat)
    requires t <= b && (b == 0 || b <= config.backlogLimit) && config.limit + b <= n
    ensures Reachable(config, Crowd(n, config.limit, b, 0, t))
  {
    if t == 0 {
      BacklogFills(config, n, b);
    } else {
      QueueGivesUp(config, n, b, t - 1);
      var i := config.limit + t - 1;
      var s := Crowd(n, config.limit, b, 0, t - 1);
      ReachableNext(config, s, Move(i, TimerFires));
      assert s.phases[i := Leaving(Throttled)] == Crowd(n, config.limit, b, 0, t).phases;
    }
  }

  lemma {:induction false} QueueIsServed(config: Config, n: nat, b: nat, d: nat)
    requires d <= b && d <= config.limit && (b == 0 || b <= config.backlogLimit) && config.limit + b <= n
    ensures Reachable(config, Crowd(n, config.limit, b, d, 0))
  {
    if d == 0 {
      BacklogFills(config, n, b);
    } else {
      QueueIsServed(config, n, b, d - 1);
      OneIsServed(config, n, b, d);
    }
  }

  lemma ServiceEnds(config: Config, s: State, i: nat)
    requires Reachable(config, s) && i < |s.phases| && s.phases[i] == Serving(false) && s.active > 0
    ensures Reachable(config, State(s.active - 1, s.backlog, s.phases[i := Done(Answered)]))
  {
    var served := s.(phases := s.phases[i := Served(false, Answered)]);
    ReachableNext(config, s, Move(i, HandlerEnds(false)));
    ReachableNext(config, served, Move(i, ReleaseActive));
    assert served.phases[i := Done(Answered)] == s.phases[i := Done(Answered)];
  }

  lemma OneIsServed(config: Config, n: nat, b: nat, d: nat)
    requires 0 < d <= b && d <= config.limit && config.limit + b <= n
    requires Reachable(config, Crowd(n, config.limit, b, d - 1, 0))
    ensures Reachable(config, Crowd(n, config.limit, b, d, 0))
  {
    var s, i, j := Crowd(n, config.limit, b, d - 1, 0), d - 1, config.limit + d - 1;
    ServiceEnds(config, s, i);
    var freed := State(config.limit - 1, b, s.phases[i := Done(Answered)]);
    ReachableNext(config, freed, Move(j, TakeSlot));
    assert freed.phases[j := Serving(true)] == Crowd(n, config.limit, b, d, 0).phases;
  }

  /** One more request comes to a crowd that holds every slot and every place, and is turned away. */
  lemma NewcomerIsRefused(config: Config, b: nat, d: nat, t: nat) returns (s: State)
    requires d + t <= b && d <= config.limit
    requires b == if config.backlogLimit > 0 then config.backlogLimit else 0
    requires Reachable(config, Crowd(config.limit + b + 1, config.limit, b, d, t))
    ensures Reachable(config, s) && Refuses(config, s, config.limit + b) && s.phases[config.limit + b] == Overflowed
    ensures s.active == config.limit && s.backlog == b && |s.phases| == config.limit + b + 1
    ensures forall k | 0 <= k < config.limit + b :: s.phases[k] == PhaseAt(k, config.limit, b, d, t)
  {
    var i := config.limit + b;
    var crowd := Crowd(i + 1, config.limit, b, d, t);
    ReachableNext(config, crowd, Move(i, TryActive));
    s := Step(config, crowd, Move(i, TryActive));
  }

  /** The backlog limit says nothing about the requests that wait: one can be turned away while
      nobody waits, whatever the limits are. */
  lemma WaitingAtRefusal(config: Config, m: int)
    ensures RefusedOnlyWith(config, IsWaiting, m) <==> m <= 0
  {
    var b := if config.backlogLimit > 0 then config.backlogLimit else 0;
    QueueGivesUp(config, config.limit + b + 1, b, b);
    var s := NewcomerIsRefused(config, b, 0, b);
    CountNone(s.phases, IsWaiting);
    assert Refuses(config, s, config.limit + b);
  }

  lemma RefusedWithQueue(config: Config, s: State, i: nat)
    requires Reachable(config, s) && Refuses(config, s, i)
    ensures Count(s.phases, InQueue) >= config.backlogLimit - config.limit
  {
    ReachableConserves(config, s);
    CountSplits(s.phases, HoldsBacklog, InQueue, QueuedActive);
    CountSplits(s.phases, HoldsActive, QueuedActive, NeverQueued);
  }

  lemma CrowdedOut(s: State, a: nat, b: nat, d: nat)
    requires d <= a && d <= b && |s.phases| == a + b + 1 && s.phases[a + b] == Overflowed
    requires forall k | 0 <= k < a + b :: s.phases[k] == PhaseAt(k, a, b, d, 0)
    ensures d == b ==> forall p | p in s.phases :: !InQueue(p)
    ensures d == a ==> forall p | p in s.phases :: !NeverQueued(p)
  {}

  lemma CountInQueue(config: Config, s: State, d: nat, b: nat)
    requires Conserved(config, s) && s.active == config.limit && s.backlog == b
    requires d == if b < config.limit then b else config.limit
    requires d == b ==> forall p | p in s.phases :: !InQueue(p)
    requires d == config.limit ==> forall p | p in s.phases :: !NeverQueued(p)
    ensures Count(s.phases, InQueue) == b - d
  {
    if d == b {
      CountNone(s.phases, InQueue);
    } else {
      CountSplits(s.phases, HoldsBacklog, InQueue, QueuedActive);
      CountSplits(s.phases, HoldsActive, QueuedActive, NeverQueued);
      CountNone(s.phases, NeverQueued);
    }
  }

  /** Someone is turned away while as many slots as can be are held by those that once waited. */
  lemma RefusedWithFew(config: Config) returns (s: State, i: nat)
    ensures Reachable(config, s) && Refuses(config, s, i)
    ensures var few := config.backlogLimit - config.limit; Count(s.phases, InQueue) == if few > 0 then few else 0
  {
    var b := if config.backlogLimit > 0 then config.backlogLimit else 0;
    var d := if b < config.limit then b else config.limit;
    i := config.limit + b;
    QueueIsServed(config, i + 1, b, d);
    s := NewcomerIsRefused(config, b, d, 0);
    ReachableConserves(config, s);
    CrowdedOut(s, config.limit, b, d);
    CountInQueue(config, s, d, b);
  }

  /** Nor about those that wait or have just given up: there may be as few as the backlog limit
      less the number of slots, since each slot may be held by one that once waited. */
  lemma QueueAtRefusal(config: Config, m: int)
    ensures RefusedOnlyWith(config, InQueue, m) <==> m <= 0 || m <= config.backlogLimit - config.limit
  {
    forall s, i | Reachable(config, s) && Refuses(config, s, i)
      ensures Count(s.phases, InQueue) >= config.backlogLimit - config.limit
    {
      RefusedWithQueue(config, s, i);
    }
    var s, i := RefusedWithFew(config);
  }

  /** That a request is turned away only while as many wait as the backlog limit allows is true of
      every run exactly when there is no backlog; and, counting those that have just given up,
      exactly when there is no backlog or no slot. */
  lemma BacklogLimitHeldExactly(config: Config)
    ensures RefusedOnlyWith(config, IsWaiting, config.backlogLimit) <==> config.backlogLimit <= 0
    ensures RefusedOnlyWith(config, InQueue, config.backlogLimit) <==> config.backlogLimit <= 0 || config.limit == 0
  {
    WaitingAtRefusal(config, config.backlogLimit);
    QueueAtRefusal(config, config.backlogLimit);
  }
}

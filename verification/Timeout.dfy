/** The timeout middleware: a handler goroutine that writes into a buffer, a main goroutine that
    waits for completion, panic or deadline, and one mutex, over all interleavings. The handler is
    any handler: it chooses each next action as it likes, also in reaction to a failed write. */
module Timeout {
  import opened Strings
  import opened Responses

  const SERVICE_UNAVAILABLE := 503

  datatype Owner = Free | ByHandler | ByMain

  /** Exited is runtime.Goexit: it runs the deferred call, which finds no panic, and skips close(done). */
  datatype Ending = Normally | ByPanic(value: int) | Exited

  datatype HandlerPc =
    | Running
    | Wants(action: Action)      // inside Write or WriteHeader, before Lock
    | Inside(action: Action)     // holds the mutex
    | Leaves                     // about to Unlock
    | Returning                  // about to close(done)
    | Panicking(value: int)      // about to send on panicChan
    | Ended(ending: Ending)

  datatype Outcome = Delivered | TimedOut | Repanicked(value: int)

  datatype MainPc =
    | Selecting
    | DoneChosen | DoneLocked | HeadersCopied | StatusSent | BodySent
    | LateChosen | LateLocked | ErrSet | ProblemStarted | ProblemSent
    | Finished(outcome: Outcome)

  datatype State = State(
    buffered: Response,
    err: bool,
    mutex: Owner,
    handler: HandlerPc,
    main: MainPc,
    done: bool,                  // the channel is closed
    panicChan: Option<int>,      // its one-element buffer
    expired: bool,               // the context is done
    writer: Response,            // the real writer
    performed: seq<Action>)      // what took effect in the buffer; the code keeps no such list

  /** What is fixed for one request: the headers already on the writer and the 503 to send. */
  datatype Request = Request(header: Header, problemHeader: Header, problemBody: Bytes)

  datatype Move =
    | Expire
    | Call(action: Action) | HandlerLock | HandlerEffect | HandlerUnlock
    | Return | Panic(value: int) | Goexit | CloseDone | SendPanic
    | ReceivePanic | ReceiveDone | ReceiveLate
    | MainLock | MainStep | MainUnlock

  function Start(r: Request): State {
    State(Untouched, false, Free, Running, Selecting, false, None, false, Unsent.(header := r.header), [])
  }

  predicate Enabled(s: State, m: Move) {
    match m
    case Expire => !s.expired
    case Call(_) => s.handler.Running?
    case HandlerLock => s.handler.Wants? && s.mutex.Free?
    case HandlerEffect => s.handler.Inside?
    case HandlerUnlock => s.handler.Leaves?
    case Return => s.handler.Running?
    case Panic(_) => s.handler.Running?
    case Goexit => s.handler.Running?
    case CloseDone => s.handler.Returning? && !s.done
    case SendPanic => s.handler.Panicking? && s.panicChan.None?
    case ReceivePanic => s.main.Selecting? && s.panicChan.Some?
    case ReceiveDone => s.main.Selecting? && s.done
    case ReceiveLate => s.main.Selecting? && s.expired
    case MainLock => (s.main.DoneChosen? || s.main.LateChosen?) && s.mutex.Free?
    case MainStep =>
      || s.main.DoneLocked? || s.main.HeadersCopied? || s.main.StatusSent?
      || s.main.LateLocked? || s.main.ErrSet? || s.main.ProblemStarted?
    case MainUnlock => s.main.BodySent? || s.main.ProblemSent?
  }

  function MainDoes(r: Request, s: State): State
    requires Enabled(s, MainStep)
  {
    match s.main
    case DoneLocked =>
      s.(main := HeadersCopied, writer := s.writer.(header := s.writer.header + s.buffered.header))
    case HeadersCopied =>
      s.(main := StatusSent,
         buffered := s.buffered.(status := s.buffered.FinalStatus()),
         writer := s.writer.WithStatus(s.buffered.FinalStatus()))
    case StatusSent =>
      s.(main := BodySent, writer := s.writer.WithData(s.buffered.body))
    case LateLocked =>
      s.(main := ErrSet, err := true)
    case ErrSet =>
      s.(main := ProblemStarted,
         writer := s.writer.(header := s.writer.header + r.problemHeader).WithStatus(SERVICE_UNAVAILABLE))
    case ProblemStarted =>
      s.(main := ProblemSent, writer := s.writer.WithData(r.problemBody))
  }

  function Step(r: Request, s: State, m: Move): State
    requires Enabled(s, m)
  {
    match m
    case Expire => s.(expired := true)
    case Call(SetHeader(name, values)) =>
      // Header() hands out the map itself: no lock, and no check of err.
      s.(buffered := Perform(s.buffered, SetHeader(name, values)), performed := s.performed + [SetHeader(name, values)])
    case Call(action) => s.(handler := Wants(action))
    case HandlerLock => s.(handler := Inside(s.handler.action), mutex := ByHandler)
    case HandlerEffect =>
      if s.err then s.(handler := Leaves)
      else s.(handler := Leaves, buffered := Perform(s.buffered, s.handler.action), performed := s.performed
          + [s.handler.action])
    case HandlerUnlock => s.(handler := Running, mutex := Free)
    case Return => s.(handler := Returning)
    case Panic(value) => s.(handler := Panicking(value))
    case Goexit => s.(handler := Ended(Exited))
    case CloseDone => s.(handler := Ended(Normally), done := true)
    case SendPanic => s.(handler := Ended(ByPanic(s.handler.value)), panicChan := Some(s.handler.value))
    case ReceivePanic => s.(panicChan := None, main := Finished(Repanicked(s.panicChan.value)))
    case ReceiveDone => s.(main := DoneChosen)
    case ReceiveLate => s.(main := LateChosen)
    case MainLock => s.(mutex := ByMain, main := if s.main.DoneChosen? then DoneLocked else LateLocked)
    case MainStep => MainDoes(r, s)
    case MainUnlock => s.(mutex := Free, main := Finished(if s.main.BodySent? then Delivered else TimedOut))
  }

  /** The state after a run of moves, or None when one of them was not enabled. */
  function Run(r: Request, moves: seq<Move>): Option<State> {
    if moves == [] then Some(Start(r))
    else
      var last := |moves| - 1;
      match Run(r, moves[..last])
      case None => None
      case Some(s) => if Enabled(s, moves[last]) then Some(Step(r, s, moves[last])) else None
  }

  // ---------------------------------------------------------------- the invariant

  predicate MainHolds(main: MainPc) {
    || main.DoneLocked? || main.HeadersCopied? || main.StatusSent? || main.BodySent?
    || main.LateLocked? || main.ErrSet? || main.ProblemStarted? || main.ProblemSent?
  }

  predicate Delivering(main: MainPc) {
    || main.DoneChosen? || main.DoneLocked? || main.HeadersCopied? || main.StatusSent? || main.BodySent?
    || main == Finished(Delivered)
  }

  predicate Refusing(main: MainPc) {
    main.ErrSet? || main.ProblemStarted? || main.ProblemSent? || main == Finished(TimedOut)
  }

  /** The same but for a status that was never written. */
  predicate Alike(a: Response, b: Response) {
    && a.kind == b.kind == Buffering && a.header == b.header && a.body == b.body
    && a.wrote == b.wrote && a.FinalStatus() == b.FinalStatus()
  }

  lemma PerformKeepsAlike(a: Response, b: Response, action: Action)
    requires Alike(a, b)
    ensures Alike(Perform(a, action), Perform(b, action))
  {}

  /** The mutex excludes, and what is buffered is what was performed. */
  ghost predicate Consistent(s: State) {
    && (s.mutex.ByHandler? <==> s.handler.Inside? || s.handler.Leaves?)
    && (s.mutex.ByMain? <==> MainHolds(s.main))
    && (s.err <==> Refusing(s.main))
    && (s.handler.Wants? || s.handler.Inside? ==> !s.handler.action.SetHeader?)
    && Alike(s.buffered, PerformAll(Untouched, s.performed))
  }

  /** The channels tell how the handler ended, and main acts on what they tell. */
  ghost predicate Signalled(s: State) {
    && (s.done <==> s.handler == Ended(Normally))
    && (Delivering(s.main) ==> s.done)
    && (s.panicChan.Some? ==> s.handler == Ended(ByPanic(s.panicChan.value)))
    && (s.handler.Ended? && s.handler.ending.ByPanic? ==>
          s.panicChan.Some? || s.main == Finished(Repanicked(s.handler.ending.value)))
    && (s.main.Finished? && s.main.outcome.Repanicked? ==>
          s.handler == Ended(ByPanic(s.main.outcome.value)) && s.panicChan.None?)
  }

  /** What the real writer has received by the time main is where it is. */
  function Sent(r: Request, s: State): Response {
    var output := PerformAll(Untouched, s.performed);
    match s.main
    case HeadersCopied => Merged(r, output.header)
    case StatusSent => Merged(r, output.header).WithStatus(output.FinalStatus())
    case BodySent => Replied(r, output.header, output.FinalStatus(), output.body)
    case ProblemStarted => Merged(r, r.problemHeader).WithStatus(SERVICE_UNAVAILABLE)
    case ProblemSent => Replied(r, r.problemHeader, SERVICE_UNAVAILABLE, r.problemBody)
    case Finished(Delivered) => Replied(r, output.header, output.FinalStatus(), output.body)
    case Finished(TimedOut) => Replied(r, r.problemHeader, SERVICE_UNAVAILABLE, r.problemBody)
    case _ => Unsent.(header := r.header)
  }

  function Merged(r: Request, header: Header): Response {
    Unsent.(header := r.header + header)
  }

  function Replied(r: Request, header: Header, code: int, body: Bytes): Response {
    Merged(r, header).WithStatus(code).WithData(body)
  }

  /** What net/http makes of headers, a status and a body. */
  lemma RepliedShows(r: Request, header: Header, code: int, body: Bytes)
    ensures var w := Replied(r, header, code, body);
            && w.wrote && w.status == Shown(code) && w.body == Carried(Serving, Shown(code), body)
            && w.Sent() == r.header + header
    ensures var w := Merged(r, header).WithStatus(code); w.body == [] && (w.wrote ==> w.status == Shown(code))
  {}

  ghost predicate Inv(r: Request, s: State) {
    Consistent(s) && Signalled(s) && s.writer == Sent(r, s)
  }

  lemma PerformSnoc(actions: seq<Action>, action: Action)
    ensures PerformAll(Untouched, actions + [action]) == Perform(PerformAll(Untouched, actions), action)
  {
    assert (actions + [action])[..|actions|] == actions;
  }

  lemma MainStaysConsistent(r: Request, s: State)
    requires Consistent(s) && Signalled(s) && Enabled(s, MainStep)
    ensures Consistent(Step(r, s, MainStep)) && Signalled(Step(r, s, MainStep))
  {}

  lemma MainSends(r: Request, s: State)
    requires Consistent(s) && s.writer == Sent(r, s) && Enabled(s, MainStep)
    ensures MainDoes(r, s).writer == Sent(r, MainDoes(r, s))
  {
    assert MainDoes(r, s).performed == s.performed;
  }

  lemma MainKeepsInv(r: Request, s: State)
    requires Inv(r, s) && Enabled(s, MainStep)
    ensures Inv(r, Step(r, s, MainStep))
  {
    MainStaysConsistent(r, s);
    MainSends(r, s);
  }

  /** While the handler runs, nothing it does shows on the writer. */
  lemma HandlerIsUnseen(r: Request, s: State, t: State)
    requires Signalled(s) && !s.handler.Ended? && t.main == s.main
    ensures Sent(r, t) == Sent(r, s)
  {}

  lemma HandlerStaysConsistent(r: Request, s: State, m: Move)
    requires Consistent(s) && Enabled(s, m) && (m.Call? || m.HandlerEffect?)
    ensures Consistent(Step(r, s, m))
  {
    var action := if m.Call? then m.action else s.handler.action;
    PerformSnoc(s.performed, action);
    PerformKeepsAlike(s.buffered, PerformAll(Untouched, s.performed), action);
  }

  lemma HandlerActs(r: Request, s: State, m: Move)
    requires Inv(r, s) && Enabled(s, m) && (m.Call? || m.HandlerEffect?)
    ensures Inv(r, Step(r, s, m))
  {
    HandlerStaysConsistent(r, s, m);
    HandlerIsUnseen(r, s, Step(r, s, m));
  }

  lemma HandlerMovesOn(r: Request, s: State, m: Move)
    requires Inv(r, s) && Enabled(s, m)
    requires m.HandlerLock? || m.HandlerUnlock? || m.Return? || m.Panic? || m.Goexit? || m.CloseDone? || m.SendPanic?
    ensures Inv(r, Step(r, s, m))
  {
    HandlerIsUnseen(r, s, Step(r, s, m));
  }

  lemma MainStaysUnseen(r: Request, s: State, m: Move)
    requires Enabled(s, m) && Signalled(s)
    requires m.Expire? || m.ReceivePanic? || m.ReceiveDone? || m.ReceiveLate? || m.MainLock? || m.MainUnlock?
    ensures Sent(r, Step(r, s, m)) == Sent(r, s)
  {}

  lemma MainMovesOn(r: Request, s: State, m: Move)
    requires Inv(r, s) && Enabled(s, m)
    requires m.Expire? || m.ReceivePanic? || m.ReceiveDone? || m.ReceiveLate? || m.MainLock? || m.MainUnlock?
    ensures Inv(r, Step(r, s, m))
  {
    MainStaysUnseen(r, s, m);
    MainKeepsSignals(r, s, m);
  }

  lemma MainKeepsSignals(r: Request, s: State, m: Move)
    requires Enabled(s, m) && Signalled(s)
    requires m.Expire? || m.ReceivePanic? || m.ReceiveDone? || m.ReceiveLate? || m.MainLock? || m.MainUnlock?
    ensures Signalled(Step(r, s, m))
  {}

  lemma StepKeepsInv(r: Request, s: State, m: Move)
    requires Inv(r, s) && Enabled(s, m)
    ensures Inv(r, Step(r, s, m))
  {
    if m.MainStep? {
      MainKeepsInv(r, s);
    } else if m.Call? || m.HandlerEffect? {
      HandlerActs(r, s, m);
    } else if m.Expire? || ByMainGoroutine(m) {
      MainMovesOn(r, s, m);
    } else {
      HandlerMovesOn(r, s, m);
    }
  }

  lemma {:induction false} RunKeepsInv(r: Request, moves: seq<Move>)
    requires Run(r, moves).Some?
    ensures Inv(r, Run(r, moves).value)
  {
    if moves != [] {
      var last := |moves| - 1;
      RunKeepsInv(r, moves[..last]);
      StepKeepsInv(r, Run(r, moves[..last]).value, moves[last]);
    }
  }

  // ------------------------------------------------- what the handler called, in order

  /** The handler's calls, as the run lists them. */
  function Calls(moves: seq<Move>): seq<Action> {
    if moves == [] then []
    else
      var last := moves[|moves| - 1];
      Calls(moves[..|moves| - 1]) + if last.Call? then [last.action] else []
  }

  /** The call that the handler is still inside of. */
  function Pending(handler: HandlerPc): seq<Action> {
    if handler.Wants? || handler.Inside? then [handler.action] else []
  }

  lemma StepPerforms(r: Request, s: State, m: Move)
    requires Enabled(s, m) && !Step(r, s, m).err
    ensures var t := Step(r, s, m);
            t.performed + Pending(t.handler) == s.performed + Pending(s.handler) + if m.Call? then [m.action] else []
  {}

  lemma ErrStays(r: Request, s: State, m: Move)
    requires Enabled(s, m) && s.err
    ensures Step(r, s, m).err
  {}

  /** Until the deadline branch sets err every call takes effect, in the order of the calls. */
  lemma {:induction false} CallsArePerformed(r: Request, moves: seq<Move>)
    requires Run(r, moves).Some? && !Run(r, moves).value.err
    ensures Calls(moves) == Run(r, moves).value.performed + Pending(Run(r, moves).value.handler)
  {
    if moves != [] {
      var last := |moves| - 1;
      var s := Run(r, moves[..last]).value;
      if s.err { ErrStays(r, s, moves[last]); }
      CallsArePerformed(r, moves[..last]);
      StepPerforms(r, s, moves[last]);
    }
  }

  /** A handler that has returned has performed exactly what it called, unless it was cut off. */
  lemma DonePerformsCalls(r: Request, moves: seq<Move>)
    requires Run(r, moves).Some? && Run(r, moves).value.done && !Run(r, moves).value.err
    ensures Calls(moves) == Run(r, moves).value.performed
  {
    RunKeepsInv(r, moves);
    CallsArePerformed(r, moves);
  }

  // ----------------------------------------------------------------- the main results

  /** One whole answer: when main has finished, the client has either the output of all the calls
      that the handler made (its first status, or 200 for an informational one; all its bytes in order,
      if that status carries any; its headers over those already there), or the 503 alone, or nothing
      while the handler's own panic is raised again. */
  lemma OneWholeAnswer(r: Request, moves: seq<Move>)
    requires Run(r, moves).Some? && Run(r, moves).value.main.Finished?
    ensures var s := Run(r, moves).value;
            match s.main.outcome
            case Delivered =>
              && s.handler == Ended(Normally)
              && s.writer.wrote && s.writer.status == Shown(FirstStatus(Buffering, Calls(moves)))
              && s.writer.body == Carried(Serving, s.writer.status, AllBytes(Calls(moves)))
              && s.writer.Sent() == r.header + PerformAll(Untouched, Calls(moves)).header
            case TimedOut =>
              && s.writer.wrote && s.writer.status == 503 && s.writer.body == r.problemBody
              && s.writer.Sent() == r.header + r.problemHeader
            case Repanicked(value) =>
              s.handler == Ended(ByPanic(value)) && s.writer == Unsent.(header := r.header)
  {
    var s := Run(r, moves).value;
    RunKeepsInv(r, moves);
    WriterHoldsWholeOutput(Buffering, s.performed);
    var output := PerformAll(Untouched, s.performed);
    RepliedShows(r, output.header, output.FinalStatus(), output.body);
    RepliedShows(r, r.problemHeader, SERVICE_UNAVAILABLE, r.problemBody);
    if s.main.outcome.Delivered? { DonePerformsCalls(r, moves); }
  }

  lemma SentUnmixed(r: Request, s: State)
    ensures var w, output := Sent(r, s), PerformAll(Untouched, s.performed);
            || (!w.wrote && w.body == [])
            || (Delivering(s.main) && w.wrote && w.status == Shown(output.FinalStatus())
                && (w.body == [] || w.body == output.body))
            || (Refusing(s.main) && w.wrote && w.status == SERVICE_UNAVAILABLE
                && (w.body == [] || w.body == r.problemBody))
  {
    var output := PerformAll(Untouched, s.performed);
    RepliedShows(r, output.header, output.FinalStatus(), output.body);
    RepliedShows(r, r.problemHeader, SERVICE_UNAVAILABLE, r.problemBody);
  }

  /** Never a mixture: at every moment of every interleaving the writer has no status and no byte,
      or the status of the finished handler with none or all of its bytes, or the 503 with none
      or all of its own. */
  lemma NeverAMixture(r: Request, moves: seq<Move>)
    requires Run(r, moves).Some?
    ensures var s := Run(r, moves).value;
            || (!s.writer.wrote && s.writer.body == [])
            || (s.done && !s.err && s.writer.wrote && s.writer.status == Shown(FirstStatus(Buffering, Calls(moves)))
                && (s.writer.body == [] || s.writer.body == AllBytes(Calls(moves))))
            || (s.err && s.writer.wrote && s.writer.status == 503
                && (s.writer.body == [] || s.writer.body == r.problemBody))
  {
    var s := Run(r, moves).value;
    RunKeepsInv(r, moves);
    SentUnmixed(r, s);
    WriterHoldsWholeOutput(Buffering, s.performed);
    if s.done && !s.err { DonePerformsCalls(r, moves); }
  }

  predicate Frozen(s: State, t: State) {
    && t.err
    && t.buffered.body == s.buffered.body
    && t.buffered.status == s.buffered.status
    && t.buffered.wrote == s.buffered.wrote
  }

  lemma StepKeepsFrozen(r: Request, s: State, m: Move)
    requires Consistent(s) && s.err && Enabled(s, m)
    ensures Frozen(s, Step(r, s, m))
  {}

  /** Once the deadline branch has set err, no later move of anyone changes the buffered bytes
      or status, or takes err back. */
  lemma {:induction false} FrozenAfterErr(r: Request, moves: seq<Move>, n: nat)
    requires n <= |moves| && Run(r, moves).Some? && Run(r, moves[..n]).Some? && Run(r, moves[..n]).value.err
    ensures Frozen(Run(r, moves[..n]).value, Run(r, moves).value)
  {
    if n < |moves| {
      var last := |moves| - 1;
      assert moves[..last][..n] == moves[..n];
      FrozenAfterErr(r, moves[..last], n);
      RunKeepsInv(r, moves[..last]);
      StepKeepsFrozen(r, Run(r, moves[..last]).value, moves[last]);
    } else {
      assert moves[..n] == moves;
    }
  }

  /** Can the main goroutine make a move, and can the handler's one go on with what it has begun? */
  predicate MainCanMove(s: State) {
    || Enabled(s, ReceivePanic) || Enabled(s, ReceiveDone) || Enabled(s, ReceiveLate)
    || Enabled(s, MainLock) || Enabled(s, MainStep) || Enabled(s, MainUnlock)
  }

  predicate HandlerCanMove(s: State) {
    || Enabled(s, HandlerLock) || Enabled(s, HandlerEffect) || Enabled(s, HandlerUnlock)
    || Enabled(s, Return) || Enabled(s, CloseDone) || Enabled(s, SendPanic)
  }

  /** Has the handler ended in a way that it signals? */
  predicate SignalledEnd(handler: HandlerPc) {
    handler.Ended? && !handler.ending.Exited?
  }

  lemma MainMovesExactly(s: State)
    requires Consistent(s) && Signalled(s) && !s.main.Finished?
    ensures MainCanMove(s)
            <==> && (s.main.Selecting? ==> s.expired || SignalledEnd(s.handler))
                 && (s.main.LateChosen? ==> !s.mutex.ByHandler?)
  {}

  lemma HandlerMovesExactly(s: State)
    requires Consistent(s) && Signalled(s) && !s.handler.Ended?
    ensures HandlerCanMove(s) <==> (s.handler.Wants? ==> !s.mutex.ByMain?)
  {}

  /** Nobody is stuck. Main waits for nothing but the end of the handler or the deadline, and then
      for a mutex whose holder can move; the handler, its completion signals included, waits for
      nothing but a mutex whose holder can move. */
  lemma NobodyIsStuck(r: Request, moves: seq<Move>)
    requires Run(r, moves).Some?
    ensures var s := Run(r, moves).value;
            && (!s.main.Finished? ==>
                  (MainCanMove(s) <==> && (s.main.Selecting? ==> s.expired || SignalledEnd(s.handler))
                                       && (s.main.LateChosen? ==> !s.mutex.ByHandler?)))
            && (!s.handler.Ended? ==> (HandlerCanMove(s) <==> (s.handler.Wants? ==> !s.mutex.ByMain?)))
            && (s.mutex.ByHandler? ==> HandlerCanMove(s))
            && (s.mutex.ByMain? ==> MainCanMove(s))
  {
    RunKeepsInv(r, moves);
    var s := Run(r, moves).value;
    if !s.main.Finished? { MainMovesExactly(s); }
    if !s.handler.Ended? { HandlerMovesExactly(s); }
  }

  function MainRank(main: MainPc): nat {
    match main
    case Selecting => 6
    case DoneChosen => 5
    case DoneLocked => 4
    case HeadersCopied => 3
    case StatusSent => 2
    case BodySent => 1
    case LateChosen => 5
    case LateLocked => 4
    case ErrSet => 3
    case ProblemStarted => 2
    case ProblemSent => 1
    case Finished(_) => 0
  }

  predicate ByMainGoroutine(m: Move) {
    m.ReceivePanic? || m.ReceiveDone? || m.ReceiveLate? || m.MainLock? || m.MainStep? || m.MainUnlock?
  }

  function MainMoves(moves: seq<Move>): nat {
    if moves == [] then 0
    else MainMoves(moves[..|moves| - 1]) + if ByMainGoroutine(moves[|moves| - 1]) then 1 else 0
  }

  lemma StepLowersRank(r: Request, s: State, m: Move)
    requires Enabled(s, m)
    ensures MainRank(Step(r, s, m).main) + (if ByMainGoroutine(m) then 1 else 0) <= MainRank(s.main)
  {}

  /** Main answers within six moves of its own, however the others are scheduled. */
  lemma {:induction false} MainIsBounded(r: Request, moves: seq<Move>)
    requires Run(r, moves).Some?
    ensures MainMoves(moves) + MainRank(Run(r, moves).value.main) <= 6
  {
    if moves != [] {
      var last := |moves| - 1;
      MainIsBounded(r, moves[..last]);
      StepLowersRank(r, Run(r, moves[..last]).value, moves[last]);
    }
  }
}

/**
 The process-wide SIMD override: a one-shot cell that any number of threads try to
 set with one compare-exchange each, and that dispatchers read.

 A run is any interleaving of atomic steps. `log` records, in order, what the
 threads did to the cell and what they were told.
 */
module SimdOverride {
  import opened Prelude

  datatype Level = Auto | Avx512 | Avx2 | Sse4 | Neon | NoSimd

  const UNINIT: Byte := 0xFF

  function LevelToByte(level: Level): (b: Byte)
    ensures b != UNINIT
  {
    match level
    case Auto => 0
    case Avx512 => 1
    case Avx2 => 2
    case Sse4 => 3
    case Neon => 4
    case NoSimd => 5
  }

  function ByteToLevel(b: Byte): Option<Level> {
    if b == 0 then Some(Auto)
    else if b == 1 then Some(Avx512)
    else if b == 2 then Some(Avx2)
    else if b == 3 then Some(Sse4)
    else if b == 4 then Some(Neon)
    else if b == 5 then Some(NoSimd)
    else None
  }

  lemma LevelRoundTrip(level: Level)
    ensures ByteToLevel(LevelToByte(level)) == Some(level)
  {
  }

  function LevelOrAuto(b: Byte): Level {
    if ByteToLevel(b).Some? then ByteToLevel(b).value else Auto
  }

  datatype Event =
    | Installed(level: Level)                                     // a compare-exchange that wrote the cell
    | Returned(asked: Level, answer: Result<(), Level>)           // a set_simd_override call came back
    | Observed(level: Level)                                      // a simd_override call came back

  /** Where a thread stands inside `set_simd_override`. */
  datatype Pc = Idle | Asking(level: Level) | Won(level: Level) | Lost(level: Level, existing: Byte)

  datatype State = State(cell: Byte, threads: map<nat, Pc>, log: seq<Event>)

  datatype Action = Ask(level: Level) | Exchange | Return | Load

  const START := State(UNINIT, map[], [])

  function At(s: State, thread: nat): Pc {
    if thread in s.threads then s.threads[thread] else Idle
  }

  /** One atomic step of one thread; a step the thread cannot take changes nothing. */
  function Step(s: State, thread: nat, action: Action): State {
    match (action, At(s, thread))
    case (Ask(level), Idle) => s.(threads := s.threads[thread := Asking(level)])
    case (Exchange, Asking(level)) =>
      if s.cell == UNINIT then
        State(LevelToByte(level), s.threads[thread := Won(level)], s.log + [Installed(level)])
      else s.(threads := s.threads[thread := Lost(level, s.cell)])
    case (Return, Won(level)) =>
      s.(threads := s.threads[thread := Idle], log := s.log + [Returned(level, Ok(()))])
    case (Return, Lost(level, existing)) =>
      var found := LevelOrAuto(existing);
      var answer := if found == level then Ok(()) else Err(found);
      s.(threads := s.threads[thread := Idle], log := s.log + [Returned(level, answer)])
    case (Load, Idle) =>
      s.(log := s.log + [Observed(if s.cell == UNINIT then Auto else LevelOrAuto(s.cell))])
    case _ => s
  }

  function Run(schedule: seq<(nat, Action)>): State {
    if schedule == [] then START
    else
      var (thread, action) := schedule[|schedule| - 1];
      Step(Run(schedule[..|schedule| - 1]), thread, action)
  }

  function Writes(log: seq<Event>): seq<Level> {
    if log == [] then []
    else
      var before, last := Writes(log[..|log| - 1]), log[|log| - 1];
      if last.Installed? then before + [last.level] else before
  }

  /** The level in force after these events. */
  function InForce(log: seq<Event>): Level {
    if Writes(log) == [] then Auto else Writes(log)[0]
  }

  /** An event is right, given the events before it. */
  ghost predicate EventOk(before: seq<Event>, e: Event) {
    match e
    case Installed(_) => Writes(before) == []
    case Returned(asked, answer) =>
      && Writes(before) != []
      && answer == if asked == InForce(before) then Ok(()) else Err(InForce(before))
    case Observed(level) => level == InForce(before)
  }

  ghost predicate LogOk(log: seq<Event>) {
    log == [] || (LogOk(log[..|log| - 1]) && EventOk(log[..|log| - 1], log[|log| - 1]))
  }

  ghost predicate ThreadOk(s: State, pc: Pc) {
    match pc
    case Idle => true
    case Asking(_) => true
    case Won(level) => s.cell == LevelToByte(level)
    case Lost(_, existing) => existing == s.cell != UNINIT
  }

  ghost predicate Inv(s: State) {
    && LogOk(s.log)
    && Writes(s.log) == (if s.cell == UNINIT then [] else [LevelOrAuto(s.cell)])
    && (forall t :: t in s.threads ==> ThreadOk(s, s.threads[t]))
  }

  lemma LogSnoc(log: seq<Event>, e: Event)
    ensures Writes(log + [e]) == if e.Installed? then Writes(log) + [e.level] else Writes(log)
    ensures LogOk(log + [e]) <==> LogOk(log) && EventOk(log, e)
  {
    assert (log + [e])[..|log|] == log;
  }

  lemma StepKeepsInv(s: State, thread: nat, action: Action)
    requires Inv(s)
    ensures Inv(Step(s, thread, action))
  {
    match action
    case Ask(level) => AskKeepsInv(s, thread, level);
    case Exchange => ExchangeKeepsInv(s, thread);
    case Return => ReturnKeepsInv(s, thread);
    case Load => LoadKeepsInv(s, thread);
  }

  lemma AskKeepsInv(s: State, thread: nat, level: Level)
    requires Inv(s)
    ensures Inv(Step(s, thread, Ask(level)))
  {
  }

  lemma ExchangeKeepsInv(s: State, thread: nat)
    requires Inv(s)
    ensures Inv(Step(s, thread, Exchange))
  {
    var pc := At(s, thread);
    if pc.Asking? && s.cell == UNINIT {
      LevelRoundTrip(pc.level);
      LogSnoc(s.log, Installed(pc.level));
    }
  }

  lemma ReturnKeepsInv(s: State, thread: nat)
    requires Inv(s)
    ensures Inv(Step(s, thread, Return))
  {
    var s' := Step(s, thread, Return);
    var pc := At(s, thread);
    if pc.Won? { LevelRoundTrip(pc.level); }
    if pc.Won? || pc.Lost? {
      var e := s'.log[|s.log|];
      assert s'.log == s.log + [e];
      LogSnoc(s.log, e);
    }
  }

  lemma LoadKeepsInv(s: State, thread: nat)
    requires Inv(s)
    ensures Inv(Step(s, thread, Load))
  {
    LogSnoc(s.log, Observed(LevelOrAuto(s.cell)));
  }

  lemma {:induction false} RunKeepsInv(schedule: seq<(nat, Action)>)
    ensures Inv(Run(schedule))
  {
    if schedule != [] {
      var (thread, action) := schedule[|schedule| - 1];
      RunKeepsInv(schedule[..|schedule| - 1]);
      StepKeepsInv(Run(schedule[..|schedule| - 1]), thread, action);
    }
  }

  lemma {:induction false} LogOkAt(log: seq<Event>, i: nat)
    requires LogOk(log) && i < |log|
    ensures EventOk(log[..i], log[i])
  {
    var front := log[..|log| - 1];
    if i < |front| {
      LogOkAt(front, i);
      assert front[..i] == log[..i];
    }
  }

  lemma {:induction false} WritesPrefix(log: seq<Event>, i: nat)
    requires i <= |log|
    ensures Writes(log[..i]) <= Writes(log)
  {
    if i == |log| {
      assert log[..i] == log;
    } else {
      WritesPrefix(log[..|log| - 1], i);
      assert log[..|log| - 1][..i] == log[..i];
    }
  }

  /**
   Over every interleaving: the cell is written at most once; every successful call
   asked for the installed level; every refusal names it and differs from the request.
   */
  lemma OneShot(schedule: seq<(nat, Action)>)
    ensures
      var log := Run(schedule).log;
      && |Writes(log)| <= 1
      && forall e :: e in log && e.Returned? ==>
        && |Writes(log)| == 1
        && e.answer == if e.asked == Writes(log)[0] then Ok(()) else Err(Writes(log)[0])
  {
    var s := Run(schedule);
    RunKeepsInv(schedule);
    forall e | e in s.log && e.Returned?
      ensures |Writes(s.log)| == 1 && e.answer == if e.asked == Writes(s.log)[0] then Ok(()) else Err(Writes(s.log)[0])
    {
      var i :| 0 <= i < |s.log| && s.log[i] == e;
      LogOkAt(s.log, i);
      WritesPrefix(s.log, i);
    }
  }

  /** Reads agree: `Auto` until the cell is written, and the installed level from then on. */
  lemma ReadsAgree(schedule: seq<(nat, Action)>, i: nat)
    requires i < |Run(schedule).log| && Run(schedule).log[i].Observed?
    ensures
      var log := Run(schedule).log;
      log[i].level == if Writes(log[..i]) == [] then Auto else InForce(log)
  {
    RunKeepsInv(schedule);
    LogOkAt(Run(schedule).log, i);
    WritesPrefix(Run(schedule).log, i);
  }

  // ------------------------------------------------------------ the log, from the schedule alone

  /** Where a thread's own steps have brought it. */
  datatype Phase = Outside | Asked(level: Level) | Exchanged(level: Level)

  function PhaseOf(schedule: seq<(nat, Action)>, thread: nat): Phase {
    if schedule == [] then Outside
    else
      var before, (t, action) := PhaseOf(schedule[..|schedule| - 1], thread), schedule[|schedule| - 1];
      if t != thread then before
      else match (action, before)
        case (Ask(level), Outside) => Asked(level)
        case (Exchange, Asked(level)) => Exchanged(level)
        case (Return, Exchanged(_)) => Outside
        case _ => before
  }

  /** The level asked for by the first thread to exchange. */
  function FirstExchanged(schedule: seq<(nat, Action)>): Option<Level> {
    if schedule == [] then None
    else
      var front, (t, action) := schedule[..|schedule| - 1], schedule[|schedule| - 1];
      var before := FirstExchanged(front);
      if before.None? && action.Exchange? && PhaseOf(front, t).Asked? then Some(PhaseOf(front, t).level) else before
  }

  /** What one more step adds to the log. */
  function Added(front: seq<(nat, Action)>, thread: nat, action: Action): seq<Event> {
    var first := FirstExchanged(front);
    match (action, PhaseOf(front, thread))
    case (Exchange, Asked(level)) => if first.None? then [Installed(level)] else []
    case (Return, Exchanged(level)) =>
      [Returned(level, if first == Some(level) then Ok(()) else Err(if first.Some? then first.value else Auto))]
    case (Load, Outside) => [Observed(if first.Some? then first.value else Auto)]
    case _ => []
  }

  function History(schedule: seq<(nat, Action)>): seq<Event> {
    if schedule == [] then []
    else
      var front, (thread, action) := schedule[..|schedule| - 1], schedule[|schedule| - 1];
      History(front) + Added(front, thread, action)
  }

  ghost predicate SamePhase(pc: Pc, phase: Phase) {
    match pc
    case Idle => phase == Outside
    case Asking(level) => phase == Asked(level)
    case Won(level) => phase == Exchanged(level)
    case Lost(level, _) => phase == Exchanged(level)
  }

  ghost predicate Explained(s: State, schedule: seq<(nat, Action)>) {
    && s.log == History(schedule)
    && (s.cell == UNINIT <==> FirstExchanged(schedule).None?)
    && (s.cell != UNINIT ==> FirstExchanged(schedule) == Some(LevelOrAuto(s.cell)))
    && (forall t: nat :: SamePhase(At(s, t), PhaseOf(schedule, t)))
  }

  lemma AtUpdate(s: State, s': State, thread: nat, pc: Pc, t: nat)
    requires s'.threads == s.threads[thread := pc]
    ensures At(s', t) == if t == thread then pc else At(s, t)
  {
  }

  lemma PhaseStep(front: seq<(nat, Action)>, thread: nat, action: Action, t: nat)
    ensures t != thread ==> PhaseOf(front + [(thread, action)], t) == PhaseOf(front, t)
    ensures
      var before, after := PhaseOf(front, thread), PhaseOf(front + [(thread, action)], thread);
      after == match (action, before)
        case (Ask(level), Outside) => Asked(level)
        case (Exchange, Asked(level)) => Exchanged(level)
        case (Return, Exchanged(_)) => Outside
        case _ => before
  {
    assert (front + [(thread, action)])[..|front|] == front;
  }

  lemma ThreadsExplained(s: State, front: seq<(nat, Action)>, thread: nat, action: Action)
    requires forall t: nat :: SamePhase(At(s, t), PhaseOf(front, t))
    ensures forall t: nat :: SamePhase(At(Step(s, thread, action), t), PhaseOf(front + [(thread, action)], t))
  {
    forall t: nat ensures SamePhase(At(Step(s, thread, action), t), PhaseOf(front + [(thread, action)], t)) {
      assert SamePhase(At(s, t), PhaseOf(front, t)) && SamePhase(At(s, thread), PhaseOf(front, thread));
      PhaseStep(front, thread, action, t);
    }
  }

  lemma LogExplained(s: State, front: seq<(nat, Action)>, thread: nat, action: Action)
    requires Inv(s) && Explained(s, front)
    ensures
      var s', schedule := Step(s, thread, action), front + [(thread, action)];
      && s'.log == History(schedule)
      && (s'.cell == UNINIT <==> FirstExchanged(schedule).None?)
      && (s'.cell != UNINIT ==> FirstExchanged(schedule) == Some(LevelOrAuto(s'.cell)))
  {
    var schedule := front + [(thread, action)];
    assert schedule[..|front|] == front;
    var pc := At(s, thread);
    assert SamePhase(pc, PhaseOf(front, thread));
    if pc.Asking? { LevelRoundTrip(pc.level); }
    if pc.Won? { LevelRoundTrip(pc.level); }
    assert thread in s.threads ==> ThreadOk(s, s.threads[thread]);
  }

  /**
   For every schedule the log is determined by the threads' own steps: the first to
   exchange installs the level it asked for, every call answers its own request
   against that level, and every read reports it.
   */
  lemma {:induction false} LogIsHistory(schedule: seq<(nat, Action)>)
    ensures Explained(Run(schedule), schedule)
  {
    if schedule != [] {
      var front := schedule[..|schedule| - 1];
      var (thread, action) := schedule[|schedule| - 1];
      LogIsHistory(front);
      RunKeepsInv(front);
      LogExplained(Run(front), front, thread, action);
      ThreadsExplained(Run(front), front, thread, action);
      assert front + [(thread, action)] == schedule;
    }
  }
}

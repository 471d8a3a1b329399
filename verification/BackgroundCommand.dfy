/** A background process whose output one reader thread collects, and whose
    invocation record is made by whichever caller waits for its end: every
    interleaving of the process, the reader and any number of callers. */
module BackgroundCommand {
  import opened Options

  type Line = string

  /** Where one caller's wait() stands. The two halves of _record's test and set
      are separate steps, because no lock is held around them. */
  datatype Phase = Idle | Joining | Checking | Claiming | Recording

  /** An invocation record, and the caller that made it. */
  datatype Record = Record(caller: nat, exitCode: int, output: seq<Line>)

  /** written is all the process has printed; pipe is what the reader has yet to
      take. The pipe may outlive the process, in the hands of its children. */
  datatype State = State(
    written: seq<Line>, pipe: seq<Line>, writable: bool, exit: Option<int>,
    lines: seq<Line>, readerDone: bool,
    recorded: bool, phases: seq<Phase>, records: seq<Record>)

  datatype Event =
    | Write(line: Line)
    | Close
    | Exit(code: int)
    | Read
    | Finish
    | Wait(caller: nat)
    | Join(caller: nat)
    | Check(caller: nat)
    | Claim(caller: nat)
    | Keep(caller: nat)

  predicate At(s: State, caller: nat, phase: Phase) {
    caller < |s.phases| && s.phases[caller] == phase
  }

  /** Whether an event can happen. A wait that times out leaves no trace. */
  predicate Enabled(s: State, e: Event) {
    match e
    case Write(_) => s.writable
    case Close => s.writable
    case Exit(_) => s.exit.None?
    case Read => s.pipe != []
    case Finish => s.pipe == [] && !s.writable && !s.readerDone
    case Wait(c) => At(s, c, Idle) && s.exit.Some?
    case Join(c) => At(s, c, Joining) && s.readerDone
    case Check(c) => At(s, c, Checking)
    case Claim(c) => At(s, c, Claiming)
    case Keep(c) => At(s, c, Recording) && s.exit.Some?
  }

  function Moved(s: State, caller: nat, phase: Phase): State
    requires caller < |s.phases|
  {
    s.(phases := s.phases[caller := phase])
  }

  function Step(s: State, e: Event): State
    requires Enabled(s, e)
  {
    match e
    case Write(line) => s.(written := s.written + [line], pipe := s.pipe + [line])
    case Close => s.(writable := false)
    case Exit(code) => s.(exit := Some(code))
    case Read => s.(lines := s.lines + [s.pipe[0]], pipe := s.pipe[1..])
    case Finish => s.(readerDone := true)
    case Wait(c) => Moved(s, c, Joining)
    case Join(c) => Moved(s, c, Checking)
    case Check(c) => Moved(s, c, if s.recorded then Idle else Claiming)
    case Claim(c) => Moved(s, c, Recording).(recorded := true)
    case Keep(c) => Moved(s, c, Idle).(records := s.records + [Record(c, s.exit.value, s.lines)])
  }

  function Started(callers: nat): State {
    State([], [], true, None, [], false, false, seq(callers, _ => Idle), [])
  }

  predicate CanRun(s: State, events: seq<Event>)
    decreases |events|
  {
    events != [] ==> Enabled(s, events[0]) && CanRun(Step(s, events[0]), events[1..])
  }

  function Run(s: State, events: seq<Event>): State
    requires CanRun(s, events)
    decreases |events|
  {
    if events == [] then s else Run(Step(s, events[0]), events[1..])
  }

  // ------------------------------------------------------------- invariants

  ghost predicate Conserved(s: State) {
    && s.written == s.lines + s.pipe
    && (s.readerDone ==> s.pipe == [] && !s.writable)
  }

  ghost predicate Waits(s: State) {
    forall c | 0 <= c < |s.phases| && s.phases[c] != Idle ::
      s.exit.Some? && (s.phases[c] == Joining || s.readerDone)
  }

  /** A record is complete: made after the end of process and reader, it holds
      all that was and ever will be written. */
  ghost predicate Complete(s: State, r: Record) {
    s.readerDone && s.exit == Some(r.exitCode) && r.output == s.written
  }

  ghost predicate Recorded(s: State) {
    && (forall r | r in s.records :: Complete(s, r) && r.caller < |s.phases|)
    && (!s.recorded ==> s.records == [] && forall c | 0 <= c < |s.phases| :: s.phases[c] != Recording)
    && (s.recorded ==> s.records != [] || exists c :: 0 <= c < |s.phases| && s.phases[c] == Recording)
  }

  /** No caller makes two records. */
  ghost predicate OneEach(s: State) {
    && (forall i, j | 0 <= i < j < |s.records| :: s.records[i].caller != s.records[j].caller)
    && (forall r | r in s.records && r.caller < |s.phases| :: s.phases[r.caller] !in {Claiming, Recording})
  }

  ghost predicate Inv(s: State) {
    Conserved(s) && Waits(s) && Recorded(s) && OneEach(s)
  }

  lemma StepKeepsRecorded(s: State, e: Event)
    requires Inv(s) && Enabled(s, e)
    ensures Recorded(Step(s, e))
  {
    var t := Step(s, e);
    match e
    case Keep(c) => assert t.records[|s.records|] in t.records;
    case Claim(c) => assert t.phases[c] == Recording;
    case Wait(c) => Elsewhere(s, c, Joining);
    case Join(c) => Elsewhere(s, c, Checking);
    case Check(c) => Elsewhere(s, c, if s.recorded then Idle else Claiming);
    case _ =>
  }

  /** A caller that was not recording leaves those that are where they were. */
  lemma Elsewhere(s: State, caller: nat, phase: Phase)
    requires caller < |s.phases| && s.phases[caller] != Recording
    ensures (exists c :: 0 <= c < |s.phases| && s.phases[c] == Recording) ==>
              exists c :: 0 <= c < |s.phases| && Moved(s, caller, phase).phases[c] == Recording
  {
    if c :| 0 <= c < |s.phases| && s.phases[c] == Recording {
      assert Moved(s, caller, phase).phases[c] == Recording;
    }
  }

  lemma StepKeepsOneEach(s: State, e: Event)
    requires Inv(s) && Enabled(s, e)
    ensures OneEach(Step(s, e))
  {
    hide Conserved, Waits, Complete;
  }

  lemma StepKeepsInv(s: State, e: Event)
    requires Inv(s) && Enabled(s, e)
    ensures Inv(Step(s, e))
    ensures s.written <= Step(s, e).written && s.lines <= Step(s, e).lines && s.records <= Step(s, e).records
    ensures |Step(s, e).phases| == |s.phases|
  {
    StepKeepsRecorded(s, e);
    StepKeepsOneEach(s, e);
    hide Recorded, OneEach;
  }

  // -------------------------------------------------------------- whole runs

  lemma {:induction false} RunKeepsInv(s: State, events: seq<Event>)
    requires Inv(s) && CanRun(s, events)
    ensures Inv(Run(s, events))
    ensures s.written <= Run(s, events).written && s.lines <= Run(s, events).lines
    ensures s.records <= Run(s, events).records
    ensures |Run(s, events).phases| == |s.phases|
    decreases |events|
  {
    if events != [] {
      StepKeepsInv(s, events[0]);
      RunKeepsInv(Step(s, events[0]), events[1..]);
      hide Inv, Step, Enabled;
      assert Run(s, events) == Run(Step(s, events[0]), events[1..]);
    }
  }

  /** Distinct callers among n of them. */
  lemma {:induction false} Pigeonhole(callers: seq<nat>, n: nat)
    requires forall i | 0 <= i < |callers| :: callers[i] < n
    requires forall i, j | 0 <= i < j < |callers| :: callers[i] != callers[j]
    ensures |callers| <= n
    decreases n
  {
    if callers != [] {
      var first := callers[0];
      assert first < n;
      if k :| 0 <= k < |callers| && callers[k] == n - 1 {
        Pigeonhole(callers[..k] + callers[k + 1..], n - 1);
      } else {
        Pigeonhole(callers, n - 1);
      }
    }
  }

  /** Over every interleaving: a record is made only once process and reader have
      ended, it holds every line written, in order, and no caller makes two. Once
      recorded is set and nobody is still recording, there is a record. */
  lemma RecordsComplete(callers: nat, events: seq<Event>)
    requires CanRun(Started(callers), events)
    ensures var s := Run(Started(callers), events);
            && s.written == s.lines + s.pipe
            && (forall r | r in s.records :: Complete(s, r))
            && |s.records| <= callers
            && (s.recorded && (forall c | 0 <= c < |s.phases| :: s.phases[c] != Recording) ==> s.records != [])
  {
    RunKeepsInv(Started(callers), events);
    var s := Run(Started(callers), events);
    Pigeonhole(seq(|s.records|, i requires 0 <= i < |s.records| => s.records[i].caller), callers);
  }

  /** What the process printed in a run, in order. */
  function Printed(events: seq<Event>): seq<Line> {
    if events == [] then []
    else Printed(events[..|events| - 1])
         + match events[|events| - 1]
           case Write(line) => [line]
           case _ => []
  }

  lemma {:induction false} RunSnoc(s: State, events: seq<Event>, e: Event)
    requires CanRun(s, events + [e])
    ensures CanRun(s, events) && Enabled(Run(s, events), e)
    ensures Run(s, events + [e]) == Step(Run(s, events), e)
    decreases |events|
  {
    if events == [] {
      assert [] + [e] == [e];
      RunOneBack(s, e);
    } else {
      assert (events + [e])[1..] == events[1..] + [e];
      RunSnoc(Step(s, events[0]), events[1..], e);
    }
  }

  lemma RunOneBack(s: State, e: Event)
    requires CanRun(s, [e])
    ensures Enabled(s, e) && Run(s, [e]) == Step(s, e)
  {
    assert Run(Step(s, e), [e][1..]) == Step(s, e);
  }

  /** A record holds what the process printed and the code it exited with: the run has
      one exit, and it is that one. */
  lemma {:induction false} RecordsTell(callers: nat, events: seq<Event>)
    requires CanRun(Started(callers), events)
    ensures Run(Started(callers), events).written == Printed(events)
    ensures match Run(Started(callers), events).exit
            case None => forall e | e in events :: !e.Exit?
            case Some(code) => Exit(code) in events && forall e | e in events && e.Exit? :: e == Exit(code)
    ensures forall r | r in Run(Started(callers), events).records :: r.output == Printed(events) && Exit(r.exitCode) in events
    decreases |events|
  {
    RecordsComplete(callers, events);
    if events != [] {
      var front, e := events[..|events| - 1], events[|events| - 1];
      assert events == front + [e];
      RunSnoc(Started(callers), front, e);
      RecordsTell(callers, front);
      hide Run, CanRun, Started;
    }
  }

  // ---------------------------------------------------- how many are recorded

  lemma {:induction false} RunConcat(s: State, first: seq<Event>, second: seq<Event>)
    requires CanRun(s, first) && CanRun(Run(s, first), second)
    ensures CanRun(s, first + second) && Run(s, first + second) == Run(Run(s, first), second)
    decreases |first|
  {
    if first == [] {
      assert first + second == second;
    } else {
      assert (first + second)[1..] == first[1..] + second;
      RunConcat(Step(s, first[0]), first[1..], second);
    }
  }

  lemma RunTwo(s: State, e: Event, f: Event)
    requires Enabled(s, e) && Enabled(Step(s, e), f)
    ensures CanRun(s, [e, f]) && Run(s, [e, f]) == Step(Step(s, e), f)
  {
    RunOne(s, e);
    RunOne(Step(s, e), f);
    RunConcat(s, [e], [f]);
    assert [e] + [f] == [e, f];
  }

  /** Two callers pass the check before either has claimed. */
  const RACE := [Close, Exit(0)] + [Finish] + [Wait(0), Wait(1)] + [Join(0), Join(1)] + [Check(0), Check(1)]
                + [Claim(0), Claim(1)] + [Keep(0), Keep(1)]

  /** Process and reader have ended; callers 0 and 1 stand at one phase. */
  ghost predicate Stage(s: State, phase: Phase, recorded: bool) {
    && |s.phases| >= 2 && s.phases[0] == s.phases[1] == phase
    && s.exit.Some? && s.pipe == [] && !s.writable && s.readerDone && s.recorded == recorded && s.records == []
  }

  lemma BothStep(s: State, phase: Phase, e: Event, f: Event)
    requires match phase
             case Idle => Stage(s, Idle, false) && e == Wait(0) && f == Wait(1)
             case Joining => Stage(s, Joining, false) && e == Join(0) && f == Join(1)
             case Checking => Stage(s, Checking, false) && e == Check(0) && f == Check(1)
             case Claiming => Stage(s, Claiming, false) && e == Claim(0) && f == Claim(1)
             case Recording => Stage(s, Recording, true) && e == Keep(0) && f == Keep(1)
    ensures CanRun(s, [e, f])
    ensures match phase
            case Idle => Stage(Run(s, [e, f]), Joining, false)
            case Joining => Stage(Run(s, [e, f]), Checking, false)
            case Checking => Stage(Run(s, [e, f]), Claiming, false)
            case Claiming => Stage(Run(s, [e, f]), Recording, true)
            case Recording => |Run(s, [e, f]).records| == 2
  {
    RunTwo(s, e, f);
  }

  lemma RaceRecordsTwice(callers: nat)
    requires callers >= 2
    ensures CanRun(Started(callers), RACE) && |Run(Started(callers), RACE).records| == 2
  {
    var s := Started(callers);
    RunTwo(s, Close, Exit(0));
    RunOne(Run(s, [Close, Exit(0)]), Finish);
    RunConcat(s, [Close, Exit(0)], [Finish]);
    var run := [Close, Exit(0)] + [Finish];
    assert Stage(Run(s, run), Idle, false);
    hide *;
    BothStep(Run(s, run), Idle, Wait(0), Wait(1));
    RunConcat(s, run, [Wait(0), Wait(1)]);
    run := run + [Wait(0), Wait(1)];
    BothStep(Run(s, run), Joining, Join(0), Join(1));
    RunConcat(s, run, [Join(0), Join(1)]);
    run := run + [Join(0), Join(1)];
    BothStep(Run(s, run), Checking, Check(0), Check(1));
    RunConcat(s, run, [Check(0), Check(1)]);
    run := run + [Check(0), Check(1)];
    BothStep(Run(s, run), Claiming, Claim(0), Claim(1));
    RunConcat(s, run, [Claim(0), Claim(1)]);
    run := run + [Claim(0), Claim(1)];
    BothStep(Run(s, run), Recording, Keep(0), Keep(1));
    RunConcat(s, run, [Keep(0), Keep(1)]);
  }

  lemma RunOne(s: State, e: Event)
    requires Enabled(s, e)
    ensures CanRun(s, [e]) && Run(s, [e]) == Step(s, e)
  {
  }

  /** At most one record is made whatever happens exactly when at most one caller waits. */
  lemma OneRecordExactly(callers: nat)
    ensures callers <= 1
       <==> forall events | CanRun(Started(callers), events) :: |Run(Started(callers), events).records| <= 1
  {
    if callers <= 1 {
      forall events | CanRun(Started(callers), events) ensures |Run(Started(callers), events).records| <= 1 {
        RecordsComplete(callers, events);
      }
    } else {
      RaceRecordsTwice(callers);
    }
  }

  function InFlight(phases: seq<Phase>): nat {
    if phases == [] then 0 else
    InFlight(phases[1..]) + (if phases[0] in {Claiming, Recording} then 1 else 0)
  }

  /** Records made and records some caller has set out to make. */
  function Due(s: State): nat {
    |s.records| + InFlight(s.phases)
  }

  predicate Passes(s: State, e: Event) {
    e.Check? && !s.recorded
  }

  /** A caller passes the check while another has passed it and not yet claimed. */
  predicate Overlaps(s: State, e: Event) {
    Passes(s, e) && Claiming in s.phases
  }

  predicate EverOverlaps(s: State, events: seq<Event>)
    requires CanRun(s, events)
    decreases |events|
  {
    events != [] && (Overlaps(s, events[0]) || EverOverlaps(Step(s, events[0]), events[1..]))
  }

  lemma {:induction false} InFlightMoved(phases: seq<Phase>, c: nat, phase: Phase)
    requires c < |phases|
    ensures InFlight(phases[c := phase]) - (if phase in {Claiming, Recording} then 1 else 0)
         == InFlight(phases) - (if phases[c] in {Claiming, Recording} then 1 else 0)
    decreases phases
  {
    if c > 0 {
      assert phases[c := phase][1..] == phases[1..][c - 1 := phase];
      InFlightMoved(phases[1..], c - 1, phase);
    }
  }

  lemma {:induction false} InFlightNone(phases: seq<Phase>)
    ensures InFlight(phases) == 0 <==> Claiming !in phases && Recording !in phases
  {
    if phases != [] {
      InFlightNone(phases[1..]);
    }
  }

  lemma StepDue(s: State, e: Event)
    requires Inv(s) && Enabled(s, e)
    ensures Due(Step(s, e)) == Due(s) + if Passes(s, e) then 1 else 0
    ensures Overlaps(s, e) ==> Due(Step(s, e)) >= 2
    ensures Passes(s, e) && !Overlaps(s, e) ==> Due(Step(s, e)) == 1
  {
    InFlightNone(s.phases);
    match e
    case Wait(c) => InFlightMoved(s.phases, c, Joining);
    case Join(c) => InFlightMoved(s.phases, c, Checking);
    case Check(c) => InFlightMoved(s.phases, c, if s.recorded then Idle else Claiming);
    case Claim(c) => InFlightMoved(s.phases, c, Recording);
    case Keep(c) => InFlightMoved(s.phases, c, Idle);
    case _ =>
  }

  /** More than one record is made, or bound to be made, exactly when two callers
      once stood between test and set together. */
  lemma {:induction false} DuplicatedExactly(s: State, events: seq<Event>)
    requires Inv(s) && CanRun(s, events)
    ensures Due(Run(s, events)) >= 2 <==> Due(s) >= 2 || EverOverlaps(s, events)
    decreases |events|
  {
    if events != [] {
      StepKeepsInv(s, events[0]);
      StepDue(s, events[0]);
      DuplicatedExactly(Step(s, events[0]), events[1..]);
    }
  }

  // ---------------------------------------------------------------- progress

  /** What the reader or the caller does next once nothing more can be written. */
  function Next(s: State, caller: nat): Event
    requires caller < |s.phases|
  {
    if s.pipe != [] then Read
    else if !s.readerDone then Finish
    else match s.phases[caller]
         case Idle => Wait(caller)
         case Joining => Join(caller)
         case Checking => Check(caller)
         case Claiming => Claim(caller)
         case Recording => Keep(caller)
  }

  function Remaining(s: State, caller: nat): nat
    requires caller < |s.phases|
  {
    |s.pipe| + (if s.readerDone then 0 else 1)
    + match s.phases[caller]
      case Idle => 5
      case Joining => 4
      case Checking => 3
      case Claiming => 2
      case Recording => 1
  }

  /** A wait never deadlocks: from any reachable state in which the process has
      exited and its output is closed, reader and caller alone can complete it. The
      record is claimed by then; another caller may still be about to make it. */
  lemma {:induction false} WaitCompletes(s: State, caller: nat) returns (events: seq<Event>)
    requires Inv(s) && caller < |s.phases| && s.exit.Some? && !s.writable
    ensures CanRun(s, events)
    ensures At(Run(s, events), caller, Idle) && Run(s, events).recorded
    decreases Remaining(s, caller)
  {
    var e := Next(s, caller);
    var t := Step(s, e);
    StepKeepsInv(s, e);
    if t.phases[caller] == Idle && s.phases[caller] != Idle {
      events := [e];
    } else {
      var rest := WaitCompletes(t, caller);
      events := [e] + rest;
    }
  }
}

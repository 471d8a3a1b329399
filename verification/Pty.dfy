/** The terminal protocol of run_pty_command: a child process and the harness
    that drives it, interleaved one atomic action at a time over the two byte
    queues of a pseudo terminal.

    A run is a sequence of events. Step says which events are possible in a
    state and what they do; everything a scheduler, the child or a callback may
    choose is a parameter of the event, so a statement about all event
    sequences is a statement about all interleavings. */
module Pty {
  import opened Options

  type Byte = b: int | 0 <= b < 256

  /** What _linux_terminal_reader reports: process, task and system call text. */
  datatype Reader = Reader(pid: nat, task: nat, syscall: string)

  /** solo: the child has one task, so it cannot write or exit while that task
      is blocked in a read. readiness: on_read_ready was given. */
  datatype Config = Config(solo: bool, readiness: bool)

  /** A drain happens before the reader is observed or inside the window between
      the two observations of reader r. */
  datatype Phase = Outside | Window(reader: Reader)

  datatype Pc =
    | Top                                  // loop condition
    | Selecting                            // select on the master
    | Draining(phase: Phase, changed: bool)
    | Notifying(phase: Phase)              // on_output is being called
    | Observing                            // first look at the blocked reader
    | Confirming(reader: Reader)           // second look
    | CheckingInput(reader: Reader)        // TIOCINQ
    | ReadReady(reader: Reader)            // on_read_ready is being called
    | ChunkReading | ChunkNotifying        // without readiness: one blocking read
    | HungUp                               // the read failed: every slave is closed
    | Expired                              // the loop was left at its deadline
    | Killing
    | Finishing | FinishNotifying          // after the exit: final drain
    | Done(timedOut: bool)

  /** emitted and readMark are history: all terminal output so far, and how much
      of it there was when the read that is now blocked began. */
  datatype State = State(
    alive: bool,
    blocked: Option<Reader>,
    input: seq<Byte>,
    queued: seq<Byte>,
    transcript: seq<Byte>,
    emitted: seq<Byte>,
    readMark: nat,
    pc: Pc)

  datatype Event =
    // the child
    | Emit(out: seq<Byte>)
    | Block(reader: Reader)
    | Consume(count: nat, wakes: bool)
    | Exit
    // the harness
    | Poll(expired: bool)
    | Select(hangup: bool)
    | Chunk(count: nat)
    | Drained
    | Answer(reply: seq<Byte>, echo: seq<Byte>)
    | Observe
    | Confirm
    | CheckInput
    | Kill

  const CHUNK_SIZE := 8192

  const INITIAL := State(true, None, [], [], [], [], 0, Top)

  function Step(c: Config, s: State, e: Event): Option<State> {
    match e
    case Emit(out) =>
      if s.alive && (c.solo ==> s.blocked.None?)
      then Some(s.(queued := s.queued + out, emitted := s.emitted + out)) else None
    case Block(r) =>
      if s.alive && s.blocked.None? then Some(s.(blocked := Some(r), readMark := |s.emitted|)) else None
    case Consume(n, wakes) =>
      if s.alive && 0 < n <= |s.input| && (c.solo ==> wakes)
      then Some(s.(input := s.input[n..], blocked := if wakes then None else s.blocked)) else None
    case Exit =>
      if s.alive && (c.solo ==> s.blocked.None?) then Some(s.(alive := false, blocked := None)) else None
    case Answer(reply, echo) =>
      if (reply == [] ==> echo == []) && AfterAnswer(s.pc).Some?
      then Some(s.(input := s.input + reply, queued := s.queued + echo, emitted := s.emitted + echo,
                   pc := AfterAnswer(s.pc).value))
      else None
    case Chunk(n) =>
      if 0 < n <= CHUNK_SIZE && n <= |s.queued| && AfterChunk(s.pc).Some?
      then Some(s.(transcript := s.transcript + s.queued[..n], queued := s.queued[n..],
                   pc := AfterChunk(s.pc).value))
      else None
    case Kill =>
      if s.pc == Killing then Some(s.(alive := false, blocked := None, pc := Done(true))) else None
    case _ => // the remaining events only move the harness
      var pc := Advance(c, s, e);
      if pc.Some? then Some(s.(pc := pc.value)) else None
  }

  /** Where each callback returns to, whether or not it answered. */
  function AfterAnswer(pc: Pc): Option<Pc> {
    match pc
    case Notifying(Outside) => Some(Observing)
    case Notifying(Window(r)) => Some(Confirming(r))
    case ReadReady(_) => Some(Top)
    case ChunkNotifying => Some(Top)
    case FinishNotifying => Some(Finishing)
    case _ => None
  }

  function AfterChunk(pc: Pc): Option<Pc> {
    match pc
    case Draining(phase, _) => Some(Draining(phase, true))
    case ChunkReading => Some(ChunkNotifying)
    case Finishing => Some(FinishNotifying)
    case _ => None
  }

  /** The harness actions that look at the child or the queues and branch. */
  function Advance(c: Config, s: State, e: Event): Option<Pc> {
    match (s.pc, e)
    case (Top, Poll(expired)) =>
      Some(if !s.alive then Finishing else if expired then Expired else Selecting)
    case (Expired, Poll(_)) => Some(if s.alive then Killing else Finishing)
    case (Selecting, Select(hangup)) =>
      if s.queued != [] then Some(if c.readiness then Draining(Outside, false) else ChunkReading)
      else if c.readiness then Some(Observing)
      else Some(if hangup then HungUp else Top)
    case (HungUp, Poll(expired)) =>
      if !s.alive then Some(Finishing) else if expired then Some(Killing) else None
    case (Draining(phase, changed), Drained) =>
      if s.queued != [] then None
      else if changed then Some(Notifying(phase))
      else Some(match phase case Outside => Observing case Window(r) => Confirming(r))
    case (Observing, Observe) =>
      Some(match s.blocked case None => Top case Some(r) => Draining(Window(r), false))
    case (Confirming(r), Confirm) => Some(if s.blocked == Some(r) then CheckingInput(r) else Top)
    case (CheckingInput(r), CheckInput) => Some(if s.input == [] then ReadReady(r) else Top)
    case (Finishing, Drained) => if s.queued == [] then Some(Done(false)) else None
    case _ => None
  }

  // ----------------------------------------------------------------- runs

  function Last<T>(s: seq<T>): T
    requires s != []
  {
    s[|s| - 1]
  }

  function Front<T>(s: seq<T>): seq<T>
    requires s != []
  {
    s[..|s| - 1]
  }

  /** The state a run reaches, or None when some event was not possible. */
  function After(c: Config, es: seq<Event>): Option<State> {
    if es == [] then Some(INITIAL)
    else
      match After(c, Front(es))
      case None => None
      case Some(s) => Step(c, s, Last(es))
  }

  ghost predicate Run(c: Config, es: seq<Event>) {
    After(c, es).Some?
  }

  /** The number of events before the last observation of a reader. */
  function LastObservation(es: seq<Event>): (k: nat)
    ensures k <= |es|
  {
    if es == [] then 0
    else if Last(es) == Observe then |es| - 1
    else LastObservation(Front(es))
  }

  lemma {:induction false} PrefixOfRun(c: Config, es: seq<Event>, k: nat)
    requires Run(c, es) && k <= |es|
    ensures Run(c, es[..k])
    decreases |es|
  {
    if k == |es| {
      assert es[..k] == es;
    } else {
      assert Front(es)[..k] == es[..k];
      PrefixOfRun(c, Front(es), k);
    }
  }

  ghost function StateAt(c: Config, es: seq<Event>, k: nat): State
    requires Run(c, es) && k <= |es|
  {
    PrefixOfRun(c, es, k);
    After(c, es[..k]).value
  }

  // --------------------------------------------------------- conservation

  /** No byte of output is lost, invented or reordered; the harness reaches its
      final drain only after the child is gone, and leaves it with an empty queue. */
  ghost predicate Conserved(s: State) {
    && s.emitted == s.transcript + s.queued
    && (s.blocked.Some? ==> s.alive && s.readMark <= |s.emitted|)
    && (s.pc.Finishing? || s.pc.FinishNotifying? || s.pc.Done? ==> !s.alive)
    && (s.pc == Done(false) ==> s.queued == [])
  }

  lemma StepConservesOutput(c: Config, s: State, e: Event)
    requires s.emitted == s.transcript + s.queued && Step(c, s, e).Some?
    ensures var t := Step(c, s, e).value; t.emitted == t.transcript + t.queued
  {
    hide Advance, AfterAnswer, AfterChunk;
    match e
    case Emit(out) => assert s.transcript + (s.queued + out) == s.emitted + out;
    case Answer(_, echo) => assert s.transcript + (s.queued + echo) == s.emitted + echo;
    case Chunk(n) => assert s.transcript + s.queued[..n] + s.queued[n..] == s.transcript + s.queued;
    case _ =>
  }

  lemma StepConserves(c: Config, s: State, e: Event)
    requires Conserved(s) && Step(c, s, e).Some?
    ensures Conserved(Step(c, s, e).value)
  {
    StepConservesOutput(c, s, e);
  }

  /** The transcript is at every moment a prefix of what the terminal has shown,
      short of it by exactly the bytes still queued. A run that was not timed out
      returns all of it. */
  lemma {:induction false} OutputConserved(c: Config, es: seq<Event>)
    requires Run(c, es)
    ensures Conserved(After(c, es).value)
    ensures var s := After(c, es).value;
            && s.transcript <= s.emitted
            && (s.transcript == s.emitted <==> s.queued == [])
            && (s.pc == Done(false) ==> s.transcript == s.emitted)
  {
    if es != [] {
      OutputConserved(c, Front(es));
      StepConserves(c, After(c, Front(es)).value, Last(es));
    }
  }

  // ------------------------------------------------- what on_output has seen

  /** on_output is being called. */
  predicate InOnOutput(pc: Pc) {
    pc.Notifying? || pc.ChunkNotifying? || pc.FinishNotifying?
  }

  /** The transcript last shown to on_output in a run. */
  ghost function Shown(c: Config, es: seq<Event>): seq<Byte> {
    if es == [] || After(c, Front(es)).None? then []
    else
      var s := After(c, Front(es)).value;
      if Last(es).Answer? && InOnOutput(s.pc) then s.transcript else Shown(c, Front(es))
  }

  /** Nothing has been read that on_output was not shown, except where it is about to be. */
  ghost predicate UpToDate(c: Config, es: seq<Event>, s: State) {
    && Shown(c, es) <= s.transcript
    && (!InOnOutput(s.pc) && !(s.pc.Draining? && s.pc.changed) ==> Shown(c, es) == s.transcript)
  }

  /** The places at which nothing is being read or shown. */
  predicate Settled(pc: Pc) {
    match pc
    case Top => true
    case Selecting => true
    case Observing => true
    case Confirming(_) => true
    case CheckingInput(_) => true
    case ReadReady(_) => true
    case HungUp => true
    case Expired => true
    case Killing => true
    case Finishing => true
    case Done(_) => true
    case _ => false
  }

  /** Over every run, on_output has been shown the whole transcript whenever the
      harness looks at the child, selects, observes, confirms, calls on_read_ready,
      kills or is done; it is called for every chunk that is read. */
  lemma {:induction false} OutputShown(c: Config, es: seq<Event>)
    requires Run(c, es)
    ensures UpToDate(c, es, After(c, es).value)
    ensures Settled(After(c, es).value.pc) ==> Shown(c, es) == After(c, es).value.transcript
  {
    if es != [] {
      OutputShown(c, Front(es));
      StepUpToDate(c, es);
    }
  }

  lemma StepUpToDate(c: Config, es: seq<Event>)
    requires Run(c, es) && es != [] && Run(c, Front(es)) && UpToDate(c, Front(es), After(c, Front(es)).value)
    ensures UpToDate(c, es, After(c, es).value)
  {
    var s, e := After(c, Front(es)).value, Last(es);
    assert After(c, es) == Step(c, s, e);
    assert Shown(c, es) == if e.Answer? && InOnOutput(s.pc) then s.transcript else Shown(c, Front(es));
    hide After, Shown;
  }

  // ----------------------------------------------------- read readiness

  /** From the last observation of a reader on, no input was waiting for the child. */
  ghost predicate Quiet(c: Config, es: seq<Event>)
    requires Run(c, es)
  {
    forall j :: LastObservation(es) <= j <= |es| ==> StateAt(c, es, j).input == []
  }

  predicate InWindow(pc: Pc) {
    match pc
    case Draining(Window(_), _) => true
    case Notifying(Window(_)) => true
    case Confirming(_) => true
    case CheckingInput(_) => true
    case ReadReady(_) => true
    case _ => false
  }

  /** Inside the window everything up to the blocked read has been drained as soon
      as the drain is over. */
  ghost predicate WindowInvariant(c: Config, s: State, observed: State) {
    InWindow(s.pc) ==>
      && observed.blocked.Some?
      && Subject(s.pc) == observed.blocked.value
      && (s.alive ==> s.blocked == observed.blocked && s.readMark == observed.readMark)
      && (c.solo ==> s.alive && s.emitted == observed.emitted)
      && observed.readMark <= |observed.emitted| <= |s.emitted|
      && (!s.pc.Draining? ==> |s.transcript| >= observed.readMark && (c.solo ==> s.queued == []))
  }

  function Subject(pc: Pc): Reader
    requires InWindow(pc)
  {
    match pc
    case Draining(phase, _) => phase.reader
    case Notifying(phase) => phase.reader
    case Confirming(r) => r
    case CheckingInput(r) => r
    case ReadReady(r) => r
  }

  lemma StepKeepsWindow(c: Config, s: State, e: Event, observed: State)
    requires Conserved(s) && Step(c, s, e).Some?
    requires s.input == [] && Step(c, s, e).value.input == []
    requires if e == Observe then s == observed else WindowInvariant(c, s, observed)
    ensures WindowInvariant(c, Step(c, s, e).value, observed)
  {
    StepConserves(c, s, e);
    if e == Observe {
      assert s.pc == Observing;
    }
  }

  lemma {:induction false} WindowHolds(c: Config, es: seq<Event>)
    requires Run(c, es) && Quiet(c, es)
    ensures WindowInvariant(c, After(c, es).value, StateAt(c, es, LastObservation(es)))
  {
    var k := LastObservation(es);
    assert es[..|es|] == es;
    if es != [] {
      var front := Front(es);
      assert es[..|es| - 1] == front;
      assert After(c, front).value == StateAt(c, es, |es| - 1);
      OutputConserved(c, front);
      if Last(es) != Observe {
        forall j | k <= j <= |front| ensures StateAt(c, front, j).input == [] {
          assert front[..j] == es[..j];
          assert StateAt(c, es, j).input == [];
        }
        WindowHolds(c, front);
        assert front[..k] == es[..k];
      }
      assert StateAt(c, es, |es|).input == [];
      StepKeepsWindow(c, After(c, front).value, Last(es), StateAt(c, es, k));
    }
  }

  /** When on_read_ready is called and no input was waiting since the first
      observation: the same read is still blocked, nothing is waiting to be read,
      and all output that preceded the read is in the transcript. For a child
      with one task the transcript is everything it ever wrote. */
  lemma ReadReadySafety(c: Config, es: seq<Event>)
    requires Run(c, es) && Quiet(c, es) && After(c, es).value.pc.ReadReady?
    ensures var s := After(c, es).value;
            && s.input == []
            && (s.alive ==> s.blocked == Some(s.pc.reader) && s.readMark <= |s.transcript|)
            && s.transcript <= s.emitted
            && (c.solo ==> s.alive && s.transcript == s.emitted)
  {
    WindowHolds(c, es);
    OutputConserved(c, es);
    assert es[..|es|] == es;
    assert StateAt(c, es, |es|).input == [];
  }

  /** Only the callbacks queue input: the hypothesis of ReadReadySafety can be
      read off the observation and the answers given since. */
  lemma {:induction false} QuietExactly(c: Config, es: seq<Event>)
    requires Run(c, es)
    ensures Quiet(c, es) <==>
            && StateAt(c, es, LastObservation(es)).input == []
            && forall j :: LastObservation(es) <= j < |es| && es[j].Answer? ==> es[j].reply == []
  {
    var k := LastObservation(es);
    if StateAt(c, es, k).input == [] && forall j :: k <= j < |es| && es[j].Answer? ==> es[j].reply == [] {
      forall j | k <= j <= |es| ensures StateAt(c, es, j).input == [] {
        InputStaysEmpty(c, es, k, j);
      }
    } else if Quiet(c, es) {
      assert StateAt(c, es, k).input == [];
      var j :| k <= j < |es| && es[j].Answer? && es[j].reply != [];
      NextState(c, es, j);
      assert false;
    }
  }

  lemma NextState(c: Config, es: seq<Event>, j: nat)
    requires Run(c, es) && j < |es|
    ensures Step(c, StateAt(c, es, j), es[j]) == Some(StateAt(c, es, j + 1))
  {
    assert Front(es[..j + 1]) == es[..j];
    PrefixOfRun(c, es, j + 1);
  }

  lemma {:induction false} InputStaysEmpty(c: Config, es: seq<Event>, k: nat, j: nat)
    requires Run(c, es) && k <= j <= |es|
    requires StateAt(c, es, k).input == []
    requires forall i :: k <= i < |es| && es[i].Answer? ==> es[i].reply == []
    ensures StateAt(c, es, j).input == []
    decreases j
  {
    if k < j {
      InputStaysEmpty(c, es, k, j - 1);
      NextState(c, es, j - 1);
    }
  }

  // ------------------------------------------- the hypothesis is needed

  /** One more step of a run whose state is known. */
  lemma Then(c: Config, es: seq<Event>, s: State, e: Event, t: State) returns (more: seq<Event>)
    requires After(c, es) == Some(s) && Step(c, s, e) == Some(t)
    ensures es <= more && After(c, more) == Some(t)
  {
    more := es + [e];
    assert Front(more) == es;
  }

  /** Steps of the harness that only move its program counter. */
  lemma ThenMove(c: Config, es: seq<Event>, s: State, e: Event, pc: Pc) returns (more: seq<Event>)
    requires After(c, es) == Some(s) && Step(c, s, e) == Some(s.(pc := pc))
    ensures es <= more && After(c, more) == Some(s.(pc := pc))
  {
    more := Then(c, es, s, e, s.(pc := pc));
  }

  /** A callback that returns without an answer. */
  lemma ThenSilent(c: Config, es: seq<Event>, s: State, pc: Pc) returns (more: seq<Event>)
    requires After(c, es) == Some(s) && AfterAnswer(s.pc) == Some(pc)
    ensures es <= more && After(c, more) == Some(s.(pc := pc))
  {
    hide After;
    assert s.input + [] == s.input && s.queued + [] == s.queued && s.emitted + [] == s.emitted;
    more := ThenMove(c, es, s, Answer([], []), pc);
  }

  /** With nothing queued either way, the window closes in a callback. */
  lemma Confirmed(c: Config, es: seq<Event>, s: State, r: Reader) returns (more: seq<Event>)
    requires After(c, es) == Some(s)
    requires s.blocked == Some(r) && s.input == [] && s.pc == Confirming(r)
    ensures es <= more && After(c, more) == Some(s.(pc := ReadReady(r)))
  {
    hide After;
    more := ThenMove(c, es, s, Confirm, CheckingInput(r));
    more := ThenMove(c, more, s.(pc := CheckingInput(r)), CheckInput, ReadReady(r));
  }

  /** Without the hypothesis the protocol calls back with a transcript that lacks
      output the child wrote before its read, although both observations agree
      and the input queue is empty. The child is still asleep, with the answer to
      its first prompt queued, when it is observed again; it wakes after the
      drain, prompts a second time and blocks in the same call. The callback
      sees the very text it has already answered, and on_output never answered. */
  lemma StaleCallback(r: Reader, prompt: Byte, again: Byte, enter: Byte)
    returns (first: seq<Event>, second: seq<Event>)
    ensures var c := Config(true, true);
            && first <= second && Run(c, first) && Run(c, second)
            && var f, s := After(c, first).value, After(c, second).value;
               && f.pc == s.pc == ReadReady(r)
               && f.transcript == s.transcript == [prompt]
               && s.blocked == Some(r) && s.input == []
               && s.emitted == [prompt, again] && |s.transcript| < s.readMark
  {
    first := FirstPrompt(r, prompt);
    second := PromptAgain(first, r, prompt, again, enter);
  }

  lemma FirstPrompt(r: Reader, prompt: Byte) returns (es: seq<Event>)
    ensures After(Config(true, true), es)
         == Some(State(true, Some(r), [], [], [prompt], [prompt], 1, ReadReady(r)))
  {
    var c := Config(true, true);
    var s := State(true, None, [], [prompt], [], [prompt], 0, Top);
    assert [] + [prompt] == [prompt];
    es := Then(c, [], INITIAL, Emit([prompt]), s);
    var t := State(true, Some(r), [], [prompt], [], [prompt], 1, Top);
    es := Then(c, es, s, Block(r), t);
    es := ThenMove(c, es, t, Poll(false), Selecting);
    es := ThenMove(c, es, t.(pc := Selecting), Select(false), Draining(Outside, false));
    es := FirstObservation(es, r, prompt);
  }

  lemma FirstObservation(before: seq<Event>, r: Reader, prompt: Byte) returns (es: seq<Event>)
    requires After(Config(true, true), before)
          == Some(State(true, Some(r), [], [prompt], [], [prompt], 1, Draining(Outside, false)))
    ensures After(Config(true, true), es)
         == Some(State(true, Some(r), [], [], [prompt], [prompt], 1, ReadReady(r)))
  {
    hide After;
    var c := Config(true, true);
    var s := State(true, Some(r), [], [], [prompt], [prompt], 1, Draining(Outside, true));
    assert [] + [prompt][..1] == [prompt] && [prompt][1..] == [];
    es := Then(c, before, State(true, Some(r), [], [prompt], [], [prompt], 1, Draining(Outside, false)), Chunk(1), s);
    es := ThenMove(c, es, s, Drained, Notifying(Outside));
    es := ThenSilent(c, es, s.(pc := Notifying(Outside)), Observing);
    es := ReadinessReached(c, es, s.(pc := Observing), r);
    assert [prompt] + [] == [prompt];
  }

  lemma PromptAgain(first: seq<Event>, r: Reader, prompt: Byte, again: Byte, enter: Byte) returns (es: seq<Event>)
    requires After(Config(true, true), first)
          == Some(State(true, Some(r), [], [], [prompt], [prompt], 1, ReadReady(r)))
    ensures first <= es
    ensures After(Config(true, true), es)
         == Some(State(true, Some(r), [], [again], [prompt], [prompt, again], 2, ReadReady(r)))
  {
    hide After;
    var c := Config(true, true);
    var s := State(true, Some(r), [enter], [], [prompt], [prompt], 1, Top);
    assert [] + [enter] == [enter] && [prompt] + [] == [prompt];
    var silent: seq<Byte> := [];
    assert silent + silent == silent;
    es := Then(c, first, s.(input := [], pc := ReadReady(r)), Answer([enter], silent), s);
    es := ThenMove(c, es, s, Poll(false), Selecting);
    es := ThenMove(c, es, s.(pc := Selecting), Select(false), Observing);
    es := ThenMove(c, es, s.(pc := Observing), Observe, Draining(Window(r), false));
    es := ThenMove(c, es, s.(pc := Draining(Window(r), false)), Drained, Confirming(r));
    es := WakeInWindow(es, r, prompt, again, enter);
  }

  lemma WakeInWindow(before: seq<Event>, r: Reader, prompt: Byte, again: Byte, enter: Byte) returns (es: seq<Event>)
    requires After(Config(true, true), before)
          == Some(State(true, Some(r), [enter], [], [prompt], [prompt], 1, Confirming(r)))
    ensures before <= es
    ensures After(Config(true, true), es)
         == Some(State(true, Some(r), [], [again], [prompt], [prompt, again], 2, ReadReady(r)))
  {
    hide After;
    var c := Config(true, true);
    var s := State(true, Some(r), [enter], [], [prompt], [prompt], 1, Confirming(r));
    var woken := State(true, None, [], [], [prompt], [prompt], 1, Confirming(r));
    assert [enter][1..] == [] && [] + [again] == [again] && [prompt] + [again] == [prompt, again];
    es := Then(c, before, s, Consume(1, true), woken);
    var written := State(true, None, [], [again], [prompt], [prompt, again], 1, Confirming(r));
    es := Then(c, es, woken, Emit([again]), written);
    var asleep := State(true, Some(r), [], [again], [prompt], [prompt, again], 2, Confirming(r));
    es := Then(c, es, written, Block(r), asleep);
    es := Confirmed(c, es, asleep, r);
  }

  // --------------------------------------------- when a window is current

  /** A window after its first observation, in which no callback answers. */
  ghost predicate Silent(es: seq<Event>) {
    forall e <- es :: e != Observe && (e.Answer? ==> e.reply == [])
  }

  /** What the source states of the moment on_read_ready is called. */
  ghost predicate Current(s: State)
    requires s.pc.ReadReady?
  {
    s.input == [] && (s.alive ==> s.blocked == Some(s.pc.reader) && s.readMark <= |s.transcript|)
  }

  lemma {:induction false} ObservedAt(es: seq<Event>, tail: seq<Event>)
    requires Silent(tail)
    ensures LastObservation(es + [Observe] + tail) == |es|
    decreases |tail|
  {
    var all := es + [Observe] + tail;
    if tail == [] {
      assert Last(all) == Observe;
    } else {
      assert Last(all) == Last(tail) && Last(tail) in tail;
      assert Front(all) == es + [Observe] + Front(tail);
      ObservedAt(es, Front(tail));
    }
  }

  /** A silent window that opens with no input queued is current when it calls back. */
  lemma SilentWindowCurrent(c: Config, es: seq<Event>, tail: seq<Event>)
    requires Run(c, es) && After(c, es).value.input == [] && Silent(tail)
    requires Run(c, es + [Observe] + tail) && After(c, es + [Observe] + tail).value.pc.ReadReady?
    ensures Current(After(c, es + [Observe] + tail).value)
  {
    var all := es + [Observe] + tail;
    ObservedAt(es, tail);
    assert all[..|es|] == es;
    forall j | |es| <= j < |all| && all[j].Answer? ensures all[j].reply == [] {
      assert all[j] == tail[j - |es| - 1] && all[j] in tail;
    }
    QuietExactly(c, all);
    ReadReadySafety(c, all);
  }

  /** One more silent event of a window whose state is known. */
  lemma ThenInWindow(c: Config, es: seq<Event>, tail: seq<Event>, s: State, e: Event, t: State) returns (more: seq<Event>)
    requires After(c, es + tail) == Some(s) && Step(c, s, e) == Some(t)
    requires Silent(tail) && e != Observe && (e.Answer? ==> e.reply == [])
    ensures Silent(more) && After(c, es + more) == Some(t)
  {
    more := tail + [e];
    assert Front(es + more) == es + tail && Last(es + more) == e;
  }

  lemma {:induction false} DrainInWindow(c: Config, es: seq<Event>, tail: seq<Event>, s: State)
    returns (more: seq<Event>, t: State)
    requires After(c, es + tail) == Some(s) && Silent(tail) && s.pc.Draining?
    ensures Silent(more) && After(c, es + more) == Some(t)
    ensures t.pc.Draining? && t.pc.phase == s.pc.phase && t.queued == [] && t.transcript == s.transcript + s.queued
    ensures t.input == s.input && t.emitted == s.emitted && t.alive == s.alive && t.blocked == s.blocked
    ensures t.pc.changed <==> s.pc.changed || s.queued != []
    decreases |s.queued|
  {
    hide After;
    if s.queued == [] {
      more, t := tail, s;
    } else {
      var next := s.(transcript := s.transcript + s.queued[..1], queued := s.queued[1..], pc := Draining(s.pc.phase, true));
      more := ThenInWindow(c, es, tail, s, Chunk(1), next);
      assert next.transcript + next.queued == s.transcript + s.queued;
      more, t := DrainInWindow(c, es, more, next);
    }
  }

  /** The drain is over, on_output has been told of it, the second look is due. */
  lemma AwaitConfirm(c: Config, es: seq<Event>, tail: seq<Event>, s: State, r: Reader) returns (more: seq<Event>, t: State)
    requires After(c, es + tail) == Some(s) && Silent(tail)
    requires s.pc.Draining? && s.pc.phase == Window(r)
    ensures Silent(more) && After(c, es + more) == Some(t)
    ensures t.pc == Confirming(r) && t.queued == [] && t.transcript == s.transcript + s.queued
    ensures t.input == s.input && t.emitted == s.emitted && t.alive == s.alive && t.blocked == s.blocked
  {
    hide After;
    more, t := DrainInWindow(c, es, tail, s);
    if t.pc.changed {
      var notifying := t.(pc := Notifying(Window(r)));
      more := ThenInWindow(c, es, more, t, Drained, notifying);
      t := t.(pc := Confirming(r));
      assert t.input + [] == t.input && t.queued + [] == t.queued && t.emitted + [] == t.emitted;
      more := ThenInWindow(c, es, more, notifying, Answer([], []), t);
    } else {
      var confirming := t.(pc := Confirming(r));
      more := ThenInWindow(c, es, more, t, Drained, confirming);
      t := confirming;
    }
  }

  /** With input queued the child may consume it after the drain, write, and block
      in the same read again: the callback comes, and the transcript lacks output
      that preceded the read. */
  lemma WindowGoesStale(c: Config, es: seq<Event>, s: State, r: Reader) returns (tail: seq<Event>)
    requires After(c, es) == Some(s) && s.pc == Observing && s.blocked == Some(r) && s.input != []
    ensures Silent(tail) && Run(c, es + [Observe] + tail)
    ensures var t := After(c, es + [Observe] + tail).value;
            t.pc == ReadReady(r) && t.alive && t.input == [] && t.blocked == Some(r) && |t.transcript| < t.readMark
  {
    OutputConserved(c, es);
    var window, open := es + [Observe], s.(pc := Draining(Window(r), false));
    assert Front(window) == es && window + [] == window;
    assert After(c, window) == Some(open);
    hide After;
    var t;
    tail, t := AwaitConfirm(c, window, [], open, r);
    tail := WakeAndBlock(c, window, tail, t, r);
  }

  lemma WakeAndBlock(c: Config, es: seq<Event>, tail: seq<Event>, s: State, r: Reader) returns (more: seq<Event>)
    requires After(c, es + tail) == Some(s) && Silent(tail) && s.pc == Confirming(r)
    requires s.alive && s.input != [] && s.queued == [] && s.emitted == s.transcript
    ensures Silent(more)
    ensures After(c, es + more)
         == Some(s.(input := [], blocked := Some(r), queued := [0], emitted := s.emitted + [0],
                    readMark := |s.emitted| + 1, pc := ReadReady(r)))
  {
    hide After, Silent;
    assert s.input[|s.input|..] == [] && s.queued + [0] == [0];
    var woken := s.(input := [], blocked := None);
    more := ThenInWindow(c, es, tail, s, Consume(|s.input|, true), woken);
    var written := woken.(queued := [0], emitted := s.emitted + [0]);
    more := ThenInWindow(c, es, more, woken, Emit([0]), written);
    var asleep := written.(blocked := Some(r), readMark := |s.emitted| + 1);
    more := ThenInWindow(c, es, more, written, Block(r), asleep);
    var checking := asleep.(pc := CheckingInput(r));
    more := ThenInWindow(c, es, more, asleep, Confirm, checking);
    more := ThenInWindow(c, es, more, checking, CheckInput, checking.(pc := ReadReady(r)));
  }

  /** Every window without answers that opens after es is current when it calls back. */
  ghost predicate AlwaysCurrent(c: Config, es: seq<Event>) {
    forall tail | Silent(tail) && Run(c, es + [Observe] + tail) && After(c, es + [Observe] + tail).value.pc.ReadReady? ::
      Current(After(c, es + [Observe] + tail).value)
  }

  /** The readiness invariant holds exactly where no input is waiting at the first
      look: from any reachable observation of a blocked reader, every window in
      which no callback answers is current when it calls back if and only if the
      input queue is empty at the observation. */
  lemma WindowCurrentExactly(c: Config, es: seq<Event>, s: State, r: Reader)
    requires After(c, es) == Some(s) && s.pc == Observing && s.blocked == Some(r)
    ensures AlwaysCurrent(c, es) <==> s.input == []
  {
    if s.input == [] {
      forall tail | Silent(tail) && Run(c, es + [Observe] + tail) && After(c, es + [Observe] + tail).value.pc.ReadReady?
        ensures Current(After(c, es + [Observe] + tail).value)
      {
        SilentWindowCurrent(c, es, tail);
      }
    } else {
      var tail := WindowGoesStale(c, es, s, r);
    }
  }

  // ------------------------------------------ windows in which on_output answers

  ghost predicate NoObserve(es: seq<Event>) {
    forall e <- es :: e != Observe
  }

  /** A window of a child with one task that finds nothing queued either way is an
      untouched state up to the end. */
  ghost predicate Untouched(s: State, t: State)
    requires InWindow(s.pc)
  {
    InWindow(t.pc) ==>
      t == s.(pc := t.pc) && !t.pc.Notifying? && (t.pc.Draining? ==> !t.pc.changed) && Subject(t.pc) == Subject(s.pc)
  }

  lemma StepUntouched(c: Config, s: State, t: State, e: Event)
    requires InWindow(s.pc) && c.solo && s.blocked.Some? && s.input == [] && s.queued == []
    requires Untouched(s, t) && e != Observe && Step(c, t, e).Some?
    ensures Untouched(s, Step(c, t, e).value)
  {
  }

  lemma {:induction false} RunUntouched(c: Config, es: seq<Event>, tail: seq<Event>, s: State)
    requires After(c, es) == Some(s) && InWindow(s.pc) && s.pc.Draining? && !s.pc.changed
    requires c.solo && s.blocked.Some? && s.input == [] && s.queued == []
    requires NoObserve(tail) && Run(c, es + tail)
    ensures Untouched(s, After(c, es + tail).value)
    decreases |tail|
  {
    if tail == [] {
      assert es + tail == es;
    } else {
      assert Front(es + tail) == es + Front(tail) && Last(es + tail) == Last(tail) && Last(tail) in tail;
      assert forall e <- Front(tail) :: e in tail;
      RunUntouched(c, es, Front(tail), s);
      StepUntouched(c, s, After(c, es + Front(tail)).value, Last(tail));
    }
  }

  /** A child with several tasks may write in the window; then, or if output was still
      queued, on_output is called and may answer; the child wakes, writes and blocks
      in the same read. */
  lemma AnswerGoesStale(c: Config, es: seq<Event>, s: State, r: Reader) returns (tail: seq<Event>)
    requires After(c, es) == Some(s) && s.pc == Observing && s.blocked == Some(r)
    requires s.input == [] && (s.queued != [] || !c.solo)
    ensures NoObserve(tail) && Run(c, es + [Observe] + tail)
    ensures Stale(After(c, es + [Observe] + tail).value, r)
  {
    OutputConserved(c, es);
    var window, open := es + [Observe], s.(pc := Draining(Window(r), false));
    ThenOne(c, es, s, Observe, open);
    hide After, Run;
    var before, t := OutputInWindow(c, window, open, r);
    var after := AnswerAndWake(c, window + before, t, r);
    hide Stale, Silent;
    tail := Append(window, before, after);
    SilentNeverObserves(before, after);
    SomeRun(c, window + tail);
  }

  /** Two pieces of a window after the events that lead to it. */
  lemma Append(es: seq<Event>, first: seq<Event>, second: seq<Event>) returns (tail: seq<Event>)
    ensures tail == first + second && es + tail == es + first + second
  {
    tail := first + second;
  }

  lemma SilentNeverObserves(first: seq<Event>, second: seq<Event>)
    requires (Silent(first) || NoObserve(first)) && (Silent(second) || NoObserve(second))
    ensures NoObserve(first + second)
  {
    forall e <- first + second ensures e != Observe {
      assert e in first || e in second;
    }
  }

  lemma SomeRun(c: Config, es: seq<Event>)
    requires After(c, es).Some?
    ensures Run(c, es)
  {
  }

  /** The drain finds output: what was queued, or what another task writes now. */
  lemma OutputInWindow(c: Config, es: seq<Event>, s: State, r: Reader) returns (tail: seq<Event>, t: State)
    requires After(c, es) == Some(s) && s.pc == Draining(Window(r), false)
    requires s.alive && s.emitted == s.transcript + s.queued && s.input == [] && (s.queued != [] || !c.solo)
    ensures Silent(tail) && After(c, es + tail) == Some(t)
    ensures t.pc == Draining(Window(r), true) && t.queued == [] && t.emitted == t.transcript && t.input == [] && t.alive
  {
    hide After;
    assert es + [] == es;
    tail, t := [], s;
    if s.queued == [] {
      assert s.queued + [0] == [0] && s.transcript + [0] == s.emitted + [0];
      t := s.(queued := [0], emitted := s.emitted + [0]);
      tail := ThenInWindow(c, es, [], s, Emit([0]), t);
    }
    tail, t := DrainInWindow(c, es, tail, t);
  }

  lemma AnswerAndWake(c: Config, es: seq<Event>, s: State, r: Reader) returns (tail: seq<Event>)
    requires After(c, es) == Some(s) && s.pc == Draining(Window(r), true)
    requires s.queued == [] && s.emitted == s.transcript && s.input == [] && s.alive
    ensures NoObserve(tail) && After(c, es + tail).Some? && Stale(After(c, es + tail).value, r)
  {
    var answered := s.(input := [0], pc := Confirming(r));
    var answer := AnswerOutput(c, es, s, r);
    hide After, Run;
    assert es + answer + [] == es + answer;
    var after := WakeAndBlock(c, es + answer, [], answered, r);
    hide Silent, NoObserve;
    tail := Append(es, answer, after);
    SilentNeverObserves(answer, after);
  }

  lemma AnswerOutput(c: Config, es: seq<Event>, s: State, r: Reader) returns (tail: seq<Event>)
    requires After(c, es) == Some(s) && s.pc == Draining(Window(r), true) && s.queued == [] && s.input == []
    ensures NoObserve(tail) && After(c, es + tail) == Some(s.(input := [0], pc := Confirming(r)))
  {
    var notifying := s.(pc := Notifying(Window(r)));
    assert s.input + [0] == [0] && s.queued + [] == s.queued && s.emitted + [] == s.emitted;
    ThenOne(c, es, s, Drained, notifying);
    ThenOne(c, es + [Drained], notifying, Answer([0], []), s.(input := [0], pc := Confirming(r)));
    hide After;
    tail := Append(es, [Drained], [Answer([0], [])]);
  }

  lemma ThenOne(c: Config, es: seq<Event>, s: State, e: Event, t: State)
    requires After(c, es) == Some(s) && Step(c, s, e) == Some(t)
    ensures After(c, es + [e]) == Some(t)
  {
    assert Front(es + [e]) == es;
  }

  /** A callback with the reader blocked, no input queued, and output before the read
      missing from the transcript. */
  ghost predicate Stale(s: State, r: Reader) {
    s.pc == ReadReady(r) && s.alive && s.input == [] && s.blocked == Some(r) && |s.transcript| < s.readMark
  }

  /** Every window after es, whatever its callbacks answer, is current when it calls back. */
  ghost predicate CurrentWhateverAnswered(c: Config, es: seq<Event>) {
    forall tail | NoObserve(tail) && Run(c, es + [Observe] + tail) && After(c, es + [Observe] + tail).value.pc.ReadReady? ::
      Current(After(c, es + [Observe] + tail).value)
  }

  lemma UntouchedIsCurrent(c: Config, es: seq<Event>, s: State, r: Reader, tail: seq<Event>)
    requires After(c, es) == Some(s) && s.pc == Observing && s.blocked == Some(r)
    requires s.input == [] && s.queued == [] && c.solo && NoObserve(tail)
    requires Run(c, es + [Observe] + tail) && After(c, es + [Observe] + tail).value.pc.ReadReady?
    ensures Current(After(c, es + [Observe] + tail).value)
  {
    OutputConserved(c, es);
    var open := s.(pc := Draining(Window(r), false));
    ThenOne(c, es, s, Observe, open);
    RunUntouched(c, es + [Observe], tail, open);
  }

  /** With callbacks free to answer, every window from this observation is current
      exactly when nothing is queued either way and the child has one task. */
  lemma AnsweredWindowExactly(c: Config, es: seq<Event>, s: State, r: Reader)
    requires After(c, es) == Some(s) && s.pc == Observing && s.blocked == Some(r)
    ensures CurrentWhateverAnswered(c, es) <==> s.input == [] && s.queued == [] && c.solo
  {
    if s.input != [] {
      var tail := WindowGoesStale(c, es, s, r);
    } else if s.queued != [] || !c.solo {
      var tail := AnswerGoesStale(c, es, s, r);
    } else {
      forall tail | NoObserve(tail) && Run(c, es + [Observe] + tail) && After(c, es + [Observe] + tail).value.pc.ReadReady?
        ensures Current(After(c, es + [Observe] + tail).value)
      {
        UntouchedIsCurrent(c, es, s, r, tail);
      }
    }
  }

  /** A whole run: the child prompts between the select and the first look, on_output
      answers the prompt inside the window, and on_read_ready sees the prompt only. */
  lemma AnswerMakesStale(r: Reader, prompt: Byte) returns (es: seq<Event>)
    ensures var c := Config(true, true); Run(c, es) && Stale(After(c, es).value, r)
  {
    var c := Config(true, true);
    es := [];
    hide After;
    assert After(c, es) == Some(INITIAL) by {
      AfterNothing(c);
    }
    es := ThenMove(c, es, INITIAL, Poll(false), Selecting);
    es := ThenMove(c, es, INITIAL.(pc := Selecting), Select(false), Observing);
    var observing := INITIAL.(pc := Observing);
    var written := observing.(queued := [prompt], emitted := [prompt]);
    assert [] + [prompt] == [prompt];
    es := Then(c, es, observing, Emit([prompt]), written);
    var asleep := written.(blocked := Some(r), readMark := 1);
    es := Then(c, es, written, Block(r), asleep);
    var tail := AnswerGoesStale(c, es, asleep, r);
    es := es + [Observe] + tail;
  }

  lemma AfterNothing(c: Config)
    ensures After(c, []) == Some(INITIAL)
  {
  }

  // ------------------------------------------------ what the harness looked at

  /** The state in which the harness last did e. */
  ghost function SeenAt(c: Config, es: seq<Event>, e: Event): Option<State> {
    if es == [] then None else if Last(es) == e then After(c, Front(es)) else SeenAt(c, Front(es), e)
  }

  ghost predicate SawReader(seen: Option<State>, r: Reader) {
    seen.Some? && seen.value.blocked == Some(r)
  }

  ghost predicate LookedTwice(c: Config, es: seq<Event>, pc: Pc) {
    && (InWindow(pc) ==> SawReader(SeenAt(c, es, Observe), Subject(pc)))
    && (pc.CheckingInput? || pc.ReadReady? ==> SawReader(SeenAt(c, es, Confirm), Subject(pc)))
    && (pc.ReadReady? ==> SeenAt(c, es, CheckInput).Some? && SeenAt(c, es, CheckInput).value.input == [])
  }

  /** on_read_ready is called only after the same reader was seen blocked at both looks
      and the input queue was seen empty after the second. */
  lemma {:induction false} CallbackOnlyIfConfirmed(c: Config, es: seq<Event>)
    requires Run(c, es)
    ensures LookedTwice(c, es, After(c, es).value.pc)
  {
    if es != [] {
      CallbackOnlyIfConfirmed(c, Front(es));
      var s, e := After(c, Front(es)).value, Last(es);
      assert After(c, es) == Step(c, s, e);
      assert forall x :: SeenAt(c, es, x) == if e == x then Some(s) else SeenAt(c, Front(es), x);
      StepLooks(c, s, e, SeenAt(c, Front(es), Observe), SeenAt(c, Front(es), Confirm));
      hide After, SeenAt, Step, InWindow, Subject;
    }
  }

  /** How one step enters and leaves the stages of a window. */
  lemma StepLooks(c: Config, s: State, e: Event, observed: Option<State>, confirmed: Option<State>)
    requires Step(c, s, e).Some?
    ensures var t := Step(c, s, e).value;
            && (InWindow(t.pc) && e != Observe ==> InWindow(s.pc) && Subject(t.pc) == Subject(s.pc))
            && (InWindow(t.pc) && e == Observe ==> s.blocked == Some(Subject(t.pc)))
            && (t.pc.CheckingInput? && e != Confirm ==> s.pc == t.pc)
            && (t.pc.CheckingInput? && e == Confirm ==> s.blocked == Some(Subject(t.pc)))
            && (t.pc.ReadReady? && e != CheckInput ==> s.pc == t.pc)
            && (t.pc.ReadReady? && e == CheckInput ==> s.pc == CheckingInput(t.pc.reader) && s.input == [])
            && (e == Observe ==> !t.pc.CheckingInput? && !t.pc.ReadReady?)
            && (e == Confirm ==> !t.pc.ReadReady?)
  {
  }

  // ------------------------------------------- the other ways through the loop

  /** Without on_read_ready the harness alone reads a chunk of what is queued, shows
      it to on_output and comes back to its loop condition. */
  lemma ChunkIsShown(c: Config, es: seq<Event>, s: State, count: nat) returns (more: seq<Event>)
    requires After(c, es) == Some(s) && !c.readiness && s.alive && s.pc == Top
    requires 0 < count <= |s.queued| && count <= 8192
    ensures es <= more
    ensures After(c, more) == Some(s.(transcript := s.transcript + s.queued[..count], queued := s.queued[count..]))
    ensures Shown(c, more) == s.transcript + s.queued[..count]
  {
    OutputConserved(c, es);
    hide After;
    more := ThenMove(c, es, s, Poll(false), Selecting);
    more := ThenMove(c, more, s.(pc := Selecting), Select(false), ChunkReading);
    var read := s.(transcript := s.transcript + s.queued[..count], queued := s.queued[count..], pc := ChunkNotifying);
    more := Then(c, more, s.(pc := ChunkReading), Chunk(count), read);
    more := ThenSilent(c, more, read, Top);
    AfterRun(c, more);
    OutputShown(c, more);
  }

  lemma AfterRun(c: Config, es: seq<Event>)
    requires After(c, es).Some?
    ensures Run(c, es)
  {
  }

  /** Once the child has exited the harness alone comes to its end, with all output
      read and shown, and reports no timeout, even past the deadline. */
  lemma ExitIsReported(c: Config, es: seq<Event>, s: State, expired: bool) returns (more: seq<Event>)
    requires After(c, es) == Some(s) && !s.alive && s.pc == Top
    ensures es <= more
    ensures After(c, more) == Some(s.(transcript := s.emitted, queued := [], pc := Done(false)))
    ensures Shown(c, more) == s.emitted
  {
    AfterRun(c, es);
    OutputConserved(c, es);
    hide After, Run;
    more := ThenMove(c, es, s, Poll(expired), Finishing);
    more := FinishDrained(c, more, s.(pc := Finishing));
    assert s.transcript + s.queued == s.emitted;
    AfterRun(c, more);
    OutputShown(c, more);
  }

  lemma {:induction false} FinishDrained(c: Config, es: seq<Event>, s: State) returns (more: seq<Event>)
    requires After(c, es) == Some(s) && s.pc == Finishing
    ensures es <= more
    ensures After(c, more) == Some(s.(transcript := s.transcript + s.queued, queued := [], pc := Done(false)))
    decreases |s.queued|
  {
    hide After;
    if s.queued == [] {
      assert s.transcript + s.queued == s.transcript;
      more := ThenMove(c, es, s, Drained, Done(false));
    } else {
      var read := s.(transcript := s.transcript + s.queued[..1], queued := s.queued[1..], pc := FinishNotifying);
      more := Then(c, es, s, Chunk(1), read);
      more := ThenSilent(c, more, read, Finishing);
      assert read.transcript + read.queued == s.transcript + s.queued;
      more := FinishDrained(c, more, read.(pc := Finishing));
    }
  }

  /** Past the deadline a child that is still alive is killed, and the run is timed out. */
  lemma DeadlineKills(c: Config, es: seq<Event>, s: State) returns (more: seq<Event>)
    requires After(c, es) == Some(s) && s.alive && s.pc == Top
    ensures es <= more
    ensures After(c, more) == Some(s.(alive := false, blocked := None, pc := Done(true)))
  {
    hide After;
    more := ThenMove(c, es, s, Poll(true), Expired);
    more := ThenMove(c, more, s.(pc := Expired), Poll(true), Killing);
    more := Then(c, more, s.(pc := Killing), Kill, s.(alive := false, blocked := None, pc := Done(true)));
  }

  /** No poll of the run found the deadline past. */
  ghost predicate InTime(es: seq<Event>) {
    forall e <- es :: e.Poll? ==> !e.expired
  }

  predicate PastDeadline(pc: Pc) {
    pc == Expired || pc == Killing || pc == Done(true)
  }

  lemma StepInTime(c: Config, s: State, e: Event)
    requires Step(c, s, e).Some? && !PastDeadline(s.pc) && (e.Poll? ==> !e.expired)
    ensures !PastDeadline(Step(c, s, e).value.pc)
  {
  }

  /** Only a run in which the deadline was found past is timed out. */
  lemma {:induction false} TimeoutNeedsDeadline(c: Config, es: seq<Event>)
    requires Run(c, es) && InTime(es)
    ensures !PastDeadline(After(c, es).value.pc)
  {
    if es != [] {
      assert Last(es) in es && forall e <- Front(es) :: e in es;
      TimeoutNeedsDeadline(c, Front(es));
      StepInTime(c, After(c, Front(es)).value, Last(es));
      hide PastDeadline, Step;
    }
  }

  // --------------------------------------------------- readiness is found

  /** The harness alone, from the first observation of a blocked reader with
      nothing queued for it, gets to on_read_ready, however much output is
      waiting, and by then has drained it. */
  lemma ReadinessReached(c: Config, es: seq<Event>, s: State, r: Reader) returns (more: seq<Event>)
    requires After(c, es) == Some(s)
    requires s.blocked == Some(r) && s.input == [] && s.pc == Observing
    ensures es <= more
    ensures After(c, more) == Some(s.(transcript := s.transcript + s.queued, queued := [], pc := ReadReady(r)))
  {
    hide After;
    more := ThenMove(c, es, s, Observe, Draining(Window(r), false));
    more := WindowDrained(c, more, s.(pc := Draining(Window(r), false)), r);
  }

  lemma {:induction false} WindowDrained(c: Config, es: seq<Event>, s: State, r: Reader) returns (more: seq<Event>)
    requires After(c, es) == Some(s)
    requires s.blocked == Some(r) && s.input == [] && s.pc.Draining? && s.pc.phase == Window(r)
    ensures es <= more
    ensures After(c, more) == Some(s.(transcript := s.transcript + s.queued, queued := [], pc := ReadReady(r)))
    decreases |s.queued|
  {
    hide After;
    if s.queued != [] {
      var t := s.(transcript := s.transcript + s.queued[..1], queued := s.queued[1..], pc := Draining(Window(r), true));
      more := Then(c, es, s, Chunk(1), t);
      assert t.transcript + t.queued == s.transcript + s.queued;
      more := WindowDrained(c, more, t, r);
    } else {
      assert s.transcript + s.queued == s.transcript;
      if s.pc.changed {
        more := ThenMove(c, es, s, Drained, Notifying(Window(r)));
        more := ThenSilent(c, more, s.(pc := Notifying(Window(r))), Confirming(r));
      } else {
        more := ThenMove(c, es, s, Drained, Confirming(r));
      }
      more := Confirmed(c, more, s.(pc := Confirming(r)), r);
    }
  }
}

/** aggregate: one status per capability and mode from all journey results. */
module NightlyReport {
  import opened Options
  import opened SortedKeys
  import opened Decimals

  datatype Status = PASS | BLOCKED | FAIL

  datatype Step = Step(capability: string, mode: string, name: string, status: Status, duration: real, message: string)

  datatype Item = Item(capability: string, mode: string, status: Status, duration: real, firstFailure: Option<Step>)

  /** The capabilities a mode declares. */
  datatype Profile = Profile(mode: string, declared: set<string>)

  /** How a mode's journey process ended. */
  datatype Exit = Exit(mode: string, code: int)

  datatype Totals = Totals(capabilities: map<string, Item>, failures: map<string, Step>)

  type Fingerprinter = (string, string, string) -> string

  const RUNNER := "journey.runner"
  const UNKNOWN := "unknown"

  function Rank(s: Status): nat {
    match s case PASS => 0 case BLOCKED => 1 case FAIL => 2
  }

  function Worse(s: Status, t: Status): Status {
    if Rank(s) >= Rank(t) then s else t
  }

  function Key(capability: string, mode: string): string { capability + ":" + mode }

  /** key.split(":", 1)[0] */
  function BeforeColon(key: string): string {
    if key == [] || key[0] == ':' then [] else [key[0]] + BeforeColon(key[1..])
  }

  function StepKey(s: Step): string { Key(s.capability, s.mode) }

  function FailureKey(hash: Fingerprinter, s: Step): string { hash(s.capability, s.mode, s.name) }

  // ------------------------------------------------ what the loops compute

  function FirstOf(first: Option<Step>, s: Step): Option<Step> {
    if first.Some? then first else Some(s)
  }

  function AddStep(t: Totals, s: Step, hash: Fingerprinter): Totals {
    var key := StepKey(s);
    var item := if key in t.capabilities then t.capabilities[key] else Item(s.capability, s.mode, PASS, 0.0, None);
    var timed := item.(duration := item.duration + s.duration);
    match s.status
    case FAIL =>
      Totals(t.capabilities[key := timed.(status := FAIL, firstFailure := FirstOf(item.firstFailure, s))],
             t.failures[FailureKey(hash, s) := s])
    case BLOCKED =>
      t.(capabilities := t.capabilities[key :=
        timed.(status := if item.status == PASS then BLOCKED else item.status,
               firstFailure := FirstOf(item.firstFailure, s))])
    case PASS => t.(capabilities := t.capabilities[key := timed])
  }

  function AddSteps(steps: seq<Step>, hash: Fingerprinter): Totals {
    if steps == [] then Totals(map[], map[])
    else AddStep(AddSteps(steps[..|steps| - 1], hash), steps[|steps| - 1], hash)
  }

  function Flatten(results: seq<seq<Step>>): seq<Step> {
    if results == [] then [] else Flatten(results[..|results| - 1]) + results[|results| - 1]
  }

  const NO_RESULTS := Step(RUNNER, UNKNOWN, "result files", FAIL, 0.0, "no journey results were provided to the aggregator")
  const NO_CAPABILITIES := Step(RUNNER, UNKNOWN, "capability results", FAIL, 0.0,
                               "journey result files contained no capability steps")

  /** The steps that count: a report without any is itself a failure. */
  function Effective(results: seq<seq<Step>>): seq<Step> {
    if Given(results) == [] then [NO_CAPABILITIES] else Given(results)
  }

  function Given(results: seq<seq<Step>>): seq<Step> {
    if results == [] then [NO_RESULTS] else Flatten(results)
  }

  function Reported(capabilities: map<string, Item>, mode: string): set<string> {
    set k <- capabilities.Keys | capabilities[k].mode == mode :: BeforeColon(k)
  }

  function GapItem(capability: string, mode: string): Item {
    Item(capability, mode, BLOCKED, 0.0, Some(Step(capability, mode, "required capability result", BLOCKED, 0.0,
      "profile " + mode + " declares " + capability + ", but the journey produced no result")))
  }

  function AddGaps(capabilities: map<string, Item>, mode: string, missing: seq<string>): map<string, Item> {
    if missing == [] then capabilities
    else
      var c := missing[|missing| - 1];
      AddGaps(capabilities, mode, missing[..|missing| - 1])[Key(c, mode) := GapItem(c, mode)]
  }

  function AddProfile(t: Totals, p: Profile): Totals {
    t.(capabilities := AddGaps(t.capabilities, p.mode, Sorted(p.declared - Reported(t.capabilities, p.mode))))
  }

  function AddProfiles(t: Totals, ps: seq<Profile>): Totals {
    if ps == [] then t else AddProfile(AddProfiles(t, ps[..|ps| - 1]), ps[|ps| - 1])
  }

  function ExitStep(e: Exit): Step {
    Step(RUNNER, e.mode, "journey process exit", FAIL, 0.0,
         e.mode + " journey process exited with status " + Decimal(e.code))
  }

  function AddExit(t: Totals, e: Exit, hash: Fingerprinter): Totals {
    if e.code == 0 then t
    else
      var key, detail := Key(RUNNER, e.mode), ExitStep(e);
      var item := if key in t.capabilities then t.capabilities[key] else Item(RUNNER, e.mode, FAIL, 0.0, Some(detail));
      Totals(t.capabilities[key := item.(status := FAIL, firstFailure := FirstOf(item.firstFailure, detail))],
             t.failures[FailureKey(hash, detail) := detail])
  }

  function AddExits(t: Totals, es: seq<Exit>, hash: Fingerprinter): Totals {
    if es == [] then t else AddExit(AddExits(t, es[..|es| - 1], hash), es[|es| - 1], hash)
  }

  function Aggregated(results: seq<seq<Step>>, profiles: seq<Profile>, exits: seq<Exit>, hash: Fingerprinter): Totals {
    AddExits(AddProfiles(AddSteps(Effective(results), hash), profiles), exits, hash)
  }

  function Overall(t: Totals, coverageFailed: bool): Status {
    if t.failures != map[] || coverageFailed then FAIL
    else if exists k <- t.capabilities :: t.capabilities[k].status == BLOCKED then BLOCKED
    else PASS
  }

  // ------------------------------------------------------------ the method

  method Aggregate(results: seq<seq<Step>>, profiles: seq<Profile>, exits: seq<Exit>, coverageFailed: bool,
                   hash: Fingerprinter)
    returns (capabilities: map<string, Item>, failures: map<string, Step>, status: Status)
    ensures Totals(capabilities, failures) == Aggregated(results, profiles, exits, hash)
    ensures status == Overall(Totals(capabilities, failures), coverageFailed)
  {
    capabilities, failures := StepLoop(results, hash);
    if capabilities == map[] {
      var step := NO_CAPABILITIES;
      capabilities := map[Key(RUNNER, UNKNOWN) := Item(RUNNER, UNKNOWN, FAIL, 0.0, Some(step))];
      failures := failures[FailureKey(hash, step) := step];
    }
    SomeCapability(Given(results), hash);
    OneFailedStep(NO_CAPABILITIES, hash);
    assert Totals(capabilities, failures) == AddSteps(Effective(results), hash);
    capabilities := GapLoop(capabilities, failures, profiles);
    capabilities, failures := ExitLoop(capabilities, failures, exits, hash);
    status := Overall(Totals(capabilities, failures), coverageFailed);
  }

  method StepLoop(results: seq<seq<Step>>, hash: Fingerprinter)
    returns (capabilities: map<string, Item>, failures: map<string, Step>)
    ensures Totals(capabilities, failures)
         == AddSteps(Given(results), hash)
  {
    var all := if results == [] then [[NO_RESULTS]] else results;
    capabilities, failures := map[], map[];
    for i := 0 to |all|
      invariant Totals(capabilities, failures) == AddSteps(Flatten(all[..i]), hash)
    {
      capabilities, failures := ResultLoop(capabilities, failures, Flatten(all[..i]), all[i], hash);
      assert all[..i + 1][..i] == all[..i];
    }
    assert all[..|all|] == all;
    if results == [] {
      assert Flatten([[NO_RESULTS]]) == [NO_RESULTS] by {
        assert [[NO_RESULTS]][..0] == [];
      }
    }
  }

  method ResultLoop(seen: map<string, Item>, failed: map<string, Step>, ghost before: seq<Step>, steps: seq<Step>,
                    hash: Fingerprinter)
    returns (capabilities: map<string, Item>, failures: map<string, Step>)
    requires Totals(seen, failed) == AddSteps(before, hash)
    ensures Totals(capabilities, failures) == AddSteps(before + steps, hash)
  {
    hide AddSteps;
    capabilities, failures := seen, failed;
    assert before + steps[..0] == before;
    for j := 0 to |steps|
      invariant Totals(capabilities, failures) == AddSteps(before + steps[..j], hash)
    {
      var step := steps[j];
      var key := StepKey(step);
      var item := if key in capabilities then capabilities[key]
                  else Item(step.capability, step.mode, PASS, 0.0, None);
      item := item.(duration := item.duration + step.duration);
      if step.status == FAIL {
        item := item.(status := FAIL, firstFailure := FirstOf(item.firstFailure, step));
        failures := failures[FailureKey(hash, step) := step];
      } else if step.status == BLOCKED {
        if item.status == PASS {
          item := item.(status := BLOCKED);
        }
        item := item.(firstFailure := FirstOf(item.firstFailure, step));
      }
      capabilities := capabilities[key := item];
      AddStepsSnoc(before + steps[..j], step, hash);
      assert before + steps[..j + 1] == before + steps[..j] + [step];
    }
    assert steps[..|steps|] == steps;
  }

  lemma AddStepsSnoc(front: seq<Step>, s: Step, hash: Fingerprinter)
    ensures AddSteps(front + [s], hash) == AddStep(AddSteps(front, hash), s, hash)
  {
    assert (front + [s])[..|front|] == front;
  }

  lemma OneFailedStep(s: Step, hash: Fingerprinter)
    requires s.status == FAIL
    ensures AddSteps([s], hash)
         == Totals(map[StepKey(s) := Item(s.capability, s.mode, FAIL, s.duration, Some(s))],
                   map[FailureKey(hash, s) := s])
  {
    AddStepsSnoc([], s, hash);
    assert [] + [s] == [s];
  }

  lemma SomeCapability(steps: seq<Step>, hash: Fingerprinter)
    ensures steps == [] <==> AddSteps(steps, hash).capabilities == map[]
  {
    if steps != [] {
      assert StepKey(steps[|steps| - 1]) in AddSteps(steps, hash).capabilities;
    }
  }

  method GapLoop(before: map<string, Item>, ghost failures: map<string, Step>, profiles: seq<Profile>)
    returns (capabilities: map<string, Item>)
    ensures Totals(capabilities, failures) == AddProfiles(Totals(before, failures), profiles)
  {
    capabilities := before;
    for i := 0 to |profiles|
      invariant Totals(capabilities, failures) == AddProfiles(Totals(before, failures), profiles[..i])
    {
      var mode := profiles[i].mode;
      var missing := Sorted(profiles[i].declared - Reported(capabilities, mode));
      ghost var start := capabilities;
      for j := 0 to |missing|
        invariant capabilities == AddGaps(start, mode, missing[..j])
      {
        capabilities := capabilities[Key(missing[j], mode) := GapItem(missing[j], mode)];
        assert missing[..j + 1][..j] == missing[..j];
      }
      assert missing[..|missing|] == missing;
      assert profiles[..i + 1][..i] == profiles[..i];
    }
    assert profiles[..|profiles|] == profiles;
  }

  method ExitLoop(before: map<string, Item>, failed: map<string, Step>, exits: seq<Exit>, hash: Fingerprinter)
    returns (capabilities: map<string, Item>, failures: map<string, Step>)
    ensures Totals(capabilities, failures) == AddExits(Totals(before, failed), exits, hash)
  {
    capabilities, failures := before, failed;
    for i := 0 to |exits|
      invariant Totals(capabilities, failures) == AddExits(Totals(before, failed), exits[..i], hash)
    {
      if exits[i].code != 0 {
        var key, detail := Key(RUNNER, exits[i].mode), ExitStep(exits[i]);
        var item := if key in capabilities then capabilities[key]
                    else Item(RUNNER, exits[i].mode, FAIL, 0.0, Some(detail));
        item := item.(status := FAIL, firstFailure := FirstOf(item.firstFailure, detail));
        capabilities := capabilities[key := item];
        failures := failures[FailureKey(hash, detail) := detail];
      }
      assert exits[..i + 1][..i] == exits[..i];
    }
    assert exits[..|exits|] == exits;
  }

  // ------------------------------------------------ one item, step by step

  predicate Concerns(s: Step, key: string) { StepKey(s) == key }

  /** The worst status among the steps of one key. */
  function Worst(steps: seq<Step>, key: string): Status {
    if steps == [] then PASS
    else
      var worst, s := Worst(steps[..|steps| - 1], key), steps[|steps| - 1];
      if Concerns(s, key) then Worse(worst, s.status) else worst
  }

  function Duration(steps: seq<Step>, key: string): real {
    if steps == [] then 0.0
    else Duration(steps[..|steps| - 1], key) + if Concerns(steps[|steps| - 1], key) then steps[|steps| - 1].duration else 0.0
  }

  function FirstFailure(steps: seq<Step>, key: string): Option<Step> {
    if steps == [] then None
    else
      var first, s := FirstFailure(steps[..|steps| - 1], key), steps[|steps| - 1];
      if Concerns(s, key) && s.status != PASS then FirstOf(first, s) else first
  }

  ghost predicate Mentioned(steps: seq<Step>, key: string) {
    exists s <- steps :: Concerns(s, key)
  }

  ghost predicate Summarises(t: Totals, steps: seq<Step>, key: string) {
    && (key in t.capabilities <==> Mentioned(steps, key))
    && (key in t.capabilities ==>
          && t.capabilities[key].status == Worst(steps, key)
          && t.capabilities[key].duration == Duration(steps, key)
          && t.capabilities[key].firstFailure == FirstFailure(steps, key)
          && Key(t.capabilities[key].capability, t.capabilities[key].mode) == key)
    && (key !in t.capabilities ==>
          Worst(steps, key) == PASS && Duration(steps, key) == 0.0 && FirstFailure(steps, key) == None)
  }

  lemma StepSummarised(t: Totals, front: seq<Step>, s: Step, hash: Fingerprinter, key: string)
    requires Summarises(t, front, key)
    ensures Summarises(AddStep(t, s, hash), front + [s], key)
  {
    var steps := front + [s];
    assert steps[..|steps| - 1] == front;
    assert Worst(steps, key) == if Concerns(s, key) then Worse(Worst(front, key), s.status) else Worst(front, key);
    assert Duration(steps, key) == Duration(front, key) + if Concerns(s, key) then s.duration else 0.0;
    assert FirstFailure(steps, key)
        == if Concerns(s, key) && s.status != PASS then FirstOf(FirstFailure(front, key), s) else FirstFailure(front, key);
    assert Mentioned(steps, key) <==> Mentioned(front, key) || Concerns(s, key);
    hide Worst, Duration, FirstFailure, Mentioned, Key;
  }

  /** The step loop keeps, for each key, the worst status, the whole duration and
      the first step that did not pass. */
  lemma {:induction false} StepsSummarised(steps: seq<Step>, hash: Fingerprinter, key: string)
    ensures Summarises(AddSteps(steps, hash), steps, key)
  {
    if steps != [] {
      var front, s := steps[..|steps| - 1], steps[|steps| - 1];
      StepsSummarised(front, hash, key);
      StepSummarised(AddSteps(front, hash), front, s, hash, key);
      assert steps == front + [s];
      hide Summarises, AddStep;
    }
  }

  ghost predicate FailedStep(steps: seq<Step>, hash: Fingerprinter, f: string, s: Step) {
    s in steps && s.status == FAIL && FailureKey(hash, s) == f
  }

  ghost predicate AllFailed(failures: map<string, Step>, steps: seq<Step>, hash: Fingerprinter) {
    forall f <- failures :: FailedStep(steps, hash, f, failures[f])
  }

  /** The failures are failed steps under their fingerprints, and none is missing. */
  lemma {:induction false} FailuresAreFailedSteps(steps: seq<Step>, hash: Fingerprinter)
    ensures AllFailed(AddSteps(steps, hash).failures, steps, hash)
    ensures forall s <- steps :: s.status == FAIL ==> FailureKey(hash, s) in AddSteps(steps, hash).failures
  {
    if steps != [] {
      var front, s := steps[..|steps| - 1], steps[|steps| - 1];
      FailuresAreFailedSteps(front, hash);
      assert steps == front + [s];
      var was, now := AddSteps(front, hash).failures, AddSteps(steps, hash).failures;
      assert now == if s.status == FAIL then was[FailureKey(hash, s) := s] else was;
      forall f <- now ensures FailedStep(steps, hash, f, now[f]) {
        if !(s.status == FAIL && f == FailureKey(hash, s)) {
          assert FailedStep(front, hash, f, was[f]);
        }
      }
      forall x <- steps | x.status == FAIL ensures FailureKey(hash, x) in now {
        assert x in front || x == s;
      }
    }
  }

  lemma {:induction false} WorstMeaning(steps: seq<Step>, key: string)
    ensures forall s <- steps :: Concerns(s, key) ==> Rank(s.status) <= Rank(Worst(steps, key))
    ensures Worst(steps, key) != PASS ==> exists s <- steps :: Concerns(s, key) && s.status == Worst(steps, key)
  {
    if steps != [] {
      WorstMeaning(steps[..|steps| - 1], key);
      assert steps == steps[..|steps| - 1] + [steps[|steps| - 1]];
    }
  }

  // ------------------------------------------------------- key collisions

  predicate ColonFree(name: string) { ':' !in name }

  lemma {:induction false} KeySplits(capability: string, mode: string)
    ensures BeforeColon(Key(capability, mode)) == capability <==> ColonFree(capability)
    ensures ColonFree(BeforeColon(Key(capability, mode)))
  {
    var key := Key(capability, mode);
    if capability != [] {
      assert key[1..] == Key(capability[1..], mode);
      KeySplits(capability[1..], mode);
      assert capability == [capability[0]] + capability[1..];
    }
  }

  /** What follows the last colon of a key is its mode, if no mode has a colon. */
  lemma ModeInjective(c: string, m: string, d: string, n: string)
    requires ColonFree(m) && ColonFree(n) && Key(c, m) == Key(d, n)
    ensures c == d && m == n
  {
    if |m| < |n| {
      ColonInside(c, m, d, n);
    } else if |n| < |m| {
      ColonInside(d, n, c, m);
    } else {
      var key := Key(c, m);
      assert key[..|c|] == c && key[..|d|] == d;
      assert key[|c| + 1..] == m && key[|d| + 1..] == n;
    }
  }

  lemma ColonInside(c: string, m: string, d: string, n: string)
    requires Key(c, m) == Key(d, n) && |m| < |n|
    ensures !ColonFree(n)
  {
    var key := Key(c, m);
    assert key[|c|] == ':' && key[|c|] == n[|c| - |d| - 1];
  }

  // ------------------------------------------------------------------ gaps

  lemma {:induction false} GapsByKey(capabilities: map<string, Item>, mode: string, missing: seq<string>, key: string)
    ensures var after := AddGaps(capabilities, mode, missing);
            if exists c <- missing :: Key(c, mode) == key then
              key in after && after[key].status == BLOCKED && after[key].duration == 0.0
              && exists c <- missing :: Key(c, mode) == key && after[key] == GapItem(c, mode)
            else (key in after <==> key in capabilities) && (key in after ==> after[key] == capabilities[key])
  {
    if missing != [] {
      var front, c := missing[..|missing| - 1], missing[|missing| - 1];
      GapsByKey(capabilities, mode, front, key);
      assert missing == front + [c];
    }
  }

  /** When one profile takes a failure back: exactly when a declared capability
      has the failed key but is not recognised in the part before the colon. */
  lemma FailureLoweredExactly(t: Totals, p: Profile, key: string)
    requires key in t.capabilities && t.capabilities[key].status == FAIL
    ensures key in AddProfile(t, p).capabilities
    ensures AddProfile(t, p).capabilities[key].status != FAIL
       <==> exists c <- p.declared :: Key(c, p.mode) == key && c !in Reported(t.capabilities, p.mode)
  {
    GapsByKey(t.capabilities, p.mode, Sorted(p.declared - Reported(t.capabilities, p.mode)), key);
  }

  /** For a capability that failed in the only step of a report and is declared:
      its failure survives exactly when its name has no colon. */
  lemma ColonLosesFailure(s: Step, hash: Fingerprinter)
    requires s.status == FAIL
    ensures var t := Aggregated([[s]], [Profile(s.mode, {s.capability})], [], hash);
            && StepKey(s) in t.capabilities && FailureKey(hash, s) in t.failures
            && (t.capabilities[StepKey(s)].status == FAIL <==> ColonFree(s.capability))
  {
    assert Flatten([[s]]) == [s] by {
      assert [[s]][..0] == [];
    }
    var t := AddSteps([s], hash);
    OneFailedStep(s, hash);
    assert t.capabilities.Keys == {StepKey(s)};
    var p := Profile(s.mode, {s.capability});
    KeySplits(s.capability, s.mode);
    assert Reported(t.capabilities, s.mode) == {BeforeColon(StepKey(s))};
    FailureLoweredExactly(t, p, StepKey(s));
    assert [p][..0] == [];
    assert AddProfiles(t, [p]) == AddProfile(t, p);
  }

  // --------------------------------------------- what the profiles change

  /** The first step with a key: it gives the item its mode. */
  function FirstWith(steps: seq<Step>, key: string): Option<Step> {
    if steps == [] then None
    else
      var first, s := FirstWith(steps[..|steps| - 1], key), steps[|steps| - 1];
      if first.None? && Concerns(s, key) then Some(s) else first
  }

  lemma {:induction false} FirstWithKey(steps: seq<Step>, key: string)
    ensures FirstWith(steps, key).Some? <==> Mentioned(steps, key)
    ensures FirstWith(steps, key).Some? ==>
              FirstWith(steps, key).value in steps && Concerns(FirstWith(steps, key).value, key)
  {
    if steps != [] {
      FirstWithKey(steps[..|steps| - 1], key);
      assert steps == steps[..|steps| - 1] + [steps[|steps| - 1]];
    }
  }

  ghost predicate ModesOf(steps: seq<Step>, base: map<string, Item>) {
    forall key :: && (key in base <==> FirstWith(steps, key).Some?)
                  && (key in base ==>
                        && base[key].mode == FirstWith(steps, key).value.mode
                        && base[key].capability == FirstWith(steps, key).value.capability)
  }

  lemma {:induction false} StepsGiveModes(steps: seq<Step>, hash: Fingerprinter)
    ensures ModesOf(steps, AddSteps(steps, hash).capabilities)
  {
    hide Key;
    if steps != [] {
      StepsGiveModes(steps[..|steps| - 1], hash);
    }
  }

  /** The profiles are the entries of a dictionary by mode. */
  ghost predicate DistinctModes(ps: seq<Profile>) {
    forall i, j | 0 <= i < j < |ps| :: ps[i].mode != ps[j].mode
  }

  /** The profiles, in their order, write a gap under the key: one of them declares a
      capability there that it does not see in what the steps and the gaps before it
      have left. */
  ghost predicate Gapped(steps: seq<Step>, ps: seq<Profile>, key: string)
    decreases |ps|, 0
  {
    ps != [] &&
    var front, p := ps[..|ps| - 1], ps[|ps| - 1];
    Gapped(steps, front, key) || exists c <- p.declared :: Key(c, p.mode) == key && !Seen(steps, front, c, p.mode)
  }

  /** A key of this mode has c before its first colon, and no gap has replaced it. */
  ghost predicate Seen(steps: seq<Step>, ps: seq<Profile>, c: string, mode: string)
    decreases |ps|, 1
  {
    exists s <- steps :: LeavesMode(steps, s, c, mode) && !Gapped(steps, ps, StepKey(s))
  }

  ghost predicate LeavesMode(steps: seq<Step>, s: Step, c: string, mode: string) {
    FirstWith(steps, StepKey(s)) == Some(s) && s.mode == mode && BeforeColon(StepKey(s)) == c
  }

  ghost predicate Declares(ps: seq<Profile>, key: string) {
    exists p <- ps, c <- p.declared :: Key(c, p.mode) == key
  }

  ghost predicate BadExit(es: seq<Exit>, key: string) {
    exists e <- es :: e.code != 0 && Key(RUNNER, e.mode) == key
  }

  ghost predicate IsGap(item: Item) {
    item.status == BLOCKED && item.duration == 0.0
  }

  /** What the profiles have made of one key. */
  ghost predicate ProfiledKey(base: map<string, Item>, steps: seq<Step>, ps: seq<Profile>, now: map<string, Item>,
                              key: string)
  {
    && (key in now <==> key in base || Gapped(steps, ps, key))
    && (Gapped(steps, ps, key) ==> IsGap(now[key]) && exists p <- ps :: p.mode == now[key].mode)
    && (key in base && !Gapped(steps, ps, key) ==> now[key] == base[key])
  }

  ghost predicate Profiled(base: map<string, Item>, steps: seq<Step>, ps: seq<Profile>, now: map<string, Item>) {
    forall key :: ProfiledKey(base, steps, ps, now, key)
  }

  /** What the next profile takes for reported. */
  lemma ReportedNext(steps: seq<Step>, base: map<string, Item>, front: seq<Profile>, now: map<string, Item>, mode: string, c: string)
    requires ModesOf(steps, base) && Profiled(base, steps, front, now) && forall q <- front :: q.mode != mode
    ensures c in Reported(now, mode) <==> Seen(steps, front, c, mode)
  {
    if c in Reported(now, mode) {
      var k :| k in now && now[k].mode == mode && BeforeColon(k) == c;
      assert ProfiledKey(base, steps, front, now, k);
      FirstWithKey(steps, k);
      assert LeavesMode(steps, FirstWith(steps, k).value, c, mode);
    }
    if Seen(steps, front, c, mode) {
      var s :| s in steps && LeavesMode(steps, s, c, mode) && !Gapped(steps, front, StepKey(s));
      assert ProfiledKey(base, steps, front, now, StepKey(s));
      assert StepKey(s) in now && now[StepKey(s)].mode == mode;
    }
  }

  lemma ProfileNext(steps: seq<Step>, base: map<string, Item>, front: seq<Profile>, t: Totals, p: Profile, key: string)
    requires ModesOf(steps, base) && Profiled(base, steps, front, t.capabilities)
    requires forall q <- front :: q.mode != p.mode
    ensures ProfiledKey(base, steps, front + [p], AddProfile(t, p).capabilities, key)
  {
    var now, ps := t.capabilities, front + [p];
    var missing := p.declared - Reported(now, p.mode);
    GapsByKey(now, p.mode, Sorted(missing), key);
    assert ProfiledKey(base, steps, front, now, key);
    forall c <- p.declared ensures c in missing <==> !Seen(steps, front, c, p.mode) {
      ReportedNext(steps, base, front, now, p.mode, c);
    }
    assert ps[..|ps| - 1] == front && p in ps && forall q <- front :: q in ps;
    assert Gapped(steps, ps, key)
      <==> Gapped(steps, front, key) || exists c <- p.declared :: Key(c, p.mode) == key && !Seen(steps, front, c, p.mode);
    hide Reported, ModesOf, Profiled, AddGaps, Seen, Gapped, Key;
  }

  lemma {:induction false} ProfilesByKey(steps: seq<Step>, t: Totals, ps: seq<Profile>)
    requires ModesOf(steps, t.capabilities) && DistinctModes(ps)
    ensures Profiled(t.capabilities, steps, ps, AddProfiles(t, ps).capabilities)
    ensures AddProfiles(t, ps).failures == t.failures
  {
    if ps != [] {
      var front, p := ps[..|ps| - 1], ps[|ps| - 1];
      assert ps == front + [p] && forall q <- front :: q.mode != p.mode;
      ProfilesByKey(steps, t, front);
      hide AddProfile, Profiled, ModesOf, ProfiledKey;
      forall key ensures ProfiledKey(t.capabilities, steps, ps, AddProfiles(t, ps).capabilities, key) {
        ProfileNext(steps, t.capabilities, front, AddProfiles(t, front), p, key);
      }
      AllProfiled(t.capabilities, steps, ps, AddProfiles(t, ps).capabilities);
      ProfileKeepsFailures(AddProfiles(t, front), p);
    }
  }

  lemma AllProfiled(base: map<string, Item>, steps: seq<Step>, ps: seq<Profile>, now: map<string, Item>)
    requires forall key :: ProfiledKey(base, steps, ps, now, key)
    ensures Profiled(base, steps, ps, now)
  {
  }

  lemma ProfileKeepsFailures(t: Totals, p: Profile)
    ensures AddProfile(t, p).failures == t.failures
  {
  }

  lemma {:induction false} ExitsByKey(t: Totals, es: seq<Exit>, hash: Fingerprinter, key: string)
    ensures key in AddExits(t, es, hash).capabilities <==> key in t.capabilities || BadExit(es, key)
    ensures key in AddExits(t, es, hash).capabilities ==>
              && AddExits(t, es, hash).capabilities[key].status
                 == (if BadExit(es, key) then FAIL else t.capabilities[key].status)
              && AddExits(t, es, hash).capabilities[key].duration
                 == (if key in t.capabilities then t.capabilities[key].duration else 0.0)
    ensures t.failures.Keys <= AddExits(t, es, hash).failures.Keys
  {
    if es != [] {
      var front, e := es[..|es| - 1], es[|es| - 1];
      assert es == front + [e];
      ExitsByKey(t, front, hash, key);
      assert BadExit(es, key) <==> BadExit(front, key) || (e.code != 0 && Key(RUNNER, e.mode) == key);
    }
  }

  /** The status of a key: FAIL for a failed journey process, BLOCKED for a gap, else
      the worst of its steps. */
  ghost function Expected(steps: seq<Step>, ps: seq<Profile>, es: seq<Exit>, key: string): Status {
    if BadExit(es, key) then FAIL else if Gapped(steps, ps, key) then BLOCKED else Worst(steps, key)
  }

  /** For any steps, profiles and exits: which keys the report shows, with which
      status and which duration. */
  lemma AggregatedExactly(results: seq<seq<Step>>, ps: seq<Profile>, es: seq<Exit>, hash: Fingerprinter, key: string)
    requires DistinctModes(ps)
    ensures var t, steps := Aggregated(results, ps, es, hash), Effective(results);
            && (key in t.capabilities <==> Mentioned(steps, key) || Gapped(steps, ps, key) || BadExit(es, key))
            && (key in t.capabilities ==>
                  && t.capabilities[key].status == Expected(steps, ps, es, key)
                  && t.capabilities[key].duration == if Gapped(steps, ps, key) then 0.0 else Duration(steps, key))
  {
    var steps := Effective(results);
    var t1 := AddSteps(steps, hash);
    var t2 := AddProfiles(t1, ps);
    StepsSummarised(steps, hash, key);
    StepsGiveModes(steps, hash);
    ProfilesByKey(steps, t1, ps);
    assert ProfiledKey(t1.capabilities, steps, ps, t2.capabilities, key);
    ExitsByKey(t2, es, hash, key);
    hide AddSteps, AddProfiles, AddExits, Effective, Profiled, Gapped, ModesOf;
  }

  // ------------------------------- gaps without regard to the order

  ghost predicate ColonFreeModes(steps: seq<Step>, ps: seq<Profile>) {
    (forall s <- steps :: ColonFree(s.mode)) && forall p <- ps :: ColonFree(p.mode)
  }

  /** Some step of the mode has c before the first colon of its key. */
  ghost predicate Hidden(steps: seq<Step>, c: string, mode: string) {
    exists s <- steps :: s.mode == mode && BeforeColon(StepKey(s)) == c
  }

  ghost predicate Gap(steps: seq<Step>, ps: seq<Profile>, key: string) {
    exists p <- ps, c <- p.declared :: Key(c, p.mode) == key && !Hidden(steps, c, p.mode)
  }

  /** When no mode has a colon, each profile looks at the steps of its own mode only. */
  lemma {:induction false} GappedByMode(steps: seq<Step>, ps: seq<Profile>, key: string)
    requires ColonFreeModes(steps, ps) && DistinctModes(ps)
    ensures Gapped(steps, ps, key) <==> Gap(steps, ps, key)
    decreases |ps|, 0
  {
    if ps != [] {
      var front, p := ps[..|ps| - 1], ps[|ps| - 1];
      assert ps == front + [p] && p in ps && forall q <- front :: q in ps && q.mode != p.mode;
      GappedByMode(steps, front, key);
      forall c ensures Seen(steps, front, c, p.mode) <==> Hidden(steps, c, p.mode) {
        SeenByMode(steps, front, c, p);
      }
      hide Seen, Hidden, Key, ColonFreeModes, DistinctModes;
      assert Gap(steps, ps, key)
        <==> Gap(steps, front, key) || exists c <- p.declared :: Key(c, p.mode) == key && !Hidden(steps, c, p.mode);
    }
  }

  lemma {:induction false} SeenByMode(steps: seq<Step>, front: seq<Profile>, c: string, p: Profile)
    requires ColonFreeModes(steps, front + [p]) && DistinctModes(front) && forall q <- front :: q.mode != p.mode
    ensures Seen(steps, front, c, p.mode) <==> Hidden(steps, c, p.mode)
    decreases |front|, 1
  {
    assert p in front + [p] && forall q <- front :: q in front + [p];
    if s :| s in steps && s.mode == p.mode && BeforeColon(StepKey(s)) == c {
      FirstWithKey(steps, StepKey(s));
      assert Concerns(s, StepKey(s));
      var first := FirstWith(steps, StepKey(s)).value;
      ModeInjective(first.capability, first.mode, s.capability, s.mode);
      assert LeavesMode(steps, first, c, p.mode);
      GappedByMode(steps, front, StepKey(first));
      if q, d :| q in front && d in q.declared && Key(d, q.mode) == StepKey(first) {
        ModeInjective(d, q.mode, first.capability, first.mode);
      }
    }
  }

  ghost predicate ColonFreeSteps(steps: seq<Step>) {
    forall s <- steps :: ColonFree(s.capability)
  }

  /** A step that could pass for a declared capability without a colon, by its key
      or by the part before the colon in its mode, is that capability's own. */
  ghost predicate Recognisable(steps: seq<Step>, ps: seq<Profile>) {
    forall s <- steps, p <- ps, c <- p.declared | ColonFree(c) && PassesFor(s, c, p.mode) :: s.capability == c
  }

  predicate PassesFor(s: Step, c: string, mode: string) {
    StepKey(s) == Key(c, mode) || (s.mode == mode && BeforeColon(StepKey(s)) == c)
  }

  /** It always holds when no step's capability has a colon, whatever is declared. */
  lemma ColonFreeRecognisable(steps: seq<Step>, ps: seq<Profile>)
    requires ColonFreeSteps(steps)
    ensures Recognisable(steps, ps)
  {
    forall s <- steps, p <- ps, c <- p.declared | ColonFree(c) && PassesFor(s, c, p.mode) ensures s.capability == c {
      KeySplits(s.capability, s.mode);
      KeySplits(c, p.mode);
    }
  }

  /** A capability with a colon is declared under this key: it is never recognised. */
  ghost predicate Claimed(ps: seq<Profile>, key: string) {
    exists p <- ps, c <- p.declared :: !ColonFree(c) && Key(c, p.mode) == key
  }

  /** When no step passes for another's declared capability, modes may have colons: a
      gap is where a key is claimed, or declared and not mentioned. */
  lemma {:induction false} GappedByClaim(steps: seq<Step>, ps: seq<Profile>, key: string)
    requires Recognisable(steps, ps) && DistinctModes(ps)
    ensures Gapped(steps, ps, key) <==> Claimed(ps, key) || (Declares(ps, key) && !Mentioned(steps, key))
    decreases |ps|, 0
  {
    if ps != [] {
      var front, p := ps[..|ps| - 1], ps[|ps| - 1];
      assert ps == front + [p] && p in ps && forall q <- front :: q in ps && q.mode != p.mode;
      GappedByClaim(steps, front, key);
      forall c <- p.declared | Key(c, p.mode) == key && !Claimed(front, key)
        ensures Seen(steps, front, c, p.mode) <==> ColonFree(c) && Mentioned(steps, key)
      {
        SeenByClaim(steps, front, c, p);
      }
      DeclaredNext(front, p, key);
      hide Seen, Claimed, Declares, Mentioned, Recognisable, Key, ColonFree;
    }
  }

  lemma {:induction false} SeenByClaim(steps: seq<Step>, front: seq<Profile>, c: string, p: Profile)
    requires Recognisable(steps, front + [p]) && DistinctModes(front)
    requires c in p.declared && !Claimed(front, Key(c, p.mode))
    ensures Seen(steps, front, c, p.mode) <==> ColonFree(c) && Mentioned(steps, Key(c, p.mode))
    decreases |front|, 1
  {
    var key := Key(c, p.mode);
    assert p in front + [p] && forall q <- front :: q in front + [p];
    if s :| s in steps && LeavesMode(steps, s, c, p.mode) {
      KeySplits(s.capability, s.mode);
      assert PassesFor(s, c, p.mode);
      assert Concerns(s, key);
    }
    if ColonFree(c) && Mentioned(steps, key) {
      FirstWithKey(steps, key);
      var first := FirstWith(steps, key).value;
      assert PassesFor(first, c, p.mode);
      assert key[|c| + 1..] == first.mode == p.mode;
      KeySplits(c, p.mode);
      assert LeavesMode(steps, first, c, p.mode);
      GappedByClaim(steps, front, key);
    }
  }

  lemma DeclaredNext(front: seq<Profile>, p: Profile, key: string)
    ensures Declares(front + [p], key) <==> Declares(front, key) || exists c <- p.declared :: Key(c, p.mode) == key
    ensures Claimed(front + [p], key)
       <==> Claimed(front, key) || exists c <- p.declared :: !ColonFree(c) && Key(c, p.mode) == key
  {
    hide Key, ColonFree;
  }

  /** The report key by key where no mode has a colon: a gap stands under each declared
      key that no step of its mode hides, and replaces what the steps reported there. */
  lemma ShownByMode(results: seq<seq<Step>>, ps: seq<Profile>, es: seq<Exit>, hash: Fingerprinter, key: string)
    requires ColonFreeModes(Effective(results), ps) && DistinctModes(ps)
    ensures var t, steps := Aggregated(results, ps, es, hash), Effective(results);
            && (key in t.capabilities <==> Mentioned(steps, key) || Gap(steps, ps, key) || BadExit(es, key))
            && (key in t.capabilities ==>
                  && t.capabilities[key].status
                     == (if BadExit(es, key) then FAIL else if Gap(steps, ps, key) then BLOCKED else Worst(steps, key))
                  && t.capabilities[key].duration == if Gap(steps, ps, key) then 0.0 else Duration(steps, key))
  {
    AggregatedExactly(results, ps, es, hash, key);
    GappedByMode(Effective(results), ps, key);
    hide Aggregated, Effective, Gapped;
  }

  /** The report key by key where no step passes for another's capability: everything
      declared is there, with the worst of its steps, gap and exit, unless it is claimed. */
  lemma ShownByClaim(results: seq<seq<Step>>, ps: seq<Profile>, es: seq<Exit>, hash: Fingerprinter, key: string)
    requires Recognisable(Effective(results), ps) && DistinctModes(ps)
    ensures var t, steps := Aggregated(results, ps, es, hash), Effective(results);
            && (key in t.capabilities <==> Mentioned(steps, key) || Declares(ps, key) || BadExit(es, key))
            && (key in t.capabilities ==>
                  && t.capabilities[key].status
                     == Worse(if Claimed(ps, key) then BLOCKED else Worst(steps, key),
                              Worse(if Declares(ps, key) && !Mentioned(steps, key) then BLOCKED else PASS,
                                    if BadExit(es, key) then FAIL else PASS))
                  && t.capabilities[key].duration == if Claimed(ps, key) then 0.0 else Duration(steps, key))
  {
    var steps := Effective(results);
    AggregatedExactly(results, ps, es, hash, key);
    GappedByClaim(steps, ps, key);
    StepsSummarised(steps, hash, key);
    assert Claimed(ps, key) ==> Declares(ps, key);
    hide Aggregated, Effective, Gapped, Recognisable, Claimed, Declares, Worst, Duration;
  }

  /** A declared capability is missing from the report exactly when it has no result
      and a step of its mode hides that, unless a failed process stands under its key. */
  lemma ColonHidesGap(results: seq<seq<Step>>, ps: seq<Profile>, es: seq<Exit>, hash: Fingerprinter, p: Profile, c: string)
    requires ColonFreeModes(Effective(results), ps) && DistinctModes(ps) && p in ps && c in p.declared
    ensures Key(c, p.mode) !in Aggregated(results, ps, es, hash).capabilities
       <==> && Hidden(Effective(results), c, p.mode)
            && !Mentioned(Effective(results), Key(c, p.mode)) && !BadExit(es, Key(c, p.mode))
  {
    var steps, key := Effective(results), Key(c, p.mode);
    AggregatedExactly(results, ps, es, hash, key);
    GappedByMode(steps, ps, key);
    hide Aggregated, Effective, Gapped;
    if q, d :| q in ps && d in q.declared && Key(d, q.mode) == key && !Hidden(steps, d, q.mode) {
      ModeInjective(d, q.mode, c, p.mode);
    }
  }

  /** A failure stands exactly when a journey process failed too, or no gap replaced
      it; which gaps do, is a matter of names where modes have no colon, or where no
      step passes for another's capability. */
  lemma FailureKeptExactly(results: seq<seq<Step>>, ps: seq<Profile>, es: seq<Exit>, hash: Fingerprinter, key: string)
    requires DistinctModes(ps) && Worst(Effective(results), key) == FAIL
    ensures key in Aggregated(results, ps, es, hash).capabilities
    ensures Aggregated(results, ps, es, hash).capabilities[key].status == FAIL
       <==> BadExit(es, key) || !Gapped(Effective(results), ps, key)
    ensures ColonFreeModes(Effective(results), ps) ==>
              (Gapped(Effective(results), ps, key) <==> Gap(Effective(results), ps, key))
    ensures Recognisable(Effective(results), ps) ==>
              (Gapped(Effective(results), ps, key) <==>
               exists p <- ps, c <- p.declared :: !ColonFree(c) && Key(c, p.mode) == key)
  {
    var steps := Effective(results);
    AggregatedExactly(results, ps, es, hash, key);
    WorstMeaning(steps, key);
    hide Aggregated, Effective, Worst, Gapped;
    assert Mentioned(steps, key);
    if ColonFreeModes(steps, ps) {
      GappedByMode(steps, ps, key);
    }
    if Recognisable(steps, ps) {
      GappedByClaim(steps, ps, key);
    }
  }

  /** A failure that the profiles leave standing. */
  ghost predicate Lasting(steps: seq<Step>, ps: seq<Profile>, es: seq<Exit>) {
    (exists s <- steps :: s.status == FAIL && !Gapped(steps, ps, StepKey(s))) || exists e <- es :: e.code != 0
  }

  lemma FailedKeyExactly(results: seq<seq<Step>>, ps: seq<Profile>, es: seq<Exit>, hash: Fingerprinter, key: string)
    requires DistinctModes(ps)
    ensures var m, steps := Aggregated(results, ps, es, hash).capabilities, Effective(results);
            && ((key in m && m[key].status == FAIL)
                <==> (BadExit(es, key)
                      || (!Gapped(steps, ps, key) && exists s <- steps :: Concerns(s, key) && s.status == FAIL)))
  {
    AggregatedExactly(results, ps, es, hash, key);
    WorstMeaning(Effective(results), key);
    hide Aggregated, Effective, Worst, Gapped, BadExit, Duration;
  }

  lemma FailedExactly(results: seq<seq<Step>>, ps: seq<Profile>, es: seq<Exit>, hash: Fingerprinter)
    requires DistinctModes(ps)
    ensures (exists k <- Aggregated(results, ps, es, hash).capabilities ::
               Aggregated(results, ps, es, hash).capabilities[k].status == FAIL)
       <==> Lasting(Effective(results), ps, es)
  {
    var steps, m := Effective(results), Aggregated(results, ps, es, hash).capabilities;
    hide Effective, Aggregated, Gapped, Key;
    if k :| k in m && m[k].status == FAIL {
      FailedKeyExactly(results, ps, es, hash, k);
    }
    if s :| s in steps && s.status == FAIL && !Gapped(steps, ps, StepKey(s)) {
      FailedKeyExactly(results, ps, es, hash, StepKey(s));
      assert Concerns(s, StepKey(s));
    }
    if e :| e in es && e.code != 0 {
      FailedKeyExactly(results, ps, es, hash, Key(RUNNER, e.mode));
      assert BadExit(es, Key(RUNNER, e.mode));
    }
  }

  /** The failures are those of steps and exits, whatever the profiles declare. */
  lemma ReportedFailures(results: seq<seq<Step>>, ps: seq<Profile>, es: seq<Exit>, hash: Fingerprinter)
    ensures Aggregated(results, ps, es, hash).failures != map[]
       <==> (exists s <- Effective(results) :: s.status == FAIL) || exists e <- es :: e.code != 0
  {
    var steps := Effective(results);
    var t1 := AddSteps(steps, hash);
    FailuresAreFailedSteps(steps, hash);
    AddProfilesFailures(t1, ps);
    FailureSource(AddProfiles(t1, ps), es, hash);
    hide Effective, AddSteps, AddProfiles, AddExits;
    if t1.failures != map[] {
      var f :| f in t1.failures;
      assert FailedStep(steps, hash, f, t1.failures[f]);
    }
  }

  lemma {:induction false} AddProfilesFailures(t: Totals, ps: seq<Profile>)
    ensures AddProfiles(t, ps).failures == t.failures
  {
    if ps != [] {
      AddProfilesFailures(t, ps[..|ps| - 1]);
    }
  }

  /** There is a failure to report exactly when some capability is shown as failed,
      exactly when gaps have not replaced every failure. */
  lemma FailuresExactly(results: seq<seq<Step>>, ps: seq<Profile>, es: seq<Exit>, hash: Fingerprinter)
    requires DistinctModes(ps)
    ensures var t, steps := Aggregated(results, ps, es, hash), Effective(results);
            && ((t.failures != map[] <==> exists k <- t.capabilities :: t.capabilities[k].status == FAIL)
                <==> ((exists s <- steps :: s.status == FAIL) ==> Lasting(steps, ps, es)))
  {
    ReportedFailures(results, ps, es, hash);
    FailedExactly(results, ps, es, hash);
    hide Aggregated, Effective;
  }

  /** With complete case coverage no capability is worse than the overall status; some
      capability has it, exactly when gaps have not replaced every failure. */
  lemma OverallIsWorst(results: seq<seq<Step>>, ps: seq<Profile>, es: seq<Exit>, hash: Fingerprinter)
    requires DistinctModes(ps)
    ensures var t, steps := Aggregated(results, ps, es, hash), Effective(results);
            && (forall k <- t.capabilities :: Rank(t.capabilities[k].status) <= Rank(Overall(t, false)))
            && ((Overall(t, false) == PASS || exists k <- t.capabilities :: t.capabilities[k].status == Overall(t, false))
                <==> ((exists s <- steps :: s.status == FAIL) ==> Lasting(steps, ps, es)))
  {
    ReportedFailures(results, ps, es, hash);
    FailedExactly(results, ps, es, hash);
    hide Aggregated, Effective;
  }

  lemma {:induction false} FailureSource(t: Totals, es: seq<Exit>, hash: Fingerprinter)
    ensures AddExits(t, es, hash).failures != map[] <==> t.failures != map[] || exists e <- es :: e.code != 0
  {
    if es != [] {
      FailureSource(t, es[..|es| - 1], hash);
      var was, now := AddExits(t, es[..|es| - 1], hash).failures, AddExits(t, es, hash).failures;
      assert was.Keys <= now.Keys;
      assert es[|es| - 1].code != 0 ==> FailureKey(hash, ExitStep(es[|es| - 1])) in now;
      assert es == es[..|es| - 1] + [es[|es| - 1]];
    }
  }

  // ------------------------------------------------- order and conservation

  lemma {:induction false} WorstByMembers(xs: seq<Step>, ys: seq<Step>, key: string)
    requires multiset(xs) == multiset(ys)
    ensures Worst(xs, key) == Worst(ys, key)
    ensures Mentioned(xs, key) <==> Mentioned(ys, key)
  {
    WorstMeaning(xs, key);
    WorstMeaning(ys, key);
    forall s ensures s in xs <==> s in ys {
      assert s in xs <==> s in multiset(xs);
      assert s in ys <==> s in multiset(ys);
    }
  }

  lemma {:induction false} DurationWithout(steps: seq<Step>, i: nat, key: string)
    requires i < |steps|
    ensures Duration(steps, key)
         == Duration(steps[..i] + steps[i + 1..], key) + if Concerns(steps[i], key) then steps[i].duration else 0.0
  {
    var n := |steps| - 1;
    if i == n {
      assert steps[..i] + steps[i + 1..] == steps[..n];
    } else {
      var rest := steps[..i] + steps[i + 1..];
      DurationWithout(steps[..n], i, key);
      assert rest[..|rest| - 1] == steps[..n][..i] + steps[..n][i + 1..];
      assert rest[|rest| - 1] == steps[n];
    }
  }

  lemma MatchLast(xs: seq<Step>, ys: seq<Step>) returns (i: nat)
    requires xs != [] && multiset(xs) == multiset(ys)
    ensures i < |ys| && ys[i] == xs[|xs| - 1]
    ensures multiset(xs[..|xs| - 1]) == multiset(ys[..i] + ys[i + 1..])
  {
    var n := |xs| - 1;
    assert xs == xs[..n] + [xs[n]];
    assert xs[n] in multiset(xs);
    assert xs[n] in ys;
    i :| 0 <= i < |ys| && ys[i] == xs[n];
    assert ys == ys[..i] + [ys[i]] + ys[i + 1..];
    assert multiset(xs[..n]) == multiset(xs) - multiset{xs[n]};
  }

  lemma {:induction false} DurationByMembers(xs: seq<Step>, ys: seq<Step>, key: string)
    requires multiset(xs) == multiset(ys)
    ensures Duration(xs, key) == Duration(ys, key)
  {
    if xs == [] {
      assert |multiset(ys)| == |multiset(xs)| == 0;
    } else {
      var i := MatchLast(xs, ys);
      DurationByMembers(xs[..|xs| - 1], ys[..i] + ys[i + 1..], key);
      DurationWithout(ys, i, key);
    }
  }

  /** Statuses and durations do not depend on the order of results, steps, profiles
      or exits, when modes have no colon or no step passes for another's capability. */
  lemma OrderIrrelevant(results: seq<seq<Step>>, others: seq<seq<Step>>, ps: seq<Profile>, qs: seq<Profile>,
                        es: seq<Exit>, fs: seq<Exit>, hash: Fingerprinter, key: string)
    requires multiset(Effective(results)) == multiset(Effective(others))
    requires (forall p :: p in ps <==> p in qs) && (forall e :: e in es <==> e in fs)
    requires ColonFreeModes(Effective(results), ps) || Recognisable(Effective(results), ps)
    requires DistinctModes(ps) && DistinctModes(qs)
    ensures var t, u := Aggregated(results, ps, es, hash), Aggregated(others, qs, fs, hash);
            && (key in t.capabilities <==> key in u.capabilities)
            && (key in t.capabilities ==>
                  && t.capabilities[key].status == u.capabilities[key].status
                  && t.capabilities[key].duration == u.capabilities[key].duration)
  {
    var xs, ys := Effective(results), Effective(others);
    forall s ensures s in ys <==> s in xs {
      assert s in xs <==> s in multiset(xs);
      assert s in ys <==> s in multiset(ys);
    }
    AggregatedExactly(results, ps, es, hash, key);
    AggregatedExactly(others, qs, fs, hash, key);
    WorstByMembers(xs, ys, key);
    DurationByMembers(xs, ys, key);
    GappedInAnyOrder(xs, ys, ps, qs, key);
    hide Aggregated, Effective, Gapped;
    assert BadExit(es, key) <==> BadExit(fs, key);
  }

  lemma GappedInAnyOrder(xs: seq<Step>, ys: seq<Step>, ps: seq<Profile>, qs: seq<Profile>, key: string)
    requires (forall s :: s in xs <==> s in ys) && (forall p :: p in ps <==> p in qs)
    requires ColonFreeModes(xs, ps) || Recognisable(xs, ps)
    requires DistinctModes(ps) && DistinctModes(qs)
    ensures Gapped(xs, ps, key) <==> Gapped(ys, qs, key)
  {
    if ColonFreeModes(xs, ps) {
      GappedByMode(xs, ps, key);
      GappedByMode(ys, qs, key);
      hide Gapped;
      assert forall c, mode :: Hidden(xs, c, mode) <==> Hidden(ys, c, mode);
    } else {
      assert Recognisable(ys, qs);
      GappedByClaim(xs, ps, key);
      GappedByClaim(ys, qs, key);
      hide Gapped;
    }
  }

  function TotalDuration(steps: seq<Step>): real {
    if steps == [] then 0.0 else TotalDuration(steps[..|steps| - 1]) + steps[|steps| - 1].duration
  }

  ghost function Sum(m: map<string, Item>): real {
    if m == map[] then 0.0
    else
      assert m.Keys != {};
      var k :| k in m;
      m[k].duration + Sum(m - {k})
  }

  lemma {:induction false} SumWithout(m: map<string, Item>, k: string)
    requires k in m
    ensures Sum(m) == m[k].duration + Sum(m - {k})
    decreases |m|
  {
    var j :| j in m && Sum(m) == m[j].duration + Sum(m - {j});
    if j != k {
      SumWithout(m - {j}, k);
      SumWithout(m - {k}, j);
      assert m - {j} - {k} == m - {k} - {j};
    }
  }

  lemma SumUpdated(m: map<string, Item>, k: string, item: Item)
    ensures Sum(m[k := item]) == Sum(m) - (if k in m then m[k].duration else 0.0) + item.duration
  {
    SumWithout(m[k := item], k);
    if k in m {
      SumWithout(m, k);
      assert m[k := item] - {k} == m - {k};
    } else {
      assert m[k := item] - {k} == m;
    }
  }

  lemma {:induction false} SumOfNothing(m: map<string, Item>)
    requires forall k <- m :: m[k].duration == 0.0
    ensures Sum(m) == 0.0
    decreases |m|
  {
    if m != map[] {
      var k :| k in m && Sum(m) == m[k].duration + Sum(m - {k});
      SumOfNothing(m - {k});
    }
  }

  /** Items that hold the durations of the steps hold all of them. */
  lemma {:induction false} SumByKey(m: map<string, Item>, steps: seq<Step>)
    requires forall k <- m :: m[k].duration == Duration(steps, k)
    requires forall s <- steps :: StepKey(s) in m
    ensures Sum(m) == TotalDuration(steps)
    decreases |steps|
  {
    if steps == [] {
      SumOfNothing(m);
    } else {
      var front, s := steps[..|steps| - 1], steps[|steps| - 1];
      var k, item := StepKey(s), m[StepKey(s)];
      var less := m[k := item.(duration := item.duration - s.duration)];
      assert forall j <- less :: less[j].duration == Duration(front, j);
      SumByKey(less, front);
      SumUpdated(m, k, less[k]);
    }
  }

  /** The steps with none of the given keys, in order. */
  ghost function Outside(steps: seq<Step>, keys: string -> bool): seq<Step> {
    if steps == [] then []
    else
      var front, s := Outside(steps[..|steps| - 1], keys), steps[|steps| - 1];
      if keys(StepKey(s)) then front else front + [s]
  }

  lemma {:induction false} OutsideByKey(steps: seq<Step>, keys: string -> bool, key: string)
    ensures Duration(Outside(steps, keys), key) == if keys(key) then 0.0 else Duration(steps, key)
  {
    hide Key;
    if steps != [] {
      var front, s := steps[..|steps| - 1], steps[|steps| - 1];
      OutsideByKey(front, keys, key);
      if !keys(StepKey(s)) {
        assert Outside(steps, keys) == Outside(front, keys) + [s];
        DurationSnoc(Outside(front, keys), s, key);
      }
    }
  }

  lemma DurationSnoc(front: seq<Step>, s: Step, key: string)
    ensures Duration(front + [s], key) == Duration(front, key) + if Concerns(s, key) then s.duration else 0.0
  {
    assert (front + [s])[..|front|] == front;
  }

  lemma {:induction false} OutsideMembers(steps: seq<Step>, keys: string -> bool)
    ensures forall s <- Outside(steps, keys) :: s in steps && !keys(StepKey(s))
    ensures (forall s <- steps :: !keys(StepKey(s))) ==> Outside(steps, keys) == steps
  {
    hide Key;
    if steps != [] {
      var front, s := steps[..|steps| - 1], steps[|steps| - 1];
      OutsideMembers(front, keys);
      assert steps == front + [s];
    }
  }

  /** The steps whose result no gap replaces. */
  ghost function Ungapped(steps: seq<Step>, ps: seq<Profile>): seq<Step> {
    Outside(steps, key => Gapped(steps, ps, key))
  }

  /** No second of a step is counted twice, and none is lost but those a gap has
      replaced: the durations shown add up to those of the other steps. */
  lemma DurationConserved(results: seq<seq<Step>>, ps: seq<Profile>, es: seq<Exit>, hash: Fingerprinter)
    requires DistinctModes(ps)
    ensures Sum(Aggregated(results, ps, es, hash).capabilities) == TotalDuration(Ungapped(Effective(results), ps))
    ensures (forall s <- Effective(results) :: !Gapped(Effective(results), ps, StepKey(s))) ==>
              Ungapped(Effective(results), ps) == Effective(results)
  {
    var m, steps := Aggregated(results, ps, es, hash).capabilities, Effective(results);
    var keys: string -> bool := key => Gapped(steps, ps, key);
    hide Aggregated, Effective, Gapped;
    OutsideMembers(steps, keys);
    forall k <- m ensures m[k].duration == Duration(Outside(steps, keys), k) {
      AggregatedExactly(results, ps, es, hash, k);
      OutsideByKey(steps, keys, k);
    }
    forall s <- Outside(steps, keys) ensures StepKey(s) in m {
      AggregatedExactly(results, ps, es, hash, StepKey(s));
      assert s in steps && Concerns(s, StepKey(s));
    }
    SumByKey(m, Outside(steps, keys));
  }

  // --------------------------------------- steps that pass for another's

  lemma OneStep(s: Step, p: Profile, hash: Fingerprinter)
    ensures AddSteps([s], hash).capabilities.Keys == {StepKey(s)}
    ensures AddSteps([s], hash).capabilities[StepKey(s)].mode == s.mode
    ensures Aggregated([[s]], [p], [], hash) == AddProfile(AddSteps([s], hash), p)
  {
    assert [[s]][..0] == [] && [p][..0] == [] && [s][..0] == [];
    assert Flatten([[s]]) == [s];
    assert AddProfiles(AddSteps([s], hash), [p]) == AddProfile(AddSteps([s], hash), p);
  }

  /** The smallest reports in which a gap goes unnoticed, whatever the modes: with one
      step, a declared capability is missing exactly when the step, not its own, has
      that capability before its colon. */
  lemma OneStepHidesGap(s: Step, c: string, hash: Fingerprinter)
    ensures Key(c, s.mode) !in Aggregated([[s]], [Profile(s.mode, {c})], [], hash).capabilities
       <==> BeforeColon(StepKey(s)) == c && StepKey(s) != Key(c, s.mode)
  {
    var p, t := Profile(s.mode, {c}), AddSteps([s], hash);
    OneStep(s, p, hash);
    assert Reported(t.capabilities, s.mode) == {BeforeColon(StepKey(s))};
    GapsByKey(t.capabilities, s.mode, Sorted({c} - Reported(t.capabilities, s.mode)), Key(c, s.mode));
    assert p.declared - Reported(t.capabilities, s.mode) == {c} - Reported(t.capabilities, s.mode);
  }

  function Passed(capability: string, mode: string): Step {
    Step(capability, mode, "name", PASS, 0.0, "")
  }

  lemma TwoPasses(a: Step, b: Step, p: Profile, hash: Fingerprinter)
    requires StepKey(a) == StepKey(b) && a.status == b.status == PASS && a.duration == b.duration == 0.0
    requires p.declared != {} && forall c <- p.declared :: Key(c, p.mode) == StepKey(a)
    ensures StepKey(a) in Aggregated([[a, b]], [p], [], hash).capabilities
    ensures Aggregated([[a, b]], [p], [], hash).capabilities[StepKey(a)].status
         == if a.mode == p.mode && p.declared == {BeforeColon(StepKey(a))} then PASS else BLOCKED
  {
    var m := AddSteps([a, b], hash).capabilities;
    assert [[a, b]][..0] == [] && Flatten([[a, b]]) == [a, b] && [a, b][..1] == [a] && [a][..0] == [] && [p][..0] == [];
    assert AddSteps([a], hash).capabilities == map[StepKey(a) := Item(a.capability, a.mode, PASS, 0.0, None)];
    assert m == map[StepKey(a) := Item(a.capability, a.mode, PASS, 0.0, None)];
    assert Reported(m, p.mode) == if a.mode == p.mode then {BeforeColon(StepKey(a))} else {};
    var missing := p.declared - Reported(m, p.mode);
    GapsByKey(m, p.mode, Sorted(missing), StepKey(a));
    assert AddProfiles(AddSteps([a, b], hash), [p]) == AddProfile(AddSteps([a, b], hash), p);
  }

  /** With colons in modes the order can matter: of two passing steps with one key the
      first decides whether the declared capability counts as reported. */
  lemma OrderMatters(x: string, y: string, z: string, hash: Fingerprinter)
    requires ColonFree(x)
    ensures var a, b, p := Passed(x, Key(y, z)), Passed(Key(x, y), z), Profile(Key(y, z), {x});
            && StepKey(a) == StepKey(b)
            && StepKey(a) in Aggregated([[a, b]], [p], [], hash).capabilities
            && StepKey(a) in Aggregated([[b, a]], [p], [], hash).capabilities
            && Aggregated([[a, b]], [p], [], hash).capabilities[StepKey(a)].status == PASS
            && Aggregated([[b, a]], [p], [], hash).capabilities[StepKey(a)].status == BLOCKED
  {
    var a, b, p := Passed(x, Key(y, z)), Passed(Key(x, y), z), Profile(Key(y, z), {x});
    assert StepKey(a) == x + ":" + (y + ":" + z) == (x + ":" + y) + ":" + z == StepKey(b);
    assert |p.mode| > |z|;
    KeySplits(x, p.mode);
    TwoPasses(a, b, p, hash);
    TwoPasses(b, a, p, hash);
  }
}

/** The nightly report item by item: whose it is, its first failure, and the failures. */
module ReportItems {
  import opened Options
  import opened SortedKeys
  import opened Decimals
  import opened NightlyReport

  // ------------------------------------------------------ where things stand

  /** Step i is the first with the key. */
  ghost predicate FirstAt(steps: seq<Step>, key: string, i: nat) {
    && i < |steps| && steps[i].capability + ":" + steps[i].mode == key
    && forall j | 0 <= j < i :: steps[j].capability + ":" + steps[j].mode != key
  }

  /** Step i is the first with the key that did not pass. */
  ghost predicate FirstNotPassedAt(steps: seq<Step>, key: string, i: nat) {
    && i < |steps| && steps[i].capability + ":" + steps[i].mode == key && steps[i].status != PASS
    && forall j | 0 <= j < i :: steps[j].capability + ":" + steps[j].mode == key ==> steps[j].status == PASS
  }

  /** Exit i is the first of the key that is not zero. */
  ghost predicate FirstBadExitAt(es: seq<Exit>, key: string, i: nat) {
    && i < |es| && es[i].code != 0 && "journey.runner:" + es[i].mode == key
    && forall j | 0 <= j < i :: !(es[j].code != 0 && "journey.runner:" + es[j].mode == key)
  }

  /** Profile p writes a gap for c under the key, after the profiles in front. */
  ghost predicate Writes(steps: seq<Step>, front: seq<Profile>, p: Profile, key: string, c: string) {
    c in p.declared && c + ":" + p.mode == key && !Seen(steps, front, c, p.mode)
  }

  /** Profile j is the last that writes a gap under the key, for c. */
  ghost predicate GapAt(steps: seq<Step>, ps: seq<Profile>, key: string, j: nat, c: string) {
    && j < |ps| && Writes(steps, ps[..j], ps[j], key, c)
    && forall k, d | j < k < |ps| :: !Writes(steps, ps[..k], ps[k], key, d)
  }

  function GapStep(c: string, mode: string): Step {
    Step(c, mode, "required capability result", BLOCKED, 0.0,
         "profile " + mode + " declares " + c + ", but the journey produced no result")
  }

  function BadExitStep(e: Exit): Step {
    Step("journey.runner", e.mode, "journey process exit", FAIL, 0.0,
         e.mode + " journey process exited with status " + Decimal(e.code))
  }

  lemma KeyOf(s: Step, key: string)
    ensures Concerns(s, key) <==> s.capability + ":" + s.mode == key
  {
  }

  lemma {:induction false} FirstWithAt(steps: seq<Step>, key: string)
    ensures match FirstWith(steps, key)
            case None => forall i | 0 <= i < |steps| :: !Concerns(steps[i], key)
            case Some(s) => exists i: nat :: i < |steps| && steps[i] == s && Concerns(s, key)
                                             && forall j | 0 <= j < i :: !Concerns(steps[j], key)
  {
    if steps != [] {
      var front, n := steps[..|steps| - 1], |steps| - 1;
      FirstWithAt(front, key);
      hide Concerns;
      assert forall i | 0 <= i < n :: front[i] == steps[i];
      if FirstWith(front, key).Some? {
        var i: nat :| i < |front| && front[i] == FirstWith(front, key).value && Concerns(front[i], key)
                      && forall j | 0 <= j < i :: !Concerns(front[j], key);
        assert steps[i] == front[i];
      }
    }
  }

  lemma {:induction false} FirstFailureAt(steps: seq<Step>, key: string)
    ensures match FirstFailure(steps, key)
            case None => forall i | 0 <= i < |steps| :: Concerns(steps[i], key) ==> steps[i].status == PASS
            case Some(s) => exists i: nat :: i < |steps| && steps[i] == s && Concerns(s, key) && s.status != PASS
                                             && forall j | 0 <= j < i :: Concerns(steps[j], key) ==> steps[j].status == PASS
  {
    if steps != [] {
      var front, n := steps[..|steps| - 1], |steps| - 1;
      FirstFailureAt(front, key);
      hide Concerns;
      assert forall i | 0 <= i < n :: front[i] == steps[i];
      if FirstFailure(front, key).Some? {
        var i: nat :| i < |front| && front[i] == FirstFailure(front, key).value && Concerns(front[i], key)
                      && front[i].status != PASS
                      && forall j | 0 <= j < i :: Concerns(front[j], key) ==> front[j].status == PASS;
        assert steps[i] == front[i];
      }
    }
  }

  // ------------------------------------------------------------------ exits

  predicate Fails(e: Exit, key: string) {
    e.code != 0 && Key(RUNNER, e.mode) == key
  }

  function FirstBad(es: seq<Exit>, key: string): Option<Exit> {
    if es == [] then None
    else
      var first, e := FirstBad(es[..|es| - 1], key), es[|es| - 1];
      if first.None? && Fails(e, key) then Some(e) else first
  }

  lemma {:induction false} FirstBadAt(es: seq<Exit>, key: string)
    ensures match FirstBad(es, key)
            case None => forall i | 0 <= i < |es| :: !Fails(es[i], key)
            case Some(e) => exists i: nat :: i < |es| && es[i] == e && Fails(e, key)
                                             && forall j | 0 <= j < i :: !Fails(es[j], key)
  {
    if es != [] {
      var front, n := es[..|es| - 1], |es| - 1;
      FirstBadAt(front, key);
      hide Fails;
      assert forall i | 0 <= i < n :: front[i] == es[i];
      if FirstBad(front, key).Some? {
        var i: nat :| i < |front| && front[i] == FirstBad(front, key).value && Fails(front[i], key)
                      && forall j | 0 <= j < i :: !Fails(front[j], key);
        assert es[i] == front[i];
      }
    }
  }

  /** The item of a key after the exits. */
  function AfterExits(item: Option<Item>, bad: Option<Exit>): Option<Item> {
    match (item, bad)
    case (_, None) => item
    case (None, Some(e)) => Some(Item(RUNNER, e.mode, FAIL, 0.0, Some(ExitStep(e))))
    case (Some(i), Some(e)) =>
      Some(i.(status := FAIL, firstFailure := if i.firstFailure.Some? then i.firstFailure else Some(ExitStep(e))))
  }

  function At(m: map<string, Item>, key: string): Option<Item> {
    if key in m then Some(m[key]) else None
  }

  lemma {:induction false} ExitItems(t: Totals, es: seq<Exit>, hash: Fingerprinter, key: string)
    ensures At(AddExits(t, es, hash).capabilities, key) == AfterExits(At(t.capabilities, key), FirstBad(es, key))
  {
    hide Key, ExitStep;
    if es != [] {
      ExitItems(t, es[..|es| - 1], hash, key);
    }
  }

  // ------------------------------------------------------------------- gaps

  ghost predicate GapItemAt(steps: seq<Step>, ps: seq<Profile>, now: map<string, Item>, key: string) {
    Gapped(steps, ps, key) ==>
      key in now && exists j: nat, c :: GapAt(steps, ps, key, j, c) && now[key] == GapItem(c, ps[j].mode)
  }

  lemma GapItemNext(steps: seq<Step>, base: map<string, Item>, front: seq<Profile>, t: Totals, p: Profile, key: string)
    requires ModesOf(steps, base) && Profiled(base, steps, front, t.capabilities)
    requires forall q <- front :: q.mode != p.mode
    requires GapItemAt(steps, front, t.capabilities, key)
    ensures GapItemAt(steps, front + [p], AddProfile(t, p).capabilities, key)
  {
    var now, ps := t.capabilities, front + [p];
    var missing := p.declared - Reported(now, p.mode);
    GapsByKey(now, p.mode, Sorted(missing), key);
    forall c <- p.declared ensures c in missing <==> !Seen(steps, front, c, p.mode) {
      ReportedNext(steps, base, front, now, p.mode, c);
    }
    WritesNow(steps, front, p, key);
    hide Reported, ModesOf, Profiled, AddGaps, Seen, Gapped, GapItem, Key;
    if c :| Writes(steps, front, p, key, c) {
      assert ps[..|front|] == front && ps[|front|] == p;
      var d :| d in missing && Key(d, p.mode) == key && AddProfile(t, p).capabilities[key] == GapItem(d, p.mode);
      KeyIs(d, p.mode);
      assert GapAt(steps, ps, key, |front|, d);
    } else if Gapped(steps, ps, key) {
      var j: nat, c :| GapAt(steps, front, key, j, c) && now[key] == GapItem(c, front[j].mode);
      GapStays(steps, front, p, key, j, c);
    }
  }

  lemma KeyIs(c: string, mode: string)
    ensures Key(c, mode) == c + ":" + mode
  {
  }

  lemma WritesNow(steps: seq<Step>, front: seq<Profile>, p: Profile, key: string)
    ensures Gapped(steps, front + [p], key)
       <==> Gapped(steps, front, key) || exists c :: Writes(steps, front, p, key, c)
    ensures forall c :: Writes(steps, front, p, key, c)
                   <==> c in p.declared && Key(c, p.mode) == key && !Seen(steps, front, c, p.mode)
  {
    var ps := front + [p];
    assert ps[..|ps| - 1] == front && ps[|ps| - 1] == p;
    forall c ensures Writes(steps, front, p, key, c)
                <==> c in p.declared && Key(c, p.mode) == key && !Seen(steps, front, c, p.mode)
    {
      KeyIs(c, p.mode);
    }
    assert Gapped(steps, ps, key)
      <==> Gapped(steps, front, key) || exists c <- p.declared :: Key(c, p.mode) == key && !Seen(steps, front, c, p.mode);
    hide Seen, Writes, Key, Gapped;
    if c :| c in p.declared && Key(c, p.mode) == key && !Seen(steps, front, c, p.mode) {
      assert Writes(steps, front, p, key, c);
    }
    if c :| Writes(steps, front, p, key, c) {
      assert c in p.declared && Key(c, p.mode) == key && !Seen(steps, front, c, p.mode);
    }
  }

  lemma GapStays(steps: seq<Step>, front: seq<Profile>, p: Profile, key: string, j: nat, c: string)
    requires GapAt(steps, front, key, j, c) && forall d :: !Writes(steps, front, p, key, d)
    ensures GapAt(steps, front + [p], key, j, c) && (front + [p])[j] == front[j]
  {
    var ps := front + [p];
    assert forall k | 0 <= k <= |front| :: ps[..k] == front[..k];
    assert front[..|front|] == front;
    hide Writes;
  }

  lemma {:induction false} GapItems(steps: seq<Step>, t: Totals, ps: seq<Profile>, key: string)
    requires ModesOf(steps, t.capabilities) && DistinctModes(ps)
    ensures GapItemAt(steps, ps, AddProfiles(t, ps).capabilities, key)
  {
    if ps != [] {
      var front, p := ps[..|ps| - 1], ps[|ps| - 1];
      assert ps == front + [p] && forall q <- front :: q.mode != p.mode;
      GapItems(steps, t, front, key);
      ProfilesByKey(steps, t, front);
      hide AddProfile, Profiled, ModesOf, GapItemAt;
      GapItemNext(steps, t.capabilities, front, AddProfiles(t, front), p, key);
    }
  }

  // -------------------------------------------------------------- the items

  /** Whose an item of the report is and what it names as its first failure: a gap's,
      where a gap stands; else its first step's, with the first step that did not pass
      or else the first bad exit; else the first bad exit's. */
  ghost predicate Described(steps: seq<Step>, ps: seq<Profile>, es: seq<Exit>, key: string, item: Item) {
    if Gapped(steps, ps, key) then
      exists j: nat, c ::
        && GapAt(steps, ps, key, j, c)
        && item.capability == c && item.mode == ps[j].mode && item.firstFailure == Some(GapStep(c, ps[j].mode))
    else if exists i: nat :: FirstAt(steps, key, i) then
      && (exists i: nat :: FirstAt(steps, key, i) && item.capability == steps[i].capability && item.mode == steps[i].mode)
      && NamesFirst(steps, es, key, item.firstFailure)
    else
      exists i: nat ::
        && FirstBadExitAt(es, key, i) && item.capability == "journey.runner" && item.mode == es[i].mode
        && item.firstFailure == Some(BadExitStep(es[i]))
  }

  ghost predicate NamesFirst(steps: seq<Step>, es: seq<Exit>, key: string, first: Option<Step>) {
    if exists i: nat :: FirstNotPassedAt(steps, key, i) then
      exists i: nat :: FirstNotPassedAt(steps, key, i) && first == Some(steps[i])
    else if exists i: nat :: FirstBadExitAt(es, key, i) then
      exists i: nat :: FirstBadExitAt(es, key, i) && first == Some(BadExitStep(es[i]))
    else first == None
  }

  lemma FirstsExactly(steps: seq<Step>, es: seq<Exit>, key: string)
    ensures match FirstWith(steps, key)
            case None => forall i: nat :: !FirstAt(steps, key, i)
            case Some(s) => exists i: nat :: FirstAt(steps, key, i) && steps[i] == s
    ensures match FirstFailure(steps, key)
            case None => forall i: nat :: !FirstNotPassedAt(steps, key, i)
            case Some(s) => exists i: nat :: FirstNotPassedAt(steps, key, i) && steps[i] == s
    ensures match FirstBad(es, key)
            case None => forall i: nat :: !FirstBadExitAt(es, key, i)
            case Some(e) => exists i: nat :: FirstBadExitAt(es, key, i) && es[i] == e
  {
    FirstWithAt(steps, key);
    FirstFailureAt(steps, key);
    FirstBadAt(es, key);
    forall s ensures Concerns(s, key) <==> s.capability + ":" + s.mode == key {
      KeyOf(s, key);
    }
    forall e ensures Fails(e, key) <==> e.code != 0 && "journey.runner:" + e.mode == key {
      RunnerKey(e.mode);
    }
    hide Concerns, Fails, FirstWith, FirstFailure, FirstBad;
  }

  lemma RunnerKey(mode: string)
    ensures Key(RUNNER, mode) == "journey.runner:" + mode
  {
    assert RUNNER + ":" == "journey.runner:";
  }

  lemma BadExitStepIs(e: Exit)
    ensures ExitStep(e) == BadExitStep(e)
  {
  }

  lemma DescribedGap(steps: seq<Step>, ps: seq<Profile>, es: seq<Exit>, key: string, j: nat, c: string, item: Item)
    requires Gapped(steps, ps, key) && GapAt(steps, ps, key, j, c)
    requires Some(item) == AfterExits(Some(GapItem(c, ps[j].mode)), FirstBad(es, key))
    ensures Described(steps, ps, es, key, item)
  {
    assert GapItem(c, ps[j].mode).firstFailure == Some(GapStep(c, ps[j].mode));
    hide Gapped, GapAt, GapStep;
  }

  lemma DescribedStep(steps: seq<Step>, ps: seq<Profile>, es: seq<Exit>, key: string, base: Item, item: Item)
    requires !Gapped(steps, ps, key) && FirstWith(steps, key).Some?
    requires base.capability == FirstWith(steps, key).value.capability && base.mode == FirstWith(steps, key).value.mode
    requires base.firstFailure == FirstFailure(steps, key)
    requires Some(item) == AfterExits(Some(base), FirstBad(es, key))
    ensures Described(steps, ps, es, key, item)
  {
    FirstsExactly(steps, es, key);
    if FirstBad(es, key).Some? {
      BadExitStepIs(FirstBad(es, key).value);
    }
    hide Gapped, FirstAt, FirstNotPassedAt, FirstBadExitAt, BadExitStep, ExitStep;
    assert NamesFirst(steps, es, key, item.firstFailure);
  }

  lemma DescribedExit(steps: seq<Step>, ps: seq<Profile>, es: seq<Exit>, key: string, item: Item)
    requires !Gapped(steps, ps, key) && FirstWith(steps, key).None?
    requires Some(item) == AfterExits(None, FirstBad(es, key))
    ensures Described(steps, ps, es, key, item)
  {
    FirstsExactly(steps, es, key);
    BadExitStepIs(FirstBad(es, key).value);
    hide Gapped, FirstAt, FirstBadExitAt, BadExitStep, ExitStep;
  }

  /** Every item of the report, whatever the steps, profiles and exits. */
  lemma ItemsExactly(results: seq<seq<Step>>, ps: seq<Profile>, es: seq<Exit>, hash: Fingerprinter, key: string)
    requires DistinctModes(ps) && key in Aggregated(results, ps, es, hash).capabilities
    ensures Described(Effective(results), ps, es, key, Aggregated(results, ps, es, hash).capabilities[key])
  {
    var steps := Effective(results);
    var t1 := AddSteps(steps, hash);
    var t2 := AddProfiles(t1, ps);
    var item := AddExits(t2, es, hash).capabilities[key];
    StepsSummarised(steps, hash, key);
    StepsGiveModes(steps, hash);
    ProfilesByKey(steps, t1, ps);
    GapItems(steps, t1, ps, key);
    ExitItems(t2, es, hash, key);
    assert ProfiledKey(t1.capabilities, steps, ps, t2.capabilities, key);
    assert ModesOf(steps, t1.capabilities);
    assert key in t1.capabilities <==> FirstWith(steps, key).Some?;
    hide Effective, AddSteps, AddProfiles, AddExits, Profiled, Gapped, ModesOf, GapAt, FirstWith, FirstFailure, FirstBad,
         Worst, Duration, Mentioned, Key, GapItem, Described;
    if Gapped(steps, ps, key) {
      var j: nat, c :| GapAt(steps, ps, key, j, c) && t2.capabilities[key] == GapItem(c, ps[j].mode);
      DescribedGap(steps, ps, es, key, j, c, item);
    } else if key in t1.capabilities {
      DescribedStep(steps, ps, es, key, t1.capabilities[key], item);
    } else {
      DescribedExit(steps, ps, es, key, item);
    }
  }

  // ----------------------------------------------------------- the failures

  /** All that is reported as failed, in the order in which it is written. */
  function FailedSteps(steps: seq<Step>): seq<Step> {
    if steps == [] then []
    else FailedSteps(steps[..|steps| - 1]) + (if steps[|steps| - 1].status == FAIL then [steps[|steps| - 1]] else [])
  }

  function ExitSteps(es: seq<Exit>): seq<Step> {
    if es == [] then []
    else ExitSteps(es[..|es| - 1]) + (if es[|es| - 1].code != 0 then [BadExitStep(es[|es| - 1])] else [])
  }

  /** The last of these with the fingerprint. */
  ghost predicate LastUnder(failed: seq<Step>, hash: Fingerprinter, f: string, i: nat) {
    && i < |failed| && hash(failed[i].capability, failed[i].mode, failed[i].name) == f
    && forall j | i < j < |failed| :: hash(failed[j].capability, failed[j].mode, failed[j].name) != f
  }

  ghost predicate Keeps(failures: map<string, Step>, failed: seq<Step>, hash: Fingerprinter) {
    && (forall s <- failed :: hash(s.capability, s.mode, s.name) in failures)
    && forall f <- failures :: exists i: nat :: LastUnder(failed, hash, f, i) && failures[f] == failed[i]
  }

  lemma KeepsNext(failures: map<string, Step>, failed: seq<Step>, hash: Fingerprinter, s: Step)
    requires Keeps(failures, failed, hash)
    ensures Keeps(failures[hash(s.capability, s.mode, s.name) := s], failed + [s], hash)
  {
    var now, all := failures[hash(s.capability, s.mode, s.name) := s], failed + [s];
    forall f <- now ensures exists i: nat :: LastUnder(all, hash, f, i) && now[f] == all[i] {
      if f == hash(s.capability, s.mode, s.name) {
        assert LastUnder(all, hash, f, |failed|);
      } else {
        var i: nat :| LastUnder(failed, hash, f, i) && failures[f] == failed[i];
        assert LastUnder(all, hash, f, i);
      }
    }
  }

  lemma {:induction false} StepFailures(steps: seq<Step>, hash: Fingerprinter)
    ensures Keeps(AddSteps(steps, hash).failures, FailedSteps(steps), hash)
  {
    if steps != [] {
      var front, s := steps[..|steps| - 1], steps[|steps| - 1];
      StepFailures(front, hash);
      if s.status == FAIL {
        KeepsNext(AddSteps(front, hash).failures, FailedSteps(front), hash, s);
      }
      hide Keeps, Key;
      assert FailedSteps(front) + [] == FailedSteps(front);
    }
  }

  lemma {:induction false} ExitFailures(t: Totals, failed: seq<Step>, es: seq<Exit>, hash: Fingerprinter)
    requires Keeps(t.failures, failed, hash)
    ensures Keeps(AddExits(t, es, hash).failures, failed + ExitSteps(es), hash)
  {
    if es == [] {
      assert failed + [] == failed;
    } else {
      var front, e := es[..|es| - 1], es[|es| - 1];
      ExitFailures(t, failed, front, hash);
      BadExitStepIs(e);
      if e.code != 0 {
        KeepsNext(AddExits(t, front, hash).failures, failed + ExitSteps(front), hash, BadExitStep(e));
        assert failed + ExitSteps(es) == failed + ExitSteps(front) + [BadExitStep(e)];
      } else {
        assert ExitSteps(es) == ExitSteps(front) + [] == ExitSteps(front);
      }
      hide Keeps, Key, ExitStep, BadExitStep, ExitSteps;
    }
  }

  /** The failures of a report: what failed, each under its own fingerprint, and of
      several with one fingerprint the last. */
  lemma FailuresKept(results: seq<seq<Step>>, ps: seq<Profile>, es: seq<Exit>, hash: Fingerprinter)
    ensures Keeps(Aggregated(results, ps, es, hash).failures, FailedSteps(Effective(results)) + ExitSteps(es), hash)
  {
    var t := AddSteps(Effective(results), hash);
    StepFailures(Effective(results), hash);
    AddProfilesFailures(t, ps);
    ExitFailures(AddProfiles(t, ps), FailedSteps(Effective(results)), es, hash);
  }

  // -------------------------------------------------------- reports of nothing

  function NothingReported(name: string, message: string): Step {
    Step("journey.runner", "unknown", name, FAIL, 0.0, message)
  }

  /** Without results, or without a step in them, the runner itself is shown as failed. */
  lemma EmptyReports(results: seq<seq<Step>>, hash: Fingerprinter)
    requires forall i | 0 <= i < |results| :: results[i] == []
    ensures Effective(results)
         == if results == []
            then [NothingReported("result files", "no journey results were provided to the aggregator")]
            else [NothingReported("capability results", "journey result files contained no capability steps")]
    ensures Overall(Aggregated(results, [], [], hash), false) == FAIL
  {
    FlatNothing(results);
    ReportedFailures(results, [], [], hash);
    assert Effective(results)[0] in Effective(results);
    hide Aggregated;
  }

  lemma {:induction false} FlatNothing(results: seq<seq<Step>>)
    requires forall i | 0 <= i < |results| :: results[i] == []
    ensures Flatten(results) == []
  {
    if results != [] {
      FlatNothing(results[..|results| - 1]);
    }
  }

  /** With any step in the results, the steps of all results count, result by result. */
  lemma StepsCount(results: seq<seq<Step>>, more: seq<Step>)
    ensures Flatten([]) == [] && Flatten(results + [more]) == Flatten(results) + more
    ensures results != [] && Flatten(results) != [] ==> Effective(results) == Flatten(results)
  {
    assert (results + [more])[..|results|] == results;
  }

  /** Incomplete case coverage fails the report, whatever else it shows. */
  lemma CoverageFails(t: Totals)
    ensures Overall(t, true) == FAIL
  {
  }
}

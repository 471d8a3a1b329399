/** Keeping the run state of installer hosts across a fixture that may change it. */
module HostLifecycle {
  import opened Options

  datatype Root = Root(path: string)

  /** Which hosts run; each root has its own host. */
  type Hosts = map<Root, bool>

  /** How a body left the context: Interrupted is an exception outside Exception. */
  datatype Body = Completed | Raised(error: string) | Interrupted

  /** What the launcher does for one root on the way out. A refused change may
      have taken effect all the same. */
  datatype Launcher = Works | Unreadable | Refuses(takesEffect: bool)

  datatype Outcome =
    | NotEntered(root: Root)
    | Left(body: Body)
    | NotRestored(failures: seq<Root>, body: Body)

  /** The keys of a dictionary filled from roots, in order. */
  function Distinct(roots: seq<Root>): (distinct: seq<Root>)
    ensures forall root :: root in distinct <==> root in roots
  {
    if roots == [] then [] else
    var before := Distinct(roots[..|roots| - 1]);
    var last := roots[|roots| - 1];
    assert roots == roots[..|roots| - 1] + [last];
    if last in before then before else before + [last]
  }

  lemma {:induction false} DistinctOnce(roots: seq<Root>)
    ensures forall i, j | 0 <= i < j < |Distinct(roots)| :: Distinct(roots)[i] != Distinct(roots)[j]
  {
    if roots != [] {
      DistinctOnce(roots[..|roots| - 1]);
    }
  }

  /** The launcher fails where it cannot read a root, or has to change it and refuses. */
  predicate Fails(launcher: Launcher, changed: bool) {
    launcher.Unreadable? || (launcher.Refuses? && changed)
  }

  /** What preserve has to know of every root. */
  ghost predicate Known(roots: seq<Root>, before: Hosts, after: Hosts, launcher: map<Root, Launcher>) {
    forall root | root in roots :: root in before && root in after && root in launcher
  }

  /** The failing roots from position first on, last root first. */
  function Failures(roots: seq<Root>, first: nat, before: Hosts, after: Hosts, launcher: map<Root, Launcher>): seq<Root>
    requires Known(roots, before, after, launcher)
    decreases |roots| - first
  {
    if first >= |roots| then [] else
    var root := roots[first];
    Failures(roots, first + 1, before, after, launcher)
    + (if Fails(launcher[root], after[root] != before[root]) then [root] else [])
  }

  lemma {:induction false} FailuresExactly(roots: seq<Root>, first: nat, before: Hosts, after: Hosts,
                                           launcher: map<Root, Launcher>)
    requires first <= |roots| && Known(roots, before, after, launcher)
    ensures forall root :: root in Failures(roots, first, before, after, launcher) <==>
              root in roots[first..] && Fails(launcher[root], after[root] != before[root])
    decreases |roots| - first
  {
    if first < |roots| {
      FailuresExactly(roots, first + 1, before, after, launcher);
      assert roots[first..] == [roots[first]] + roots[first + 1..];
    }
  }

  /** The states before the body; None unless every root can be read. */
  method Inspect(hosts: Hosts, roots: seq<Root>, unreadable: set<Root>)
    returns (initial: Hosts, order: seq<Root>, refused: Option<Root>)
    requires forall root | root in roots :: root in hosts
    ensures refused.Some? <==> exists root :: root in roots && root in unreadable
    ensures refused.None? ==> order == Distinct(roots)
    ensures refused.None? ==> forall root | root in roots :: root in initial && initial[root] == hosts[root]
  {
    initial, order, refused := map[], [], None;
    for i := 0 to |roots|
      invariant order == Distinct(roots[..i])
      invariant forall root :: root in initial <==> root in roots[..i]
      invariant forall root | root in roots[..i] :: initial[root] == hosts[root] && root !in unreadable
    {
      if roots[i] in unreadable {
        refused := Some(roots[i]);
        return;
      }
      assert roots[..i + 1][..i] == roots[..i] && roots[..i + 1] == roots[..i] + [roots[i]];
      if roots[i] !in initial {
        order := order + [roots[i]];
      }
      initial := initial[roots[i] := hosts[roots[i]]];
    }
    assert roots[..|roots|] == roots;
  }

  /** One root on the way out: read it, and change it back if it differs. */
  method RestoreRoot(now: bool, was: bool, launcher: Launcher) returns (restored: bool, raised: bool)
    ensures raised <==> launcher == Unreadable || (launcher.Refuses? && now != was)
    ensures !raised ==> restored == was
  {
    if launcher.Unreadable? {
      return now, true;
    }
    if now == was {
      return now, false;
    }
    return if launcher == Refuses(false) then now else was, launcher.Refuses?;
  }

  /** The roots from the i-th on have had their turn, the others not. */
  ghost predicate Visited(hosts: Hosts, order: seq<Root>, i: nat, initial: Hosts, after: Hosts,
                          launcher: map<Root, Launcher>)
    requires Known(order, initial, after, launcher)
  {
    && i <= |order| && hosts.Keys == after.Keys
    && (forall root | root in after && root !in order[i..] :: hosts[root] == after[root])
    && (forall root | root in order[i..] ::
          hosts[root] == initial[root] || Fails(launcher[root], after[root] != initial[root]))
  }

  lemma VisitedStep(hosts: Hosts, order: seq<Root>, i: nat, initial: Hosts, after: Hosts,
                    launcher: map<Root, Launcher>, restored: bool)
    requires Known(order, initial, after, launcher) && Visited(hosts, order, i, initial, after, launcher) && i > 0
    requires forall j | 0 <= j < |order| && j != i - 1 :: order[j] != order[i - 1]
    ensures order[i - 1] in hosts && hosts[order[i - 1]] == after[order[i - 1]]
    ensures restored == initial[order[i - 1]] || Fails(launcher[order[i - 1]], after[order[i - 1]] != initial[order[i - 1]]) ==>
              Visited(hosts[order[i - 1] := restored], order, i - 1, initial, after, launcher)
  {
    assert order[i - 1..] == [order[i - 1]] + order[i..];
    assert order[i - 1] !in order[i..];
    hide Fails;
  }

  method Restore(after: Hosts, order: seq<Root>, initial: Hosts, launcher: map<Root, Launcher>)
    returns (hosts: Hosts, failures: seq<Root>)
    requires Known(order, initial, after, launcher)
    requires forall i, j | 0 <= i < j < |order| :: order[i] != order[j]
    ensures Visited(hosts, order, 0, initial, after, launcher)
    ensures failures == Failures(order, 0, initial, after, launcher)
  {
    hosts, failures := after, [];
    var i := |order|;
    assert Visited(hosts, order, i, initial, after, launcher);
    hide Visited;
    while i > 0
      invariant 0 <= i <= |order| && Visited(hosts, order, i, initial, after, launcher)
      invariant failures == Failures(order, i, initial, after, launcher)
    {
      var root := order[i - 1];
      VisitedStep(hosts, order, i, initial, after, launcher, initial[root]);
      var restored, raised := RestoreRoot(hosts[root], initial[root], launcher[root]);
      VisitedStep(hosts, order, i, initial, after, launcher, restored);
      hosts := hosts[root := restored];
      i := i - 1;
      if raised {
        failures := failures + [root];
      }
    }
  }

  function Reported(failures: seq<Root>, body: Body): (outcome: Outcome)
    ensures !outcome.NotEntered?
  {
    if failures == [] then Left(body) else NotRestored(failures, body)
  }

  /** preserve(roots) around a body that finds the hosts as before and leaves them
      as after. */
  method Preserve(before: Hosts, roots: seq<Root>, body: Body, after: Hosts, unreadable: set<Root>,
                  launcher: map<Root, Launcher>) returns (outcome: Outcome, hosts: Hosts)
    requires Known(roots, before, after, launcher)
    // nothing happens unless every root could be inspected first
    ensures outcome.NotEntered? <==> exists root :: root in roots && root in unreadable
    ensures outcome.NotEntered? ==> hosts == before
    // every root is attempted: one the launcher serves is back, even after another failed
    ensures !outcome.NotEntered? ==> hosts.Keys == after.Keys
    ensures !outcome.NotEntered? ==> forall root | root in after && root !in roots :: hosts[root] == after[root]
    ensures !outcome.NotEntered? ==>
              forall root | root in roots ::
                hosts[root] == before[root] || Fails(launcher[root], after[root] != before[root])
    // all failures are reported, and nothing else hides how the body ended
    ensures !outcome.NotEntered? ==>
              var failures := Failures(Distinct(roots), 0, before, after, launcher);
              && (failures == [] ==> outcome == Left(body))
              && (failures != [] ==> outcome == NotRestored(failures, body))
    // no report: every root is as it was
    ensures outcome == Left(body) ==> forall root | root in roots :: hosts[root] == before[root]
  {
    DistinctOnce(roots);
    var initial, order, refused := Inspect(before, roots, unreadable);
    if refused.Some? {
      return NotEntered(refused.value), before;
    }
    SameFailures(order, 0, initial, before, after, launcher);
    FailuresExactly(order, 0, before, after, launcher);
    var failures;
    hosts, failures := Restore(after, order, initial, launcher);
    assert order[0..] == order;
    outcome := Reported(failures, body);
  }

  lemma {:induction false} SameFailures(roots: seq<Root>, first: nat, a: Hosts, b: Hosts, after: Hosts,
                                        launcher: map<Root, Launcher>)
    requires Known(roots, a, after, launcher) && Known(roots, b, after, launcher)
    requires forall root | root in roots :: a[root] == b[root]
    ensures Failures(roots, first, a, after, launcher) == Failures(roots, first, b, after, launcher)
    decreases |roots| - first
  {
    if first < |roots| {
      SameFailures(roots, first + 1, a, b, after, launcher);
    }
  }

  // ------------------------------------------------------------- the orders

  /** Root x comes first in roots before root y does. */
  ghost predicate ComesBefore(roots: seq<Root>, x: Root, y: Root) {
    exists i: nat :: i < |roots| && roots[i] == x && forall j | 0 <= j <= i :: roots[j] != y
  }

  /** The dictionary keeps the roots in the order of their first mention. */
  lemma {:induction false} DistinctInOrder(roots: seq<Root>)
    ensures forall i, j | 0 <= i < j < |Distinct(roots)| :: ComesBefore(roots, Distinct(roots)[i], Distinct(roots)[j])
  {
    if roots != [] {
      var front, last := roots[..|roots| - 1], roots[|roots| - 1];
      var earlier, now := Distinct(front), Distinct(roots);
      DistinctInOrder(front);
      forall i, j | 0 <= i < j < |now| ensures ComesBefore(roots, now[i], now[j]) {
        if j < |earlier| {
          assert ComesBefore(front, earlier[i], earlier[j]);
          var k: nat :| k < |front| && front[k] == earlier[i] && forall l | 0 <= l <= k :: front[l] != earlier[j];
          assert roots[k] == front[k] && forall l | 0 <= l <= k :: roots[l] == front[l];
        } else {
          assert now[i] == earlier[i] && earlier[i] in earlier;
          var k: nat :| k < |front| && front[k] == earlier[i];
          assert last !in front;
          assert roots[k] == front[k] && forall l | 0 <= l <= k :: roots[l] == front[l] && front[l] in front;
        }
      }
    }
  }

  /** The failures are listed from the last root back to the first. */
  lemma {:induction false} FailuresInReverse(roots: seq<Root>, first: nat, before: Hosts, after: Hosts,
                                             launcher: map<Root, Launcher>) returns (at: seq<nat>)
    requires first <= |roots| && Known(roots, before, after, launcher)
    ensures |at| == |Failures(roots, first, before, after, launcher)|
    ensures forall i, j | 0 <= i < j < |at| :: at[i] > at[j]
    ensures forall k | 0 <= k < |at| ::
              first <= at[k] < |roots| && Failures(roots, first, before, after, launcher)[k] == roots[at[k]]
    decreases |roots| - first
  {
    if first == |roots| {
      at := [];
    } else {
      at := FailuresInReverse(roots, first + 1, before, after, launcher);
      if Fails(launcher[roots[first]], after[roots[first]] != before[roots[first]]) {
        at := at + [first];
      }
    }
  }
}

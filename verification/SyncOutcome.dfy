/** What one sync answers and leaves behind, said of issues and failures alone. */
module SyncOutcome {
  import opened Options
  import opened IssueSync

  /** An issue listed before the sync carries the failure's marker. */
  ghost predicate Carried(issues: seq<Issue>, fingerprint: string) {
    exists x <- issues :: "nightly-fingerprint:" + fingerprint in x.labels
  }

  /** answer names, in the order of the report, the failures at the given positions:
      those whose marker is carried, or those whose marker is not. */
  ghost predicate Picked(issues: seq<Issue>, fs: seq<Failure>, carried: bool, answer: seq<string>, at: seq<nat>) {
    && |at| == |answer|
    && (forall i, j | 0 <= i < j < |at| :: at[i] < at[j])
    && (forall k | 0 <= k < |at| :: at[k] < |fs| && answer[k] == fs[at[k]].fingerprint)
    && (forall i: nat | i < |fs| :: i in at <==> Carried(issues, fs[i].fingerprint) == carried)
  }

  lemma KnownIsCarried(issues: seq<Issue>, fingerprint: string)
    ensures Marker(fingerprint) in ByMarker(issues) <==> Carried(issues, fingerprint)
  {
    MarkersFromIssues(issues);
    MarkerInverse(fingerprint);
    assert Marker(fingerprint) == "nightly-fingerprint:" + fingerprint;
  }

  lemma {:induction false} PickedInOrder(issues: seq<Issue>, fs: seq<Failure>, carried: bool) returns (at: seq<nat>)
    ensures Picked(issues, fs, carried, Fingerprints(ByMarker(issues), fs, carried), at)
  {
    if fs == [] {
      at := [];
    } else {
      var front, f := fs[..|fs| - 1], fs[|fs| - 1];
      at := PickedInOrder(issues, front, carried);
      KnownIsCarried(issues, f.fingerprint);
      PickNext(issues, front, f, carried, Fingerprints(ByMarker(issues), front, carried), at);
      assert fs == front + [f];
      if Carried(issues, f.fingerprint) == carried {
        at := at + [|front|];
      }
    }
  }

  lemma PickNext(issues: seq<Issue>, front: seq<Failure>, f: Failure, carried: bool, answer: seq<string>, at: seq<nat>)
    requires Picked(issues, front, carried, answer, at)
    ensures if Carried(issues, f.fingerprint) == carried
            then Picked(issues, front + [f], carried, answer + [f.fingerprint], at + [|front|])
            else Picked(issues, front + [f], carried, answer, at)
  {
    hide Carried;
    var fs := front + [f];
    assert |front| !in at;
    forall i: nat | i < |fs|
      ensures i in at + [|front|] <==> i in at || i == |front|
      ensures i < |front| ==> fs[i] == front[i]
    {
    }
  }

  lemma {:induction false} EachIsOne(known: map<string, Issue>, fs: seq<Failure>)
    ensures |Fingerprints(known, fs, false)| + |Fingerprints(known, fs, true)| == |fs|
  {
    if fs != [] {
      EachIsOne(known, fs[..|fs| - 1]);
    }
  }

  /** created and updated share out the failures of the report, in its order: a failure
      is updated exactly when some issue listed before carries its marker. */
  lemma AnswersExactly(issues: seq<Issue>, fs: seq<Failure>)
    ensures exists at :: Picked(issues, fs, false, Fingerprints(ByMarker(issues), fs, false), at)
    ensures exists at :: Picked(issues, fs, true, Fingerprints(ByMarker(issues), fs, true), at)
    ensures |Fingerprints(ByMarker(issues), fs, false)| + |Fingerprints(ByMarker(issues), fs, true)| == |fs|
    ensures forall f <- fs :: f.fingerprint in Fingerprints(ByMarker(issues), fs, true) <==> Carried(issues, f.fingerprint)
    ensures forall f <- fs :: f.fingerprint in Fingerprints(ByMarker(issues), fs, false) <==> !Carried(issues, f.fingerprint)
  {
    EachIsOne(ByMarker(issues), fs);
    forall carried: bool
      ensures exists at :: Picked(issues, fs, carried, Fingerprints(ByMarker(issues), fs, carried), at)
      ensures forall f <- fs ::
                f.fingerprint in Fingerprints(ByMarker(issues), fs, carried) <==> Carried(issues, f.fingerprint) == carried
    {
      var at := PickedInOrder(issues, fs, carried);
      PickedMembers(issues, fs, carried, Fingerprints(ByMarker(issues), fs, carried), at);
    }
  }

  lemma PickedMembers(issues: seq<Issue>, fs: seq<Failure>, carried: bool, answer: seq<string>, at: seq<nat>)
    requires Picked(issues, fs, carried, answer, at)
    ensures forall f <- fs :: f.fingerprint in answer <==> Carried(issues, f.fingerprint) == carried
  {
    hide Carried;
    forall f <- fs ensures f.fingerprint in answer <==> Carried(issues, f.fingerprint) == carried {
      var i: nat :| i < |fs| && fs[i] == f;
      if i in at {
        var k :| 0 <= k < |at| && at[k] == i;
        assert answer[k] == f.fingerprint;
      }
      if f.fingerprint in answer {
        var k :| 0 <= k < |answer| && answer[k] == f.fingerprint;
        assert at[k] in at;
      }
    }
  }

  /** Issue i is the last listed with the marker of this fingerprint. */
  ghost predicate LastCarrier(issues: seq<Issue>, fingerprint: string, i: nat) {
    && i < |issues| && "nightly-fingerprint:" + fingerprint in issues[i].labels
    && forall j | i < j < |issues| :: "nightly-fingerprint:" + fingerprint !in issues[j].labels
  }

  lemma {:induction false} LeadsToLast(issues: seq<Issue>, fingerprint: string)
    ensures Marker(fingerprint) in ByMarker(issues) ==>
              exists i: nat :: LastCarrier(issues, fingerprint, i) && ByMarker(issues)[Marker(fingerprint)] == issues[i]
    ensures Marker(fingerprint) !in ByMarker(issues) ==> forall i: nat :: !LastCarrier(issues, fingerprint, i)
  {
    MarkerInverse(fingerprint);
    assert Marker(fingerprint) == "nightly-fingerprint:" + fingerprint;
    if issues != [] {
      var front, n := issues[..|issues| - 1], |issues| - 1;
      LeadsToLast(front, fingerprint);
      if Marker(fingerprint) in issues[n].labels {
        assert LastCarrier(issues, fingerprint, n);
      } else {
        forall i: nat ensures LastCarrier(issues, fingerprint, i) <==> LastCarrier(front, fingerprint, i) {
          assert i < n ==> front[i] == issues[i];
          assert forall j | i < j < n :: front[j] == issues[j];
        }
      }
    }
  }

  /** closed names exactly the fingerprints that are no failure's and whose issue was
      listed open. */
  lemma ClosedExactly(issues: seq<Issue>, r: Report, fingerprint: string)
    ensures fingerprint in (set m <- Stale(ByMarker(issues), Active(r)) :: Fingerprint(m))
       <==> && (forall f <- r.failures :: f.fingerprint != fingerprint)
            && exists i: nat :: LastCarrier(issues, fingerprint, i) && issues[i].open
  {
    var known := ByMarker(issues);
    var m := Marker(fingerprint);
    MarkerInverse(fingerprint);
    LeadsToLast(issues, fingerprint);
    assert fingerprint in Active(r) <==> exists f <- r.failures :: f.fingerprint == fingerprint;
    forall i: nat, j: nat | LastCarrier(issues, fingerprint, i) && LastCarrier(issues, fingerprint, j) ensures i == j {
    }
    forall n | n in Stale(known, Active(r)) && Fingerprint(n) == fingerprint ensures n == m {
      MarkerInverse(n);
    }
    hide Active, ByMarker, LastCarrier;
  }

  /** Which issue shows the status: the pinned one if it is listed, else the first one
      with the status title and label. */
  ghost predicate ShowsStatus(issues: seq<Issue>, pinned: nat, i: nat) {
    && i < |issues|
    && if pinned != 0 && exists x <- issues :: x.number == pinned then issues[i].number == pinned
       else && issues[i].title == "Nightly status" && "nightly-status" in issues[i].labels
            && forall j | 0 <= j < i :: !(issues[j].title == "Nightly status" && "nightly-status" in issues[j].labels)
  }

  lemma {:induction false} FirstStatusAt(issues: seq<Issue>)
    ensures match FirstStatus(issues)
            case None => forall x <- issues :: !IsStatus(x)
            case Some(n) =>
              exists i: nat :: i < |issues| && issues[i].number == n && IsStatus(issues[i])
                               && forall j | 0 <= j < i :: !IsStatus(issues[j])
  {
    if issues != [] && !IsStatus(issues[0]) {
      var rest := issues[1..];
      FirstStatusAt(rest);
      assert issues == [issues[0]] + rest;
      match FirstStatus(rest) {
        case None =>
        case Some(n) =>
          var i: nat :| i < |rest| && rest[i].number == n && IsStatus(rest[i]) && forall j | 0 <= j < i :: !IsStatus(rest[j]);
          assert issues[i + 1] == rest[i] && forall j | 0 <= j < i + 1 :: issues[j] == if j == 0 then issues[0] else rest[j - 1];
      }
    }
  }

  lemma StatusExactly(b: Board, pinned: nat, i: nat)
    requires Numbered(b) && i < |b.issues|
    ensures StatusTarget(b.issues, pinned) == Some(b.issues[i].number) <==> ShowsStatus(b.issues, pinned, i)
  {
    FirstStatusAt(b.issues);
    assert (exists x <- b.issues :: x.number == pinned) <==> exists j | 0 <= j < |b.issues| :: b.issues[j].number == pinned;
    assert IsStatus(b.issues[i]) <==> b.issues[i].title == "Nightly status" && "nightly-status" in b.issues[i].labels;
    hide FirstStatus;
  }

  /** The issue i of a tidy tracker after a sync, field by field: a failing fingerprint
      rewrites and opens it; else the status does, if it shows it; a fingerprint that
      does not fail closes it if it was listed open; nothing else changes. */
  lemma OldIssueExactly(b: Board, r: Report, pinned: nat, i: nat)
    requires Numbered(b) && Tidy(b.issues) && DistinctFailures(r.failures) && i < |b.issues|
    ensures i < |Synced(b, r, pinned).issues|
    ensures var x, y := b.issues[i], Synced(b, r, pinned).issues[i];
            && y.number == x.number && y.labels == x.labels
            && (forall f <- r.failures | "nightly-fingerprint:" + f.fingerprint in x.labels ::
                  y.title == f.title && y.body == f.body && y.open)
            && ((forall f <- r.failures :: "nightly-fingerprint:" + f.fingerprint !in x.labels) ==>
                  && (if ShowsStatus(b.issues, pinned, i) then y.title == "Nightly status" && y.body == r.statusBody
                      else y.title == x.title && y.body == x.body)
                  && (y.open <==> if exists m <- x.labels :: "nightly-fingerprint:" <= m
                                  then ShowsStatus(b.issues, pinned, i) && !x.open
                                  else ShowsStatus(b.issues, pinned, i) || x.open))
  {
    var x := b.issues[i];
    SyncedByIssue(b, r, pinned);
    StatusExactly(b, pinned, i);
    FinalKeepsIdentity(b, r, pinned, x);
    assert Synced(b, r, pinned).issues[i] == Final(b, r, pinned, x);
    forall f <- r.failures | "nightly-fingerprint:" + f.fingerprint in x.labels
      ensures ShowsFailure(Final(b, r, pinned, x), f)
    {
      assert Marker(f.fingerprint) == "nightly-fingerprint:" + f.fingerprint;
      FinalShowsFailure(b, r, pinned, x, f);
    }
    if forall f <- r.failures :: "nightly-fingerprint:" + f.fingerprint !in x.labels {
      NotFailing(b, r, pinned, x);
    }
    hide Synced, Final, ShowsStatus, Tidy, Numbered;
  }

  lemma NotFailing(b: Board, r: Report, pinned: nat, x: Issue)
    requires Numbered(b) && Tidy(b.issues) && x in b.issues
    requires forall f <- r.failures :: "nightly-fingerprint:" + f.fingerprint !in x.labels
    ensures var y, status := Final(b, r, pinned, x), StatusTarget(b.issues, pinned) == Some(x.number);
            && (if status then y.title == "Nightly status" && y.body == r.statusBody
                else y.title == x.title && y.body == x.body)
            && (y.open <==> if exists m <- x.labels :: "nightly-fingerprint:" <= m then status && !x.open else status || x.open)
  {
    forall f <- r.failures ensures Marker(f.fingerprint) !in x.labels {
      assert Marker(f.fingerprint) == "nightly-fingerprint:" + f.fingerprint;
    }
    RecordedByMarker(b, r.failures, x);
    assert FailureFor(ByMarker(b.issues), r.failures, x.number) == None;
    if m :| m in x.labels && IsMarker(m) {
      FinalOfMarked(b, r, pinned, x, m);
      MarkerInverse(m);
      forall f <- r.failures ensures f.fingerprint != Fingerprint(m) {
        assert Marker(f.fingerprint) == "nightly-fingerprint:" + f.fingerprint;
      }
      assert Fingerprint(m) !in Active(r);
    } else {
      FinalUnmarked(b, r, pinned, x);
    }
    hide ByMarker, Stale, Active, FailureFor;
  }

  /** The issues a sync adds, field by field: a status issue if none shows the status,
      then one for each failure whose marker is not carried, in the order of the report. */
  lemma NewIssuesExactly(b: Board, r: Report, pinned: nat) returns (at: seq<nat>)
    requires Numbered(b)
    ensures Picked(b.issues, r.failures, false, Fingerprints(ByMarker(b.issues), r.failures, false), at)
    ensures AddedAfter(b, r, pinned, Synced(b, r, pinned).issues, at)
  {
    var next := b.next + |StatusIssues(b, r, pinned)|;
    SyncedIssues(b, r, pinned);
    hide Synced, StatusIssues, Opened, ByMarker, Follow, MadeFrom, Picked, Fingerprints, Numbered;
    at := OpenedInOrder(b.issues, r.failures, next);
  }

  /** After the first n issues come these, then those. */
  ghost predicate Follow(n: nat, all: seq<Issue>, status: seq<Issue>, made: seq<Issue>) {
    && |all| >= n + |status| && all[n..n + |status|] == status && all[n + |status|..] == made
  }

  lemma SyncedIssues(b: Board, r: Report, pinned: nat)
    requires Numbered(b)
    ensures Follow(|b.issues|, Synced(b, r, pinned).issues, StatusIssues(b, r, pinned),
                   Opened(ByMarker(b.issues), r.failures, b.next + |StatusIssues(b, r, pinned)|))
  {
    var status := StatusIssues(b, r, pinned);
    var made := Opened(ByMarker(b.issues), r.failures, b.next + |status|);
    AddedByKind(b, r, pinned);
    SyncedByIssue(b, r, pinned);
    hide *;
    AfterOld(Synced(b, r, pinned).issues, FinalAll(b, r, pinned), status, made);
  }

  lemma AddedByKind(b: Board, r: Report, pinned: nat)
    requires Numbered(b)
    ensures Added(b, r, pinned)
         == StatusIssues(b, r, pinned) + Opened(ByMarker(b.issues), r.failures, b.next + |StatusIssues(b, r, pinned)|)
  {
    StatusIs(b, r, pinned);
    hide StatusIssues, Opened, ByMarker, NewStatus;
  }

  lemma StatusIs(b: Board, r: Report, pinned: nat)
    requires Numbered(b)
    ensures StatusIssues(b, r, pinned) == NewStatus(b, r, pinned)
  {
    StatusSomewhere(b, pinned);
    hide ShowsStatus, StatusTarget;
  }

  ghost function StatusIssues(b: Board, r: Report, pinned: nat): seq<Issue> {
    if exists i: nat :: ShowsStatus(b.issues, pinned, i) then []
    else [Issue(b.next, "Nightly status", r.statusBody, ["nightly", "nightly-status"], true)]
  }

  ghost predicate AddedAfter(b: Board, r: Report, pinned: nat, all: seq<Issue>, at: seq<nat>) {
    exists made ::
      && Follow(|b.issues|, all, StatusIssues(b, r, pinned), made)
      && MadeFrom(made, r.failures, b.next + |StatusIssues(b, r, pinned)|, at)
  }

  /** One new issue for each position, in order. */
  ghost predicate MadeFrom(made: seq<Issue>, fs: seq<Failure>, next: nat, at: seq<nat>) {
    |made| == |at| && forall k | 0 <= k < |at| :: at[k] < |fs| && made[k] == NewIssue(next + k, fs[at[k]])
  }

  lemma MadeNext(made: seq<Issue>, front: seq<Failure>, f: Failure, next: nat, at: seq<nat>)
    requires MadeFrom(made, front, next, at)
    ensures MadeFrom(made, front + [f], next, at)
    ensures MadeFrom(made + [NewIssue(next + |made|, f)], front + [f], next, at + [|front|])
  {
    hide NewIssue;
    assert (front + [f])[|front|] == f;
  }

  lemma AfterOld(all: seq<Issue>, earlier: seq<Issue>, status: seq<Issue>, made: seq<Issue>)
    requires all == earlier + (status + made)
    ensures Follow(|earlier|, all, status, made)
  {
  }

  function NewIssue(number: nat, f: Failure): Issue {
    Issue(number, f.title, f.body, ["nightly", "bug", "nightly-fingerprint:" + f.fingerprint], true)
  }

  lemma StatusSomewhere(b: Board, pinned: nat)
    requires Numbered(b)
    ensures StatusTarget(b.issues, pinned).Some? <==> exists i: nat :: ShowsStatus(b.issues, pinned, i)
  {
    FirstStatusAt(b.issues);
    if StatusTarget(b.issues, pinned).Some? {
      var i: nat :| i < |b.issues| && b.issues[i].number == StatusTarget(b.issues, pinned).value;
      StatusExactly(b, pinned, i);
    }
    if i: nat :| ShowsStatus(b.issues, pinned, i) {
      StatusExactly(b, pinned, i);
    }
  }

  lemma FingerprintsStep(known: map<string, Issue>, front: seq<Failure>, f: Failure)
    ensures Fingerprints(known, front + [f], false)
         == if Marker(f.fingerprint) in known then Fingerprints(known, front, false)
            else Fingerprints(known, front, false) + [f.fingerprint]
  {
    var fs := front + [f];
    assert fs[..|fs| - 1] == front;
    hide Marker;
    assert Fingerprints(known, front, false) + [] == Fingerprints(known, front, false);
  }

  lemma OpenedStep(known: map<string, Issue>, front: seq<Failure>, f: Failure, next: nat)
    ensures Opened(known, front + [f], next)
         == if Marker(f.fingerprint) in known then Opened(known, front, next)
            else Opened(known, front, next)
                 + [Issue(next + |Opened(known, front, next)|, f.title, f.body, FailureLabels(f.fingerprint), true)]
  {
    var fs := front + [f];
    assert fs[..|fs| - 1] == front;
    hide Marker, FailureLabels;
  }

  lemma {:induction false} OpenedInOrder(issues: seq<Issue>, fs: seq<Failure>, next: nat) returns (at: seq<nat>)
    ensures Picked(issues, fs, false, Fingerprints(ByMarker(issues), fs, false), at)
    ensures MadeFrom(Opened(ByMarker(issues), fs, next), fs, next, at)
  {
    if fs == [] {
      at := [];
    } else {
      var front, f := fs[..|fs| - 1], fs[|fs| - 1];
      var known := ByMarker(issues);
      assert fs == front + [f];
      hide *;
      at := OpenedInOrder(issues, front, next);
      KnownIsCarried(issues, f.fingerprint);
      NewIssueIs(next + |Opened(known, front, next)|, f);
      FingerprintsStep(known, front, f);
      OpenedStep(known, front, f, next);
      PickNext(issues, front, f, false, Fingerprints(known, front, false), at);
      MadeNext(Opened(known, front, next), front, f, next, at);
      if Marker(f.fingerprint) !in known {
        at := at + [|front|];
      }
    }
  }

  lemma NewIssueIs(number: nat, f: Failure)
    ensures NewIssue(number, f) == Issue(number, f.title, f.body, FailureLabels(f.fingerprint), true)
  {
    assert Marker(f.fingerprint) == "nightly-fingerprint:" + f.fingerprint;
  }
}

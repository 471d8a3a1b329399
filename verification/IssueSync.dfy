/** sync_issues: keeping one tracker issue per failure fingerprint and one
    status issue, night after night. */
module IssueSync {
  import opened Options

  const MARKER := "nightly-fingerprint:"
  const STATUS_TITLE := "Nightly status"
  const STATUS_LABEL := "nightly-status"
  const PAGE_SIZE := 100

  datatype Issue = Issue(number: nat, title: string, body: string, labels: seq<string>, open: bool)

  /** title and body are the texts the source renders for the issue. */
  datatype Failure = Failure(fingerprint: string, title: string, body: string)

  datatype Report = Report(statusBody: string, failures: seq<Failure>)

  /** The fields one PATCH request changes. */
  datatype Change = Change(title: Option<string>, body: Option<string>, open: bool)

  datatype Board = Board(issues: seq<Issue>, next: nat)

  predicate IsMarker(name: string) { MARKER <= name }

  function Marker(fingerprint: string): string { MARKER + fingerprint }

  function Fingerprint(marker: string): string
    requires IsMarker(marker)
  {
    marker[|MARKER|..]
  }

  const STATUS_LABELS := ["nightly", STATUS_LABEL]

  function FailureLabels(fingerprint: string): seq<string> { ["nightly", "bug", Marker(fingerprint)] }

  // ------------------------------------------------------ tracker requests

  function Apply(x: Issue, c: Change): Issue {
    x.(title := if c.title.Some? then c.title.value else x.title,
       body := if c.body.Some? then c.body.value else x.body,
       open := c.open)
  }

  function Patch(issues: seq<Issue>, number: nat, c: Change): seq<Issue> {
    seq(|issues|, i requires 0 <= i < |issues| =>
      if issues[i].number == number then Apply(issues[i], c) else issues[i])
  }

  function Created(b: Board, title: string, body: string, labels: seq<string>): Board {
    Board(b.issues + [Issue(b.next, title, body, labels, true)], b.next + 1)
  }

  /** Issue numbers are positive, distinct and never handed out again. */
  ghost predicate Numbered(b: Board) {
    && (forall i | 0 <= i < |b.issues| :: 0 < b.issues[i].number < b.next)
    && (forall i, j | 0 <= i < j < |b.issues| :: b.issues[i].number != b.issues[j].number)
    && 0 < b.next
  }

  // -------------------------------------------- what one sync amounts to

  /** The issue each marker label leads to; of several, the last one listed. */
  function ByMarker(issues: seq<Issue>): map<string, Issue> {
    if issues == [] then map[]
    else
      var last := issues[|issues| - 1];
      ByMarker(issues[..|issues| - 1]) + map l | l in last.labels && IsMarker(l) :: last
  }

  predicate IsStatus(x: Issue) { x.title == STATUS_TITLE && STATUS_LABEL in x.labels }

  function FirstStatus(issues: seq<Issue>): Option<nat> {
    if issues == [] then None
    else if IsStatus(issues[0]) then Some(issues[0].number)
    else FirstStatus(issues[1..])
  }

  /** The number of the issue that shows the overall status, if there is one. */
  function StatusTarget(issues: seq<Issue>, pinned: nat): Option<nat> {
    if pinned != 0 && exists i | 0 <= i < |issues| :: issues[i].number == pinned then Some(pinned)
    else FirstStatus(issues)
  }

  function StatusChange(r: Report): Change { Change(Some(STATUS_TITLE), Some(r.statusBody), true) }

  function FailureChange(f: Failure): Change { Change(Some(f.title), Some(f.body), true) }

  function StatusStep(b: Board, r: Report, pinned: nat): Board {
    match StatusTarget(b.issues, pinned)
    case Some(n) => b.(issues := Patch(b.issues, n, StatusChange(r)))
    case None => Created(b, STATUS_TITLE, r.statusBody, STATUS_LABELS)
  }

  function FailureStep(known: map<string, Issue>, b: Board, f: Failure): Board {
    var marker := Marker(f.fingerprint);
    if marker in known then b.(issues := Patch(b.issues, known[marker].number, FailureChange(f)))
    else Created(b, f.title, f.body, FailureLabels(f.fingerprint))
  }

  function FailureSteps(known: map<string, Issue>, b: Board, fs: seq<Failure>): Board {
    if fs == [] then b
    else FailureStep(known, FailureSteps(known, b, fs[..|fs| - 1]), fs[|fs| - 1])
  }

  function Active(r: Report): set<string> { set f <- r.failures :: f.fingerprint }

  /** The markers whose issue is closed: open when listed, and no failure any more. */
  function Stale(known: map<string, Issue>, active: set<string>): set<string> {
    set m <- known.Keys | IsMarker(m) && known[m].open && Fingerprint(m) !in active
  }

  function Close(known: map<string, Issue>, issues: seq<Issue>, markers: set<string>): seq<Issue>
    requires markers <= known.Keys
  {
    seq(|issues|, i requires 0 <= i < |issues| =>
      if exists m <- markers :: known[m].number == issues[i].number then issues[i].(open := false) else issues[i])
  }

  function Synced(b: Board, r: Report, pinned: nat): Board {
    var known := ByMarker(b.issues);
    var b2 := FailureSteps(known, StatusStep(b, r, pinned), r.failures);
    b2.(issues := Close(known, b2.issues, Stale(known, Active(r))))
  }

  function Fingerprints(known: map<string, Issue>, fs: seq<Failure>, present: bool): seq<string> {
    if fs == [] then []
    else
      var f := fs[|fs| - 1];
      Fingerprints(known, fs[..|fs| - 1], present)
      + if (Marker(f.fingerprint) in known) == present then [f.fingerprint] else []
  }

  // ------------------------------------------------------------ the method

  class Tracker {
    var issues: seq<Issue>
    var next: nat

    constructor (issues: seq<Issue>, next: nat)
      ensures this.issues == issues && this.next == next
    {
      this.issues := issues;
      this.next := next;
    }

    ghost function Now(): Board
      reads this
    {
      Board(issues, next)
    }

    method Page(page: nat) returns (items: seq<Issue>)
      requires page >= 1
      ensures var from := (page - 1) * PAGE_SIZE;
              items == if from >= |issues| then []
                       else if from + PAGE_SIZE >= |issues| then issues[from..]
                       else issues[from..from + PAGE_SIZE]
    {
      var from := (page - 1) * PAGE_SIZE;
      items := if from >= |issues| then []
               else if from + PAGE_SIZE >= |issues| then issues[from..]
               else issues[from..from + PAGE_SIZE];
    }

    /** Page after page until one is not full: every issue, once, in order. */
    method ListOpen() returns (found: seq<Issue>)
      ensures found == issues
    {
      var page := 1;
      found := [];
      while true
        invariant page >= 1 && (page - 1) * PAGE_SIZE <= |issues|
        invariant found == issues[..(page - 1) * PAGE_SIZE]
        decreases |issues| - (page - 1) * PAGE_SIZE
      {
        var items := Page(page);
        found := found + items;
        if |items| < PAGE_SIZE {
          return;
        }
        page := page + 1;
      }
    }

    method Create(title: string, body: string, labels: seq<string>)
      modifies this
      ensures Now() == Created(old(Now()), title, body, labels)
    {
      issues := issues + [Issue(next, title, body, labels, true)];
      next := next + 1;
    }

    method Update(number: nat, change: Change)
      modifies this
      ensures Now() == old(Now()).(issues := Patch(old(issues), number, change))
    {
      issues := Patch(issues, number, change);
    }
  }

  /** One nightly run against the tracker. */
  method SyncIssues(client: Tracker, r: Report, pinned: nat)
    returns (created: seq<string>, updated: seq<string>, closed: set<string>)
    modifies client
    ensures client.Now() == Synced(old(client.Now()), r, pinned)
    ensures var known := ByMarker(old(client.issues));
            && created == Fingerprints(known, r.failures, false)
            && updated == Fingerprints(known, r.failures, true)
            && closed == set m <- Stale(known, Active(r)) :: Fingerprint(m)
  {
    var issues := client.ListOpen();
    var byMarker := CollectMarkers(issues);
    match StatusTarget(issues, pinned) {
      case Some(n) => client.Update(n, StatusChange(r));
      case None => client.Create(STATUS_TITLE, r.statusBody, STATUS_LABELS);
    }
    created, updated := RecordFailures(client, byMarker, r.failures);
    closed := CloseStale(client, byMarker, Active(r));
  }

  method CollectMarkers(issues: seq<Issue>) returns (byMarker: map<string, Issue>)
    ensures byMarker == ByMarker(issues)
  {
    byMarker := map[];
    for i := 0 to |issues|
      invariant byMarker == ByMarker(issues[..i])
    {
      byMarker := AddMarkers(byMarker, issues[i]);
      assert issues[..i + 1][..i] == issues[..i];
    }
    assert issues[..|issues|] == issues;
  }

  method AddMarkers(before: map<string, Issue>, x: Issue) returns (byMarker: map<string, Issue>)
    ensures byMarker == before + map l | l in x.labels && IsMarker(l) :: x
  {
    byMarker := before;
    for j := 0 to |x.labels|
      invariant byMarker == before + map l | l in x.labels[..j] && IsMarker(l) :: x
    {
      assert x.labels[..j + 1] == x.labels[..j] + [x.labels[j]];
      if IsMarker(x.labels[j]) {
        byMarker := byMarker[x.labels[j] := x];
      }
    }
    assert x.labels[..|x.labels|] == x.labels;
  }

  method RecordFailures(client: Tracker, byMarker: map<string, Issue>, failures: seq<Failure>)
    returns (created: seq<string>, updated: seq<string>)
    modifies client
    ensures client.Now() == FailureSteps(byMarker, old(client.Now()), failures)
    ensures created == Fingerprints(byMarker, failures, false)
    ensures updated == Fingerprints(byMarker, failures, true)
  {
    created, updated := [], [];
    for i := 0 to |failures|
      invariant client.Now() == FailureSteps(byMarker, old(client.Now()), failures[..i])
      invariant created == Fingerprints(byMarker, failures[..i], false)
      invariant updated == Fingerprints(byMarker, failures[..i], true)
    {
      var failure := failures[i];
      var marker := Marker(failure.fingerprint);
      if marker in byMarker {
        client.Update(byMarker[marker].number, FailureChange(failure));
        updated := updated + [failure.fingerprint];
      } else {
        client.Create(failure.title, failure.body, FailureLabels(failure.fingerprint));
        created := created + [failure.fingerprint];
      }
      assert failures[..i + 1][..i] == failures[..i];
    }
    assert failures[..|failures|] == failures;
  }

  /** The dictionary is walked in some order; the outcome does not depend on it. */
  method CloseStale(client: Tracker, byMarker: map<string, Issue>, active: set<string>) returns (closed: set<string>)
    modifies client
    ensures client.Now() == old(client.Now()).(issues := Close(byMarker, old(client.issues), Stale(byMarker, active)))
    ensures closed == set m <- Stale(byMarker, active) :: Fingerprint(m)
  {
    closed := {};
    var rest := byMarker.Keys;
    ghost var done: set<string> := {};
    CloseNone(byMarker, client.issues);
    while rest != {}
      invariant rest + done == byMarker.Keys && rest !! done
      invariant client.Now() == old(client.Now()).(issues := Close(byMarker, old(client.issues), Stale(byMarker, active) * done))
      invariant closed == set m <- Stale(byMarker, active) * done :: Fingerprint(m)
      decreases rest
    {
      var marker :| marker in rest;
      if IsMarker(marker) && byMarker[marker].open && Fingerprint(marker) !in active {
        CloseOneMore(byMarker, old(client.issues), Stale(byMarker, active) * done, marker);
        assert Stale(byMarker, active) * (done + {marker}) == Stale(byMarker, active) * done + {marker};
        client.Update(byMarker[marker].number, Change(None, None, false));
        closed := closed + {Fingerprint(marker)};
      } else {
        assert Stale(byMarker, active) * (done + {marker}) == Stale(byMarker, active) * done;
      }
      rest := rest - {marker};
      done := done + {marker};
    }
    assert Stale(byMarker, active) * done == Stale(byMarker, active);
  }

  lemma CloseNone(known: map<string, Issue>, issues: seq<Issue>)
    ensures Close(known, issues, {}) == issues
  {
  }

  lemma CloseOneMore(known: map<string, Issue>, issues: seq<Issue>, markers: set<string>, marker: string)
    requires markers <= known.Keys && marker in known
    ensures Patch(Close(known, issues, markers), known[marker].number, Change(None, None, false))
         == Close(known, issues, markers + {marker})
  {
    var one := Patch(Close(known, issues, markers), known[marker].number, Change(None, None, false));
    var all := Close(known, issues, markers + {marker});
    forall i | 0 <= i < |issues| ensures one[i] == all[i] {
      assert marker in markers + {marker};
    }
  }

  // ---------------------------------------- one sync, issue by issue

  /** The failure that is written to the issue with this number: the last of them. */
  function FailureFor(known: map<string, Issue>, fs: seq<Failure>, number: nat): Option<Failure> {
    if fs == [] then None
    else
      var f := fs[|fs| - 1];
      if Marker(f.fingerprint) in known && known[Marker(f.fingerprint)].number == number then Some(f)
      else FailureFor(known, fs[..|fs| - 1], number)
  }

  /** The issues opened for failures that no marker leads to. */
  function Opened(known: map<string, Issue>, fs: seq<Failure>, next: nat): seq<Issue> {
    if fs == [] then []
    else
      var f, before := fs[|fs| - 1], Opened(known, fs[..|fs| - 1], next);
      if Marker(f.fingerprint) in known then before
      else before + [Issue(next + |before|, f.title, f.body, FailureLabels(f.fingerprint), true)]
  }

  function Recorded(known: map<string, Issue>, fs: seq<Failure>, x: Issue): Issue {
    match FailureFor(known, fs, x.number)
    case None => x
    case Some(f) => Apply(x, FailureChange(f))
  }

  ghost predicate KnownBelow(known: map<string, Issue>, next: nat) {
    forall m <- known :: known[m].number < next
  }

  function RecordedAll(known: map<string, Issue>, fs: seq<Failure>, issues: seq<Issue>): (r: seq<Issue>)
    ensures |r| == |issues|
  {
    seq(|issues|, i requires 0 <= i < |issues| => Recorded(known, fs, issues[i]))
  }

  lemma {:induction false} FailureStepsByIssue(known: map<string, Issue>, b: Board, fs: seq<Failure>)
    requires KnownBelow(known, b.next)
    ensures FailureSteps(known, b, fs)
         == Board(RecordedAll(known, fs, b.issues) + Opened(known, fs, b.next), b.next + |Opened(known, fs, b.next)|)
    ensures forall x <- Opened(known, fs, b.next) :: x.number >= b.next
  {
    if fs != [] {
      var front, f := fs[..|fs| - 1], fs[|fs| - 1];
      FailureStepsByIssue(known, b, front);
      var added := Opened(known, front, b.next);
      if Marker(f.fingerprint) in known {
        var n := known[Marker(f.fingerprint)].number;
        assert Patch(RecordedAll(known, front, b.issues) + added, n, FailureChange(f))
            == RecordedAll(known, fs, b.issues) + added;
      } else {
        assert RecordedAll(known, front, b.issues) == RecordedAll(known, fs, b.issues);
      }
    }
  }

  function ShownStatus(b: Board, r: Report, pinned: nat, x: Issue): Issue {
    if StatusTarget(b.issues, pinned) == Some(x.number) then Apply(x, StatusChange(r)) else x
  }

  function ClosedIfStale(known: map<string, Issue>, markers: set<string>, x: Issue): Issue
    requires markers <= known.Keys
  {
    if exists m <- markers :: known[m].number == x.number then x.(open := false) else x
  }

  /** What becomes of an issue that was there before the sync. */
  function Final(b: Board, r: Report, pinned: nat, x: Issue): Issue {
    var known := ByMarker(b.issues);
    ClosedIfStale(known, Stale(known, Active(r)), Recorded(known, r.failures, ShownStatus(b, r, pinned, x)))
  }

  function NewStatus(b: Board, r: Report, pinned: nat): seq<Issue> {
    if StatusTarget(b.issues, pinned).Some? then []
    else [Issue(b.next, STATUS_TITLE, r.statusBody, STATUS_LABELS, true)]
  }

  lemma {:induction false} MarkersFromIssues(issues: seq<Issue>)
    ensures forall m <- ByMarker(issues) :: IsMarker(m) && ByMarker(issues)[m] in issues && m in ByMarker(issues)[m].labels
    ensures forall x <- issues, m <- x.labels :: IsMarker(m) ==> m in ByMarker(issues)
  {
    if issues != [] {
      var front, last := issues[..|issues| - 1], issues[|issues| - 1];
      MarkersFromIssues(front);
      assert issues == front + [last];
    }
  }

  function ShownAll(b: Board, r: Report, pinned: nat): (shown: seq<Issue>)
    ensures |shown| == |b.issues|
  {
    seq(|b.issues|, i requires 0 <= i < |b.issues| => ShownStatus(b, r, pinned, b.issues[i]))
  }

  function FinalAll(b: Board, r: Report, pinned: nat): (final: seq<Issue>)
    ensures |final| == |b.issues|
    ensures forall i | 0 <= i < |final| :: final[i] == Final(b, r, pinned, b.issues[i])
  {
    seq(|b.issues|, i requires 0 <= i < |b.issues| => Final(b, r, pinned, b.issues[i]))
  }

  /** The issues a sync adds: a status issue if there was none, and one for each
      failure without a marker. */
  function Added(b: Board, r: Report, pinned: nat): seq<Issue> {
    var status := NewStatus(b, r, pinned);
    status + Opened(ByMarker(b.issues), r.failures, b.next + |status|)
  }

  lemma KnownNumbers(b: Board)
    requires Numbered(b)
    ensures KnownBelow(ByMarker(b.issues), b.next)
  {
    var known := ByMarker(b.issues);
    MarkersFromIssues(b.issues);
    forall m <- known ensures known[m].number < b.next {
      var i :| 0 <= i < |b.issues| && b.issues[i] == known[m];
    }
  }

  lemma StatusByIssue(b: Board, r: Report, pinned: nat)
    ensures StatusStep(b, r, pinned)
         == Board(ShownAll(b, r, pinned) + NewStatus(b, r, pinned), b.next + |NewStatus(b, r, pinned)|)
  {
    match StatusTarget(b.issues, pinned)
    case Some(n) => assert Patch(b.issues, n, StatusChange(r)) == ShownAll(b, r, pinned);
    case None => assert ShownAll(b, r, pinned) == b.issues;
  }

  lemma FailuresLeaveNewStatus(b: Board, r: Report, pinned: nat, shown: seq<Issue>)
    requires Numbered(b)
    ensures var known, status := ByMarker(b.issues), NewStatus(b, r, pinned);
            RecordedAll(known, r.failures, shown + status) == RecordedAll(known, r.failures, shown) + status
  {
    var known, status := ByMarker(b.issues), NewStatus(b, r, pinned);
    KnownNumbers(b);
    NothingFor(known, r.failures, b.next);
    assert forall x <- status :: Recorded(known, r.failures, x) == x;
  }

  lemma BeforeClosing(b: Board, r: Report, pinned: nat)
    requires Numbered(b)
    ensures FailureSteps(ByMarker(b.issues), StatusStep(b, r, pinned), r.failures)
         == Board(RecordedAll(ByMarker(b.issues), r.failures, ShownAll(b, r, pinned)) + Added(b, r, pinned),
                  b.next + |Added(b, r, pinned)|)
    ensures forall x <- Added(b, r, pinned) :: x.number >= b.next
  {
    hide StatusStep, FailureSteps, ShownAll, RecordedAll, ByMarker, Opened;
    var known := ByMarker(b.issues);
    KnownNumbers(b);
    StatusByIssue(b, r, pinned);
    FailureStepsByIssue(known, StatusStep(b, r, pinned), r.failures);
    FailuresLeaveNewStatus(b, r, pinned, ShownAll(b, r, pinned));
  }

  /** A sync, issue by issue: the old ones in place, then the added ones. */
  lemma SyncedByIssue(b: Board, r: Report, pinned: nat)
    requires Numbered(b)
    ensures Synced(b, r, pinned)
         == Board(FinalAll(b, r, pinned) + Added(b, r, pinned), b.next + |Added(b, r, pinned)|)
    ensures forall x <- Added(b, r, pinned) :: x.number >= b.next
  {
    var known := ByMarker(b.issues);
    var stale := Stale(known, Active(r));
    var recorded, added := RecordedAll(known, r.failures, ShownAll(b, r, pinned)), Added(b, r, pinned);
    BeforeClosing(b, r, pinned);
    KnownNumbers(b);
    ClosesOldOnly(known, stale, recorded, added, b.next);
    assert Close(known, recorded, stale) == FinalAll(b, r, pinned);
  }

  lemma ClosesOldOnly(known: map<string, Issue>, markers: set<string>, earlier: seq<Issue>, added: seq<Issue>, next: nat)
    requires markers <= known.Keys && KnownBelow(known, next)
    requires forall x <- added :: x.number >= next
    ensures Close(known, earlier + added, markers) == Close(known, earlier, markers) + added
  {
    var all := Close(known, earlier + added, markers);
    forall i | |earlier| <= i < |all| ensures all[i] == added[i - |earlier|] {
      assert (earlier + added)[i] in added;
    }
  }

  lemma {:induction false} NothingFor(known: map<string, Issue>, fs: seq<Failure>, number: nat)
    requires KnownBelow(known, number)
    ensures FailureFor(known, fs, number) == None
  {
    if fs != [] {
      NothingFor(known, fs[..|fs| - 1], number);
    }
  }

  // ------------------------------------------------ what every sync keeps

  /** The labels by which a sync finds an issue again. */
  ghost function Claims(x: Issue): set<string> {
    set l <- x.labels | IsMarker(l) || l == STATUS_LABEL
  }

  /** An issue belongs to one fingerprint, or shows the status, or is foreign. */
  ghost predicate TidyIssue(x: Issue) {
    && (forall m <- Claims(x), l <- Claims(x) :: m == l)
    && (STATUS_LABEL in Claims(x) ==> x.title == STATUS_TITLE)
  }

  ghost predicate Separate(x: Issue, y: Issue) {
    Claims(x) !! Claims(y)
  }

  ghost predicate AllSeparate(issues: seq<Issue>) {
    forall i, j | 0 <= i < j < |issues| :: Separate(issues[i], issues[j])
  }

  /** One issue per fingerprint, and one status issue. */
  ghost predicate Tidy(issues: seq<Issue>) {
    (forall x <- issues :: TidyIssue(x)) && AllSeparate(issues)
  }

  /** No two failures of a report share a fingerprint. */
  ghost predicate DistinctFailures(fs: seq<Failure>) {
    forall i, j | 0 <= i < j < |fs| :: fs[i].fingerprint != fs[j].fingerprint
  }

  lemma MarkerInverse(m: string)
    ensures IsMarker(m) ==> Marker(Fingerprint(m)) == m && m != STATUS_LABEL
    ensures IsMarker(Marker(m)) && Fingerprint(Marker(m)) == m
  {
    assert |MARKER| > |STATUS_LABEL|;
  }

  lemma ClaimsOfAdded(x: Issue, fingerprint: string)
    ensures x.labels == FailureLabels(fingerprint) ==> Claims(x) == {Marker(fingerprint)}
    ensures x.labels == STATUS_LABELS ==> Claims(x) == {STATUS_LABEL}
  {
    MarkerInverse(fingerprint);
    assert |"nightly"| < |MARKER| && |"bug"| < |MARKER| && |STATUS_LABEL| < |MARKER|;
    assert |"nightly"| < |STATUS_LABEL| && |"bug"| < |STATUS_LABEL|;
  }

  lemma OwnMarker(x: Issue, l: string, m: string)
    requires TidyIssue(x) && l in x.labels && m in x.labels && IsMarker(l) && IsMarker(m)
    ensures l == m
  {
    assert l in Claims(x) && m in Claims(x);
  }

  /** In a tidy tracker a marker leads to the issue that carries it. */
  lemma {:induction false} MarkerLeads(issues: seq<Issue>, i: nat, m: string)
    requires Tidy(issues) && i < |issues| && IsMarker(m) && m in issues[i].labels
    ensures m in ByMarker(issues) && ByMarker(issues)[m] == issues[i]
  {
    var front, last := issues[..|issues| - 1], issues[|issues| - 1];
    if i < |front| {
      assert Separate(issues[i], issues[|front|]) && m in Claims(issues[i]);
      forall x <- front ensures TidyIssue(x) {
        assert x in issues;
      }
      MarkerLeads(front, i, m);
    }
  }

  lemma SameNumber(b: Board, x: Issue, y: Issue)
    requires Numbered(b) && x in b.issues && y in b.issues && x.number == y.number
    ensures x == y
  {
    var i :| 0 <= i < |b.issues| && b.issues[i] == x;
    var j :| 0 <= j < |b.issues| && b.issues[j] == y;
  }

  lemma {:induction false} FailureForMeaning(known: map<string, Issue>, fs: seq<Failure>, number: nat)
    ensures match FailureFor(known, fs, number)
            case Some(f) => f in fs && Marker(f.fingerprint) in known && known[Marker(f.fingerprint)].number == number
            case None => forall f <- fs :: Marker(f.fingerprint) in known ==> known[Marker(f.fingerprint)].number != number
  {
    if fs != [] {
      FailureForMeaning(known, fs[..|fs| - 1], number);
      assert fs == fs[..|fs| - 1] + [fs[|fs| - 1]];
    }
  }

  /** The failure written to an issue is the one its marker names. */
  lemma RecordedByMarker(b: Board, fs: seq<Failure>, x: Issue)
    requires Numbered(b) && Tidy(b.issues) && x in b.issues
    ensures match FailureFor(ByMarker(b.issues), fs, x.number)
            case Some(f) => f in fs && Marker(f.fingerprint) in x.labels
            case None => forall f <- fs :: Marker(f.fingerprint) !in x.labels
  {
    var known := ByMarker(b.issues);
    var i :| 0 <= i < |b.issues| && b.issues[i] == x;
    FailureForMeaning(known, fs, x.number);
    MarkersFromIssues(b.issues);
    match FailureFor(known, fs, x.number) {
      case Some(f) => SameNumber(b, x, known[Marker(f.fingerprint)]);
      case None =>
        forall f <- fs ensures Marker(f.fingerprint) !in x.labels {
          MarkerInverse(f.fingerprint);
          if Marker(f.fingerprint) in x.labels {
            MarkerLeads(b.issues, i, Marker(f.fingerprint));
          }
        }
    }
  }

  /** The stale markers that close an issue are its own. */
  lemma ClosedByOwnMarker(b: Board, r: Report, x: Issue)
    requires Numbered(b) && Tidy(b.issues) && x in b.issues
    ensures var known, stale := ByMarker(b.issues), Stale(ByMarker(b.issues), Active(r));
            (exists m <- stale :: known[m].number == x.number)
            <==> x.open && exists m <- x.labels :: IsMarker(m) && Fingerprint(m) !in Active(r)
  {
    var known, stale := ByMarker(b.issues), Stale(ByMarker(b.issues), Active(r));
    var i :| 0 <= i < |b.issues| && b.issues[i] == x;
    MarkersFromIssues(b.issues);
    if m :| m in stale && known[m].number == x.number {
      SameNumber(b, x, known[m]);
    }
    if m :| x.open && m in x.labels && IsMarker(m) && Fingerprint(m) !in Active(r) {
      MarkerLeads(b.issues, i, m);
      assert m in stale;
    }
  }

  ghost predicate Reopened(b: Board, pinned: nat, x: Issue) {
    StatusTarget(b.issues, pinned) == Some(x.number) && !x.open
  }

  /** Number and labels never change. A marked issue ends open exactly when its
      fingerprint failed, or when it was closed and is also the status issue. */
  lemma FinalOfMarked(b: Board, r: Report, pinned: nat, x: Issue, m: string)
    requires Numbered(b) && Tidy(b.issues) && x in b.issues && m in x.labels && IsMarker(m)
    ensures var y := Final(b, r, pinned, x);
            y.open <==> Fingerprint(m) in Active(r) || Reopened(b, pinned, x)
  {
    var known := ByMarker(b.issues);
    RecordedActive(b, r, x, m);
    ClosedByOwnMarker(b, r, x);
    assert TidyIssue(x);
    hide ByMarker, Stale, Active;
    var shown := ShownStatus(b, r, pinned, x);
    var recorded := Recorded(known, r.failures, shown);
    assert recorded.number == x.number;
    forall l <- x.labels | IsMarker(l) ensures l == m {
      OwnMarker(x, l, m);
    }
    assert (exists l <- x.labels :: IsMarker(l) && Fingerprint(l) !in Active(r)) <==> Fingerprint(m) !in Active(r);
  }

  lemma RecordedActive(b: Board, r: Report, x: Issue, m: string)
    requires Numbered(b) && Tidy(b.issues) && x in b.issues && m in x.labels && IsMarker(m)
    ensures FailureFor(ByMarker(b.issues), r.failures, x.number).Some? <==> Fingerprint(m) in Active(r)
  {
    RecordedByMarker(b, r.failures, x);
    assert TidyIssue(x);
    MarkerInverse(m);
    match FailureFor(ByMarker(b.issues), r.failures, x.number) {
      case Some(f) =>
        MarkerInverse(f.fingerprint);
        OwnMarker(x, Marker(f.fingerprint), m);
      case None =>
        if f :| f in r.failures && f.fingerprint == Fingerprint(m) {
          assert false;
        }
    }
  }

  lemma FinalKeepsIdentity(b: Board, r: Report, pinned: nat, x: Issue)
    ensures Final(b, r, pinned, x).number == x.number && Final(b, r, pinned, x).labels == x.labels
  {
  }

  lemma {:induction false} OpenedFrom(known: map<string, Issue>, fs: seq<Failure>, next: nat, x: Issue)
    requires x in Opened(known, fs, next)
    ensures exists f <- fs :: Marker(f.fingerprint) !in known && x.open && x.title == f.title && x.body == f.body
                              && x.labels == FailureLabels(f.fingerprint)
  {
    var front, f := fs[..|fs| - 1], fs[|fs| - 1];
    if x in Opened(known, front, next) {
      OpenedFrom(known, front, next, x);
      var g :| g in front && Marker(g.fingerprint) !in known && x.open && x.title == g.title && x.body == g.body
               && x.labels == FailureLabels(g.fingerprint);
      assert g in fs;
    } else {
      assert f in fs;
    }
  }

  /** After any sync a marked issue is open exactly when its fingerprint is among
      the failures, unless it was closed and doubled as the status issue. */
  lemma OpenExactly(b: Board, r: Report, pinned: nat, i: nat, m: string)
    requires Numbered(b) && Tidy(b.issues)
    requires var after := Synced(b, r, pinned).issues; i < |after| && IsMarker(m) && m in after[i].labels
    ensures Synced(b, r, pinned).issues[i].open
       <==> Fingerprint(m) in Active(r) || (i < |b.issues| && Reopened(b, pinned, b.issues[i]))
  {
    SyncedByIssue(b, r, pinned);
    hide Synced;
    var after := Synced(b, r, pinned).issues;
    MarkerInverse(m);
    if i < |b.issues| {
      FinalKeepsIdentity(b, r, pinned, b.issues[i]);
      FinalOfMarked(b, r, pinned, b.issues[i], m);
    } else {
      hide Final;
      AddedMarked(b, r, pinned, after[i], m);
    }
  }

  /** The pinned issue carries a fingerprint and was closed: a report without failures
      opens it. */
  lemma PinnedIsReopened(title: string, body: string, fingerprint: string, statusBody: string)
    ensures var b, r := Board([Issue(1, title, body, [Marker(fingerprint)], false)], 2), Report(statusBody, []);
            && Numbered(b) && Tidy(b.issues) && |Synced(b, r, 1).issues| == 1
            && var x := Synced(b, r, 1).issues[0];
               x.number == 1 && x.labels == [Marker(fingerprint)] && x.open && fingerprint !in Active(r)
  {
    var b, r := Board([Issue(1, title, body, [Marker(fingerprint)], false)], 2), Report(statusBody, []);
    var x := b.issues[0];
    assert Added(b, r, 1) == [];
    SyncedByIssue(b, r, 1);
    FinalKeepsIdentity(b, r, 1, x);
    assert Synced(b, r, 1).issues == [Final(b, r, 1, x)];
    OpenExactly(b, r, 1, 0, Marker(fingerprint));
  }

  lemma AddedMarked(b: Board, r: Report, pinned: nat, x: Issue, m: string)
    requires x in Added(b, r, pinned) && IsMarker(m) && m in x.labels
    ensures x.open && Fingerprint(m) in Active(r) && m !in ByMarker(b.issues)
  {
    MarkerInverse(m);
    assert m in Claims(x);
    var from := AddedFrom(b, r, pinned, x);
    match from
    case Some(f) => MarkerInverse(f.fingerprint);
    case None =>
  }

  /** An added issue is the new status issue or belongs to a failure. */
  lemma AddedFrom(b: Board, r: Report, pinned: nat, x: Issue) returns (from: Option<Failure>)
    requires x in Added(b, r, pinned)
    ensures match from
            case None => x in NewStatus(b, r, pinned) && Claims(x) == {STATUS_LABEL} && x.title == STATUS_TITLE
            case Some(f) => f in r.failures && Marker(f.fingerprint) !in ByMarker(b.issues) && x.open
                            && x.title == f.title && x.body == f.body && Claims(x) == {Marker(f.fingerprint)}
  {
    var status := NewStatus(b, r, pinned);
    if x in status {
      from := None;
      ClaimsOfAdded(x, "");
    } else {
      OpenedFrom(ByMarker(b.issues), r.failures, b.next + |status|, x);
      var f :| f in r.failures && Marker(f.fingerprint) !in ByMarker(b.issues) && x.open
               && x.title == f.title && x.body == f.body && x.labels == FailureLabels(f.fingerprint);
      ClaimsOfAdded(x, f.fingerprint);
      from := Some(f);
    }
  }

  lemma NumberAt(b: Board, r: Report, pinned: nat, i: nat)
    requires Numbered(b) && i < |Synced(b, r, pinned).issues|
    ensures |b.issues| <= |Synced(b, r, pinned).issues|
    ensures Synced(b, r, pinned).next == b.next + (|Synced(b, r, pinned).issues| - |b.issues|)
    ensures Synced(b, r, pinned).issues[i].number
         == if i < |b.issues| then b.issues[i].number else b.next + (i - |b.issues|)
    ensures i < |b.issues| ==> Synced(b, r, pinned).issues[i] == Final(b, r, pinned, b.issues[i])
    ensures i < |b.issues| ==> Synced(b, r, pinned).issues[i].labels == b.issues[i].labels
    ensures i >= |b.issues| ==> Synced(b, r, pinned).issues[i] in Added(b, r, pinned)
  {
    SyncedByIssue(b, r, pinned);
    AddedNumbers(b, r, pinned);
    hide Synced, Added, Final;
    if i < |b.issues| {
      FinalKeepsIdentity(b, r, pinned, b.issues[i]);
    } else {
      assert Synced(b, r, pinned).issues[i] == Added(b, r, pinned)[i - |b.issues|];
    }
  }

  lemma SyncKeepsNumbered(b: Board, r: Report, pinned: nat)
    requires Numbered(b)
    ensures Numbered(Synced(b, r, pinned)) && Synced(b, r, pinned).next >= b.next
  {
    var c := Synced(b, r, pinned);
    SyncedByIssue(b, r, pinned);
    hide Synced, Added, Final, FinalAll;
    forall i | 0 <= i < |c.issues|
      ensures c.issues[i].number == if i < |b.issues| then b.issues[i].number else b.next + (i - |b.issues|) {
      NumberAt(b, r, pinned, i);
    }
  }

  lemma OpenedUnfold(known: map<string, Issue>, fs: seq<Failure>, next: nat)
    requires fs != []
    ensures var f, before := fs[|fs| - 1], Opened(known, fs[..|fs| - 1], next);
            if Marker(f.fingerprint) in known then Opened(known, fs, next) == before
            else
              Opened(known, fs, next)
              == before + [Issue(next + |before|, f.title, f.body, FailureLabels(f.fingerprint), true)]
  {
  }

  lemma {:induction false} OpenedNumbers(known: map<string, Issue>, fs: seq<Failure>, next: nat)
    ensures var added := Opened(known, fs, next); forall i | 0 <= i < |added| :: added[i].number == next + i
  {
    if fs != [] {
      var before := Opened(known, fs[..|fs| - 1], next);
      OpenedNumbers(known, fs[..|fs| - 1], next);
      OpenedUnfold(known, fs, next);
      forall i | 0 <= i < |Opened(known, fs, next)| ensures Opened(known, fs, next)[i].number == next + i {
        assert i < |before| ==> Opened(known, fs, next)[i] == before[i];
      }
    }
  }

  lemma AddedNumbers(b: Board, r: Report, pinned: nat)
    ensures var added := Added(b, r, pinned); forall i | 0 <= i < |added| :: added[i].number == b.next + i
  {
    var status, added := NewStatus(b, r, pinned), Added(b, r, pinned);
    OpenedNumbers(ByMarker(b.issues), r.failures, b.next + |status|);
    forall i | 0 <= i < |added| ensures added[i].number == b.next + i {
      if i >= |status| {
        assert added[i] == Opened(ByMarker(b.issues), r.failures, b.next + |status|)[i - |status|];
      }
    }
  }

  lemma {:induction false} OpenedSeparate(known: map<string, Issue>, fs: seq<Failure>, next: nat)
    requires DistinctFailures(fs)
    ensures AllSeparate(Opened(known, fs, next))
  {
    if fs != [] {
      var front, f := fs[..|fs| - 1], fs[|fs| - 1];
      OpenedSeparate(known, front, next);
      OpenedUnfold(known, fs, next);
      var before, added := Opened(known, front, next), Opened(known, fs, next);
      forall i, j | 0 <= i < j < |added| ensures Separate(added[i], added[j]) {
        if j < |before| {
          assert Separate(before[i], before[j]);
        } else {
          var g := OpenedByFailure(known, front, next, before[i]);
          assert added[j].labels == FailureLabels(f.fingerprint);
          ClaimsOfAdded(added[j], f.fingerprint);
          MarkerInverse(f.fingerprint);
          MarkerInverse(front[g].fingerprint);
          assert fs[g].fingerprint != fs[|front|].fingerprint;
        }
      }
    }
  }

  lemma OpenedByFailure(known: map<string, Issue>, fs: seq<Failure>, next: nat, x: Issue) returns (k: nat)
    requires x in Opened(known, fs, next)
    ensures k < |fs| && Claims(x) == {Marker(fs[k].fingerprint)}
  {
    OpenedFrom(known, fs, next, x);
    var f :| f in fs && x.labels == FailureLabels(f.fingerprint);
    ClaimsOfAdded(x, f.fingerprint);
    k :| 0 <= k < |fs| && fs[k] == f;
  }

  lemma AddedTidy(b: Board, r: Report, pinned: nat)
    requires DistinctFailures(r.failures)
    ensures Tidy(Added(b, r, pinned))
  {
    var known, status, all := ByMarker(b.issues), NewStatus(b, r, pinned), Added(b, r, pinned);
    var next := b.next + |status|;
    var added := Opened(known, r.failures, next);
    forall x <- all ensures TidyIssue(x) {
      var from := AddedFrom(b, r, pinned, x);
      if from.Some? {
        MarkerInverse(from.value.fingerprint);
      }
    }
    OpenedSeparate(known, r.failures, next);
    assert Tidy(added) by {
      assert forall x <- added :: x in all;
    }
    assert Tidy(status) by {
      assert forall x <- status :: x in all;
    }
    forall x <- status, y <- added ensures Separate(x, y) {
      ClaimsOfAdded(x, "");
      var k := OpenedByFailure(known, r.failures, next, y);
      MarkerInverse(r.failures[k].fingerprint);
    }
    TidyTogether(status, added);
  }

  lemma FinalTidy(b: Board, r: Report, pinned: nat, x: Issue)
    requires Numbered(b) && Tidy(b.issues) && x in b.issues
    ensures TidyIssue(Final(b, r, pinned, x))
  {
    assert TidyIssue(x);
    RecordedByMarker(b, r.failures, x);
    FinalKeepsIdentity(b, r, pinned, x);
    assert Claims(Final(b, r, pinned, x)) == Claims(x);
    if STATUS_LABEL in Claims(x) {
      forall f <- r.failures ensures Marker(f.fingerprint) !in x.labels {
        MarkerInverse(f.fingerprint);
        assert Marker(f.fingerprint) in x.labels ==> Marker(f.fingerprint) in Claims(x);
      }
    }
  }

  lemma {:induction false} FirstStatusMeaning(issues: seq<Issue>)
    ensures match FirstStatus(issues)
            case None => forall x <- issues :: !IsStatus(x)
            case Some(n) => exists x <- issues :: IsStatus(x) && x.number == n
  {
    if issues != [] {
      FirstStatusMeaning(issues[1..]);
      assert issues == [issues[0]] + issues[1..];
    }
  }

  lemma OldApartFromAdded(b: Board, r: Report, pinned: nat, x: Issue, y: Issue)
    requires Numbered(b) && Tidy(b.issues) && x in b.issues && y in Added(b, r, pinned)
    ensures Separate(x, y)
  {
    assert TidyIssue(x);
    var from := AddedFrom(b, r, pinned, y);
    match from
    case None =>
      FirstStatusMeaning(b.issues);
      assert !IsStatus(x);
    case Some(f) =>
      MarkersFromIssues(b.issues);
      MarkerInverse(f.fingerprint);
  }

  lemma FinalKeepsClaims(b: Board, r: Report, pinned: nat, x: Issue)
    ensures Claims(Final(b, r, pinned, x)) == Claims(x)
  {
    FinalKeepsIdentity(b, r, pinned, x);
  }

  lemma FinalAllTidy(b: Board, r: Report, pinned: nat)
    requires Numbered(b) && Tidy(b.issues)
    ensures Tidy(FinalAll(b, r, pinned))
  {
    hide Final;
    var final := FinalAll(b, r, pinned);
    forall x <- final ensures TidyIssue(x) {
      var i :| 0 <= i < |final| && final[i] == x;
      FinalTidy(b, r, pinned, b.issues[i]);
    }
    forall i, j | 0 <= i < j < |final| ensures Separate(final[i], final[j]) {
      FinalKeepsClaims(b, r, pinned, b.issues[i]);
      FinalKeepsClaims(b, r, pinned, b.issues[j]);
      assert Separate(b.issues[i], b.issues[j]);
    }
  }

  lemma TidyTogether(xs: seq<Issue>, ys: seq<Issue>)
    requires Tidy(xs) && Tidy(ys) && forall x <- xs, y <- ys :: Separate(x, y)
    ensures Tidy(xs + ys)
  {
    var all := xs + ys;
    forall i, j | 0 <= i < j < |all| ensures Separate(all[i], all[j]) {
      assert i < |xs| ==> all[i] == xs[i];
      assert j < |xs| ==> all[j] == xs[j];
      assert i >= |xs| ==> all[i] == ys[i - |xs|];
      assert j >= |xs| ==> all[j] == ys[j - |xs|];
    }
  }

  /** One issue per fingerprint and one status issue: every sync keeps it. */
  lemma SyncKeepsTidy(b: Board, r: Report, pinned: nat)
    requires Numbered(b) && Tidy(b.issues) && DistinctFailures(r.failures)
    ensures Tidy(Synced(b, r, pinned).issues)
  {
    SyncedByIssue(b, r, pinned);
    AddedTidy(b, r, pinned);
    FinalAllTidy(b, r, pinned);
    hide Synced, Added, Final;
    var final, added := FinalAll(b, r, pinned), Added(b, r, pinned);
    forall x <- final, y <- added ensures Separate(x, y) {
      var i :| 0 <= i < |final| && final[i] == x;
      FinalKeepsClaims(b, r, pinned, b.issues[i]);
      OldApartFromAdded(b, r, pinned, b.issues[i], y);
    }
    TidyTogether(final, added);
  }

  // --------------------------------------------------- night after night

  /** The pinned issue exists or is gone, and belongs to no fingerprint. */
  ghost predicate Ready(b: Board, pinned: nat) {
    && Numbered(b) && Tidy(b.issues) && pinned < b.next
    && forall x <- b.issues | x.number == pinned :: forall m <- x.labels :: !IsMarker(m)
  }

  lemma SyncKeepsReady(b: Board, r: Report, pinned: nat)
    requires Ready(b, pinned) && DistinctFailures(r.failures)
    ensures Ready(Synced(b, r, pinned), pinned)
  {
    var c := Synced(b, r, pinned);
    SyncKeepsNumbered(b, r, pinned);
    SyncKeepsTidy(b, r, pinned);
    hide Synced, Tidy, Added, Final;
    forall x <- c.issues | x.number == pinned ensures forall m <- x.labels :: !IsMarker(m) {
      var i :| 0 <= i < |c.issues| && c.issues[i] == x;
      NumberAt(b, r, pinned, i);
      assert b.issues[i] in b.issues;
    }
  }

  ghost predicate ShowsFailure(x: Issue, f: Failure) {
    Marker(f.fingerprint) in x.labels && x.open && x.title == f.title && x.body == f.body
  }

  /** A marked issue is open exactly when its fingerprint is among the failures,
      and every failure is shown. */
  ghost predicate Mirrors(issues: seq<Issue>, r: Report) {
    && (forall x <- issues, m <- x.labels | IsMarker(m) :: x.open <==> Fingerprint(m) in Active(r))
    && (forall f <- r.failures :: exists x <- issues :: ShowsFailure(x, f))
  }

  /** The status issue is found again and says what the report says. */
  ghost predicate StatusShown(issues: seq<Issue>, r: Report, pinned: nat) {
    && StatusTarget(issues, pinned).Some?
    && forall x <- issues | StatusTarget(issues, pinned) == Some(x.number) :: Apply(x, StatusChange(r)) == x
  }

  lemma FinalUnmarked(b: Board, r: Report, pinned: nat, x: Issue)
    requires Numbered(b) && Tidy(b.issues) && x in b.issues && forall m <- x.labels :: !IsMarker(m)
    ensures Final(b, r, pinned, x) == ShownStatus(b, r, pinned, x)
  {
    RecordedByMarker(b, r.failures, x);
    ClosedByOwnMarker(b, r, x);
    forall f <- r.failures ensures Marker(f.fingerprint) !in x.labels {
      MarkerInverse(f.fingerprint);
    }
    hide ByMarker, Stale;
    var shown := ShownStatus(b, r, pinned, x);
    assert shown.number == x.number;
    assert Recorded(ByMarker(b.issues), r.failures, shown) == shown;
    var known, stale := ByMarker(b.issues), Stale(ByMarker(b.issues), Active(r));
    assert !exists m <- stale :: known[m].number == x.number;
    assert ClosedIfStale(known, stale, shown) == shown;
  }

  lemma FinalShowsFailure(b: Board, r: Report, pinned: nat, x: Issue, f: Failure)
    requires Numbered(b) && Tidy(b.issues) && x in b.issues && DistinctFailures(r.failures)
    requires f in r.failures && Marker(f.fingerprint) in x.labels
    ensures ShowsFailure(Final(b, r, pinned, x), f)
  {
    RecordedByMarker(b, r.failures, x);
    MarkerInverse(f.fingerprint);
    FinalOfMarked(b, r, pinned, x, Marker(f.fingerprint));
    FinalKeepsIdentity(b, r, pinned, x);
    var g := FailureFor(ByMarker(b.issues), r.failures, x.number);
    assert g.Some?;
    MarkerInverse(g.value.fingerprint);
    assert TidyIssue(x);
    OwnMarker(x, Marker(f.fingerprint), Marker(g.value.fingerprint));
    assert g.value == f;
  }

  lemma StatusIssueUnmarked(b: Board, pinned: nat, x: Issue)
    requires Ready(b, pinned) && x in b.issues && StatusTarget(b.issues, pinned) == Some(x.number)
    ensures forall m <- x.labels :: !IsMarker(m)
  {
    if x.number != pinned {
      FirstStatusMeaning(b.issues);
      var y :| y in b.issues && IsStatus(y) && y.number == x.number;
      SameNumber(b, x, y);
      assert TidyIssue(x) && STATUS_LABEL in Claims(x);
      forall m <- x.labels ensures !IsMarker(m) {
        MarkerInverse(m);
        assert IsMarker(m) ==> m in Claims(x);
      }
    }
  }

  lemma {:induction false} OpenedCovers(known: map<string, Issue>, fs: seq<Failure>, next: nat, f: Failure)
    requires f in fs && Marker(f.fingerprint) !in known
    ensures exists x <- Opened(known, fs, next) :: ShowsFailure(x, f)
  {
    var front := fs[..|fs| - 1];
    OpenedUnfold(known, fs, next);
    var before, all := Opened(known, front, next), Opened(known, fs, next);
    assert fs == front + [fs[|front|]];
    if f in front {
      OpenedCovers(known, front, next, f);
      var x :| x in before && ShowsFailure(x, f);
      assert x in all;
    } else {
      assert f == fs[|front|];
      assert ShowsFailure(all[|before|], f);
    }
  }

  /** Each sync makes the tracker mirror the report. */
  lemma SyncMirrors(b: Board, r: Report, pinned: nat)
    requires Ready(b, pinned) && DistinctFailures(r.failures)
    ensures Mirrors(Synced(b, r, pinned).issues, r)
  {
    var after := Synced(b, r, pinned).issues;
    hide Synced, Added, Final;
    forall x <- after, m <- x.labels | IsMarker(m) ensures x.open <==> Fingerprint(m) in Active(r) {
      var i :| 0 <= i < |after| && after[i] == x;
      OpenExactly(b, r, pinned, i, m);
      NumberAt(b, r, pinned, i);
      if i < |b.issues| && Reopened(b, pinned, b.issues[i]) {
        StatusIssueUnmarked(b, pinned, b.issues[i]);
      }
    }
    forall f <- r.failures ensures exists x <- after :: ShowsFailure(x, f) {
      FailureShown(b, r, pinned, f);
    }
  }

  lemma FailureShown(b: Board, r: Report, pinned: nat, f: Failure)
    requires Ready(b, pinned) && DistinctFailures(r.failures) && f in r.failures
    ensures exists x <- Synced(b, r, pinned).issues :: ShowsFailure(x, f)
  {
    var known, next := ByMarker(b.issues), b.next + |NewStatus(b, r, pinned)|;
    if Marker(f.fingerprint) in known {
      KnownFailureShown(b, r, pinned, f);
    } else {
      SyncedByIssue(b, r, pinned);
      OpenedCovers(known, r.failures, next, f);
      hide Synced, Final, FinalAll, Opened, ShowsFailure, ByMarker;
      var x :| x in Opened(known, r.failures, next) && ShowsFailure(x, f);
      assert x in Added(b, r, pinned);
      assert x in Synced(b, r, pinned).issues;
    }
  }

  lemma KnownFailureShown(b: Board, r: Report, pinned: nat, f: Failure)
    requires Ready(b, pinned) && DistinctFailures(r.failures) && f in r.failures
    requires Marker(f.fingerprint) in ByMarker(b.issues)
    ensures exists x <- Synced(b, r, pinned).issues :: ShowsFailure(x, f)
  {
    SyncedByIssue(b, r, pinned);
    MarkersFromIssues(b.issues);
    hide Synced, Final, Added;
    var x := ByMarker(b.issues)[Marker(f.fingerprint)];
    var i :| 0 <= i < |b.issues| && b.issues[i] == x;
    FinalShowsFailure(b, r, pinned, x, f);
    assert Synced(b, r, pinned).issues[i] == Final(b, r, pinned, x);
  }

  /** And shows the report's overall status in one issue that the next sync finds. */
  lemma SyncShowsStatus(b: Board, r: Report, pinned: nat)
    requires Ready(b, pinned) && DistinctFailures(r.failures)
    ensures StatusShown(Synced(b, r, pinned).issues, r, pinned)
  {
    var t := StatusAfter(b, r, pinned);
    SyncKeepsReady(b, r, pinned);
    hide Synced, Tidy;
    var c := Synced(b, r, pinned);
    forall x <- c.issues | x.number == c.issues[t].number ensures x == c.issues[t] {
      SameNumber(c, x, c.issues[t]);
    }
  }

  lemma StatusAfter(b: Board, r: Report, pinned: nat) returns (t: nat)
    requires Ready(b, pinned) && DistinctFailures(r.failures)
    ensures var after := Synced(b, r, pinned).issues;
            && t < |after| && Apply(after[t], StatusChange(r)) == after[t]
            && StatusTarget(after, pinned) == Some(after[t].number)
  {
    FirstStatusMeaning(b.issues);
    match StatusTarget(b.issues, pinned) {
      case Some(n) =>
        t :| 0 <= t < |b.issues| && b.issues[t].number == n;
        StatusIssueUnmarked(b, pinned, b.issues[t]);
        FinalUnmarked(b, r, pinned, b.issues[t]);
        StatusFoundAgain(b, r, pinned, t);
      case None =>
        t := |b.issues|;
        NewStatusFound(b, r, pinned);
    }
  }

  lemma PinnedStays(b: Board, r: Report, pinned: nat)
    requires Ready(b, pinned)
    ensures (exists x <- b.issues :: x.number == pinned) <==> (exists y <- Synced(b, r, pinned).issues :: y.number == pinned)
  {
    var after := Synced(b, r, pinned).issues;
    SyncedByIssue(b, r, pinned);
    hide Synced, Final, FinalAll, Added;
    if x :| x in b.issues && x.number == pinned {
      var i :| 0 <= i < |b.issues| && b.issues[i] == x;
      NumberAt(b, r, pinned, i);
      assert after[i] in after;
    }
    if y :| y in after && y.number == pinned {
      var i :| 0 <= i < |after| && after[i] == y;
      NumberAt(b, r, pinned, i);
      assert b.issues[i] in b.issues;
    }
  }

  /** The only issue labelled as the status is the one that is found. */
  lemma OnlyStatus(issues: seq<Issue>, t: nat)
    requires Tidy(issues) && t < |issues| && IsStatus(issues[t])
    ensures FirstStatus(issues) == Some(issues[t].number)
  {
    FirstStatusMeaning(issues);
    assert issues[t] in issues;
    var y :| y in issues && IsStatus(y) && FirstStatus(issues) == Some(y.number);
    var k :| 0 <= k < |issues| && issues[k] == y;
    ClaimedOnce(issues, k, t, STATUS_LABEL);
  }

  lemma ClaimedOnce(issues: seq<Issue>, i: nat, j: nat, l: string)
    requires Tidy(issues) && i < |issues| && j < |issues|
    requires l in Claims(issues[i]) && l in Claims(issues[j])
    ensures i == j
  {
    hide Claims;
  }

  lemma StatusFoundAgain(b: Board, r: Report, pinned: nat, t: nat)
    requires Ready(b, pinned) && DistinctFailures(r.failures)
    requires t < |b.issues| && StatusTarget(b.issues, pinned) == Some(b.issues[t].number)
    requires Final(b, r, pinned, b.issues[t]) == Apply(b.issues[t], StatusChange(r))
    ensures var after := Synced(b, r, pinned).issues;
            && t < |after| && Apply(after[t], StatusChange(r)) == after[t]
            && StatusTarget(after, pinned) == Some(after[t].number)
  {
    SyncedByIssue(b, r, pinned);
    NumberAt(b, r, pinned, t);
    PinnedStays(b, r, pinned);
    SyncKeepsTidy(b, r, pinned);
    hide Synced, Final, FinalAll, Added, Tidy;
    var after := Synced(b, r, pinned).issues;
    if pinned == 0 || !exists x <- b.issues :: x.number == pinned {
      FirstStatusMeaning(b.issues);
      var y :| y in b.issues && IsStatus(y) && y.number == b.issues[t].number;
      SameNumber(b, y, b.issues[t]);
      OnlyStatus(after, t);
    }
    assert (exists i | 0 <= i < |after| :: after[i].number == pinned) <==> exists y <- after :: y.number == pinned;
    assert (exists i | 0 <= i < |b.issues| :: b.issues[i].number == pinned) <==> exists x <- b.issues :: x.number == pinned;
  }

  lemma NewStatusFound(b: Board, r: Report, pinned: nat)
    requires Ready(b, pinned) && DistinctFailures(r.failures) && StatusTarget(b.issues, pinned) == None
    ensures var after, t := Synced(b, r, pinned).issues, |b.issues|;
            && t < |after| && Apply(after[t], StatusChange(r)) == after[t]
            && StatusTarget(after, pinned) == Some(after[t].number)
  {
    SyncedByIssue(b, r, pinned);
    PinnedStays(b, r, pinned);
    SyncKeepsTidy(b, r, pinned);
    hide Synced, Final, FinalAll, Tidy, Opened, ByMarker;
    var after, t := Synced(b, r, pinned).issues, |b.issues|;
    assert after[t] == NewStatus(b, r, pinned)[0];
    OnlyStatus(after, t);
    assert (exists i | 0 <= i < |after| :: after[i].number == pinned) <==> exists y <- after :: y.number == pinned;
    assert (exists i | 0 <= i < |b.issues| :: b.issues[i].number == pinned) <==> exists x <- b.issues :: x.number == pinned;
  }

  /** A tracker that mirrors a report already is what syncing that report makes of it. */
  lemma MirrorIsFixed(c: Board, r: Report, pinned: nat)
    requires Ready(c, pinned) && Mirrors(c.issues, r) && StatusShown(c.issues, r, pinned)
    ensures Synced(c, r, pinned) == c
    ensures forall f <- r.failures :: Marker(f.fingerprint) in ByMarker(c.issues)
    ensures Stale(ByMarker(c.issues), Active(r)) == {}
  {
    SyncedByIssue(c, r, pinned);
    NothingToDo(c, r, pinned);
    hide Synced, Final, Stale, Added, ByMarker, Mirrors, StatusShown, Ready;
    forall i | 0 <= i < |c.issues| ensures Final(c, r, pinned, c.issues[i]) == c.issues[i] {
      FinalFixed(c, r, pinned, c.issues[i]);
    }
    assert FinalAll(c, r, pinned) == c.issues;
  }

  lemma AllKnown(c: Board, r: Report)
    requires Tidy(c.issues) && Mirrors(c.issues, r)
    ensures forall f <- r.failures :: Marker(f.fingerprint) in ByMarker(c.issues)
  {
    forall f <- r.failures ensures Marker(f.fingerprint) in ByMarker(c.issues) {
      var x :| x in c.issues && ShowsFailure(x, f);
      var i :| 0 <= i < |c.issues| && c.issues[i] == x;
      MarkerInverse(f.fingerprint);
      MarkerLeads(c.issues, i, Marker(f.fingerprint));
    }
  }

  lemma NoneStale(c: Board, r: Report)
    requires Mirrors(c.issues, r)
    ensures Stale(ByMarker(c.issues), Active(r)) == {}
  {
    MarkersFromIssues(c.issues);
    hide ByMarker, ShowsFailure, Marker, Active;
    var known := ByMarker(c.issues);
    forall m <- known | IsMarker(m) ensures known[m].open ==> Fingerprint(m) in Active(r) {
      var x := known[m];
      assert x in c.issues && m in x.labels;
    }
  }

  lemma NothingToDo(c: Board, r: Report, pinned: nat)
    requires Ready(c, pinned) && Mirrors(c.issues, r) && StatusShown(c.issues, r, pinned)
    ensures forall f <- r.failures :: Marker(f.fingerprint) in ByMarker(c.issues)
    ensures Stale(ByMarker(c.issues), Active(r)) == {}
    ensures Added(c, r, pinned) == []
  {
    AllKnown(c, r);
    NoneStale(c, r);
    NoneOpened(ByMarker(c.issues), r.failures, c.next);
  }

  lemma {:induction false} NoneOpened(known: map<string, Issue>, fs: seq<Failure>, next: nat)
    requires forall f <- fs :: Marker(f.fingerprint) in known
    ensures Opened(known, fs, next) == []
  {
    if fs != [] {
      assert fs[|fs| - 1] in fs;
      NoneOpened(known, fs[..|fs| - 1], next);
    }
  }

  lemma FinalFixed(c: Board, r: Report, pinned: nat, x: Issue)
    requires Ready(c, pinned) && Mirrors(c.issues, r) && StatusShown(c.issues, r, pinned) && x in c.issues
    ensures Final(c, r, pinned, x) == x
  {
    var known := ByMarker(c.issues);
    RecordedByMarker(c, r.failures, x);
    ClosedByOwnMarker(c, r, x);
    var shown := ShownStatus(c, r, pinned, x);
    assert shown == x;
    if f :| f in r.failures && FailureFor(known, r.failures, x.number) == Some(f) {
      var y :| y in c.issues && ShowsFailure(y, f);
      MarkerInverse(f.fingerprint);
      SameMarker(c.issues, x, y, Marker(f.fingerprint));
    }
    hide ByMarker, Stale;
    assert Recorded(known, r.failures, x) == x;
  }

  lemma SameMarker(issues: seq<Issue>, x: Issue, y: Issue, m: string)
    requires Tidy(issues) && x in issues && y in issues && IsMarker(m) && m in x.labels && m in y.labels
    ensures x == y
  {
    var i :| 0 <= i < |issues| && issues[i] == x;
    var j :| 0 <= j < |issues| && issues[j] == y;
    MarkerLeads(issues, i, m);
    MarkerLeads(issues, j, m);
  }

  /** A second sync of the same report creates nothing, closes nothing and leaves
      the tracker as it is. */
  lemma SyncAgain(b: Board, r: Report, pinned: nat)
    requires Ready(b, pinned) && DistinctFailures(r.failures)
    ensures var c := Synced(b, r, pinned);
            && Synced(c, r, pinned) == c
            && Fingerprints(ByMarker(c.issues), r.failures, false) == []
            && Stale(ByMarker(c.issues), Active(r)) == {}
  {
    SyncKeepsReady(b, r, pinned);
    SyncMirrors(b, r, pinned);
    SyncShowsStatus(b, r, pinned);
    hide Synced;
    var c := Synced(b, r, pinned);
    MirrorIsFixed(c, r, pinned);
    NoneCreated(ByMarker(c.issues), r.failures);
  }

  lemma {:induction false} NoneCreated(known: map<string, Issue>, fs: seq<Failure>)
    requires forall f <- fs :: Marker(f.fingerprint) in known
    ensures Fingerprints(known, fs, false) == []
  {
    if fs != [] {
      assert fs[|fs| - 1] in fs;
      NoneCreated(known, fs[..|fs| - 1]);
    }
  }

  function Nights(b: Board, reports: seq<Report>, pinned: nat): Board {
    if reports == [] then b
    else Synced(Nights(b, reports[..|reports| - 1], pinned), reports[|reports| - 1], pinned)
  }

  /** Over any sequence of nightly reports the tracker stays tidy and mirrors the
      last report, and a fingerprint keeps its issue for good. */
  lemma {:induction false} NightsConverge(b: Board, reports: seq<Report>, pinned: nat)
    requires Ready(b, pinned) && forall r <- reports :: DistinctFailures(r.failures)
    ensures Ready(Nights(b, reports, pinned), pinned)
    ensures reports != [] ==>
              && Mirrors(Nights(b, reports, pinned).issues, reports[|reports| - 1])
              && StatusShown(Nights(b, reports, pinned).issues, reports[|reports| - 1], pinned)
    ensures var c := Nights(b, reports, pinned);
            |b.issues| <= |c.issues| && forall i | 0 <= i < |b.issues| ::
              c.issues[i].number == b.issues[i].number && c.issues[i].labels == b.issues[i].labels
  {
    if reports != [] {
      var front, r := reports[..|reports| - 1], reports[|reports| - 1];
      NightsConverge(b, front, pinned);
      hide Synced, Mirrors, StatusShown, Ready;
      var c := Nights(b, front, pinned);
      SyncKeepsReady(c, r, pinned);
      SyncMirrors(c, r, pinned);
      SyncShowsStatus(c, r, pinned);
      IdentityKept(c, r, pinned);
    }
  }

  // ------------------------------------------- a pinned number not yet issued

  /** A pinned number that the tracker has not handed out is no issue's. */
  lemma UnissuedIsNone(b: Board, r: Report, pinned: nat)
    requires Numbered(b) && pinned >= b.next
    ensures StatusTarget(b.issues, pinned) == StatusTarget(b.issues, 0)
    ensures Synced(b, r, pinned) == Synced(b, r, 0)
  {
  }

  /** While the nights do not hand it out, the tracker converges as without one. */
  lemma {:induction false} NightsWithoutPinned(b: Board, reports: seq<Report>, pinned: nat)
    requires Ready(b, 0) && forall r <- reports :: DistinctFailures(r.failures)
    requires pinned >= Nights(b, reports, 0).next
    ensures Nights(b, reports, pinned) == Nights(b, reports, 0)
    ensures b.next <= Nights(b, reports, 0).next
    ensures reports != [] ==>
              && Mirrors(Nights(b, reports, pinned).issues, reports[|reports| - 1])
              && StatusShown(Nights(b, reports, pinned).issues, reports[|reports| - 1], pinned)
  {
    if reports != [] {
      var front, r := reports[..|reports| - 1], reports[|reports| - 1];
      NightsConverge(b, front, 0);
      NightsConverge(b, reports, 0);
      var c := Nights(b, front, 0);
      SyncKeepsNumbered(c, r, 0);
      NightsWithoutPinned(b, front, pinned);
      UnissuedIsNone(c, r, pinned);
      var d := Nights(b, reports, 0);
      UnissuedIsNone(d, r, pinned);
      hide Synced, Mirrors, Tidy, Numbered;
    }
  }

  /** Otherwise a failure's issue can get the number: the next night writes the status
      into it, and closes it with the failure. */
  lemma PinnedTaken(f: Failure, first: string, second: string)
    ensures var b := Board([], 1);
            var c := Synced(b, Report(first, [f]), 2);
            var d := Synced(c, Report(second, []), 2);
            && Ready(b, 0)
            && |d.issues| == 2 && d.issues[1].number == 2 && Marker(f.fingerprint) in d.issues[1].labels
            && d.issues[1].title == STATUS_TITLE && d.issues[1].body == second && !d.issues[1].open
  {
    var b, r, s := Board([], 1), Report(first, [f]), Report(second, []);
    var c := Synced(b, r, 2);
    FirstNight(f, first);
    assert Tidy(b.issues) && Numbered(b);
    SyncKeepsTidy(b, r, 2);
    SyncKeepsNumbered(b, r, 2);
    hide Synced;
    var x, m := c.issues[1], Marker(f.fingerprint);
    assert x in c.issues && m == x.labels[2] && IsMarker(m);
    assert c.issues[1].number == 2 && StatusTarget(c.issues, 2) == Some(2);
    SyncedByIssue(c, s, 2);
    FinalOfMarked(c, s, 2, x, m);
    FinalKeepsIdentity(c, s, 2, x);
    assert Added(c, s, 2) == [];
    assert Synced(c, s, 2).issues[1] == Final(c, s, 2, x);
  }

  lemma FirstNight(f: Failure, statusBody: string)
    ensures Synced(Board([], 1), Report(statusBody, [f]), 2)
         == Board([Issue(1, STATUS_TITLE, statusBody, STATUS_LABELS, true),
                   Issue(2, f.title, f.body, FailureLabels(f.fingerprint), true)], 3)
  {
    var b, r := Board([], 1), Report(statusBody, [f]);
    SyncedByIssue(b, r, 2);
    assert ByMarker(b.issues) == map[] && r.failures[..0] == [];
    assert FirstStatus(b.issues) == None;
    var status := NewStatus(b, r, 2);
    assert Opened(map[], r.failures, 2) == [] + [Issue(2, f.title, f.body, FailureLabels(f.fingerprint), true)];
    hide Synced;
  }

  lemma IdentityKept(b: Board, r: Report, pinned: nat)
    requires Ready(b, pinned)
    ensures var c := Synced(b, r, pinned);
            |b.issues| <= |c.issues| && forall i | 0 <= i < |b.issues| ::
              c.issues[i].number == b.issues[i].number && c.issues[i].labels == b.issues[i].labels
  {
    SyncedByIssue(b, r, pinned);
    hide Synced, Final, FinalAll, Added;
    forall i | 0 <= i < |b.issues|
      ensures Synced(b, r, pinned).issues[i].number == b.issues[i].number
      ensures Synced(b, r, pinned).issues[i].labels == b.issues[i].labels {
      NumberAt(b, r, pinned, i);
    }
  }
}

/** What changed between two snapshots of an installation, and how much of it a
    failure message shows. */
module SnapshotDiff {
  import opened SortedKeys

  datatype Changes = Changes(changed: seq<string>, added: seq<string>, removed: seq<string>)

  /** _snapshot_changes. */
  function SnapshotChanges<V(==)>(before: map<string, V>, after: map<string, V>): Changes {
    Changes(Sorted(set path | path in before.Keys * after.Keys && before[path] != after[path]),
            Sorted(after.Keys - before.Keys),
            Sorted(before.Keys - after.Keys))
  }

  /** before with the reported paths, and no others, taken from after. */
  function Patched<V>(before: map<string, V>, changes: Changes, after: map<string, V>): map<string, V>
    requires forall path | path in changes.changed || path in changes.added :: path in after
  {
    map path | path in before.Keys + after.Keys
               && path !in changes.removed
               && (path in before || path in changes.added)
      :: if path in changes.changed || path in changes.added then after[path] else before[path]
  }

  function Paths(changes: Changes): seq<string> {
    changes.changed + changes.added + changes.removed
  }

  /** The report is sufficient: applied to the old snapshot it gives the new one. */
  lemma PatchReproduces<V>(before: map<string, V>, after: map<string, V>)
    ensures var c := SnapshotChanges(before, after);
            && (forall path | path in c.changed || path in c.added :: path in after)
            && Patched(before, c, after) == after
  {
  }

  /** It is minimal: a path is reported once, under one heading, exactly when the
      snapshots differ there. */
  lemma ReportedExactly<V>(before: map<string, V>, after: map<string, V>)
    ensures forall path :: path in Paths(SnapshotChanges(before, after)) <==>
              (path in before) != (path in after) || (path in before && before[path] != after[path])
    ensures var p := Paths(SnapshotChanges(before, after)); forall i, j | 0 <= i < j < |p| :: p[i] != p[j]
  {
    var c := SnapshotChanges(before, after);
    OnceEach(c.changed);
    OnceEach(c.added);
    OnceEach(c.removed);
    Disjoint(c.changed, c.added);
    Disjoint(c.changed + c.added, c.removed);
  }

  lemma Disjoint(a: seq<string>, b: seq<string>)
    requires forall i, j | 0 <= i < j < |a| :: a[i] != a[j]
    requires forall i, j | 0 <= i < j < |b| :: b[i] != b[j]
    requires forall x | x in a :: x !in b
    ensures forall i, j | 0 <= i < j < |a + b| :: (a + b)[i] != (a + b)[j]
  {
    forall i, j | 0 <= i < j < |a + b| ensures (a + b)[i] != (a + b)[j] {
      if i < |a| <= j {
        assert a[i] in a && b[j - |a|] in b;
      }
    }
  }

  lemma NoChangesExactly<V>(before: map<string, V>, after: map<string, V>)
    ensures Paths(SnapshotChanges(before, after)) == [] <==> before == after
  {
    var p := Paths(SnapshotChanges(before, after));
    ReportedExactly(before, after);
    hide SnapshotChanges, Paths;
    if p == [] {
      assert forall path :: path !in p;
      assert before.Keys == after.Keys;
    } else {
      assert p[0] in p;
    }
  }

  lemma OnceEach(keys: seq<string>)
    requires Increasing(keys)
    ensures forall i, j | 0 <= i < j < |keys| :: keys[i] != keys[j]
  {
    forall i, j | 0 <= i < j < |keys| ensures keys[i] != keys[j] {
      BeforeTotal(keys[i], keys[j]);
      assert Before(keys[i], keys[j]);
    }
  }

  /** Reversing the snapshots reverses the report. */
  lemma ChangesReversed<V>(before: map<string, V>, after: map<string, V>)
    ensures var c := SnapshotChanges(before, after);
            SnapshotChanges(after, before) == Changes(c.changed, c.removed, c.added)
  {
    assert (set path | path in before.Keys * after.Keys && before[path] != after[path])
        == (set path | path in after.Keys * before.Keys && after[path] != before[path]);
  }

  // ------------------------------------------------------------ the message

  const LIMIT := 20

  function Flat(parts: seq<seq<string>>): seq<string> {
    if parts == [] then [] else Flat(parts[..|parts| - 1]) + parts[|parts| - 1]
  }

  /** The paths _format_snapshot_changes lists under each heading: the first 20 of
      all, in order, so that a heading is cut only once the earlier ones are full. */
  method VisiblePaths(changes: Changes) returns (visible: seq<seq<string>>, remaining: int)
    ensures |visible| == 3
    ensures visible[0] <= changes.changed && visible[1] <= changes.added && visible[2] <= changes.removed
    ensures Flat(visible) <= Paths(changes)
    ensures |Flat(visible)| == if |Paths(changes)| <= 20 then |Paths(changes)| else 20
    ensures remaining == 20 - |Flat(visible)|
  {
    remaining := LIMIT;
    visible := [];
    var categories := [changes.changed, changes.added, changes.removed];
    for i := 0 to 3
      invariant |visible| == i && forall j | 0 <= j < i :: visible[j] <= categories[j]
      invariant Flat(visible) <= Flat(categories[..i])
      invariant |Flat(visible)| == if |Flat(categories[..i])| <= LIMIT then |Flat(categories[..i])| else LIMIT
      invariant remaining == LIMIT - |Flat(visible)|
    {
      var paths := categories[i];
      var seen := paths[..if remaining <= |paths| then remaining else |paths|];
      assert categories[..i + 1][..i] == categories[..i];
      assert (visible + [seen])[..i] == visible;
      remaining := remaining - |seen|;
      visible := visible + [seen];
    }
    FlatThree(changes.changed, changes.added, changes.removed);
    assert categories[..3] == categories;
  }

  lemma FlatThree(a: seq<string>, b: seq<string>, c: seq<string>)
    ensures Flat([a, b, c]) == a + b + c
  {
    assert [a, b, c][..2] == [a, b] && [a, b][..1] == [a] && [a][..0] == [];
    assert Flat([a]) == [] + a;
    assert Flat([a, b]) == Flat([a]) + b;
  }
}

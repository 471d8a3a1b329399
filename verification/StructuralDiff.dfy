/** _changed_paths: which positions of two JSON values differ. */
module StructuralDiff {
  import opened Json
  import opened SortedKeys

  type Path = seq<Segment>

  function Prefixed(segment: Segment, paths: seq<Path>): (r: seq<Path>)
    ensures |r| == |paths|
    ensures forall i :: 0 <= i < |r| ==> r[i] == [segment] + paths[i]
  {
    seq(|paths|, i requires 0 <= i < |paths| => [segment] + paths[i])
  }

  /** Paths are relative to the compared values, as segments instead of text. */
  function ChangedPaths(previous: Value, current: Value): seq<Path>
    decreases !previous.Null? && !current.Null?, previous, 1, 0
  {
    if previous.Dict? && current.Dict? then
      var keys := Sorted(previous.fields.Keys + current.fields.Keys);
      DictPaths(previous, current, keys)
    else if previous.List? && current.List? then
      ListPaths(previous, current, 0)
      + (if |previous.items| != |current.items| then [[Length]] else [])
    else if PyEqual(previous, current) then [] else [[]]
  }

  function DictPaths(previous: Value, current: Value, keys: seq<string>): seq<Path>
    requires previous.Dict? && current.Dict?
    decreases true, previous, 0, |keys|
  {
    if keys == [] then []
    else
      Prefixed(Key(keys[0]), ChangedPaths(Get(previous.fields, keys[0]), Get(current.fields, keys[0])))
      + DictPaths(previous, current, keys[1..])
  }

  function ListPaths(previous: Value, current: Value, from: nat): seq<Path>
    requires previous.List? && current.List?
    decreases true, previous, 0, |previous.items| - from
  {
    if from >= |previous.items| || from >= |current.items| then []
    else
      Prefixed(Index(from), ChangedPaths(previous.items[from], current.items[from]))
      + ListPaths(previous, current, from + 1)
  }

  // ------------------------------------------------------ no change at all

  /** What the comparison can see of a value: keys that hold null are gone at
      every depth, and booleans are the numbers Python takes them for. */
  function Canonical(v: Value): Value {
    match v
    case Bool(b) => Number(if b then 1.0 else 0.0)
    case List(items) => List(seq(|items|, i requires 0 <= i < |items| => Canonical(items[i])))
    case Dict(fields) => Dict(map k | k in fields && fields[k] != Null :: Canonical(fields[k]))
    case _ => v
  }

  ghost predicate NullFree(m: map<string, Value>) {
    forall k <- m :: m[k] != Null
  }

  lemma CanonicalGet(fields: map<string, Value>, k: string)
    ensures Get(Canonical(Dict(fields)).fields, k) == Canonical(Get(fields, k))
    ensures NullFree(Canonical(Dict(fields)).fields)
  {
  }

  lemma EqualByGet(x: map<string, Value>, y: map<string, Value>)
    requires NullFree(x) && NullFree(y)
    requires forall k :: Get(x, k) == Get(y, k)
    ensures x == y
  {
    forall k ensures k in x <==> k in y {
      assert Get(x, k) == Get(y, k);
    }
    forall k | k in x ensures x[k] == y[k] {
      assert Get(x, k) == Get(y, k);
    }
  }

  lemma SameCanonicalDict(a: Value, b: Value)
    requires a.Dict? && b.Dict?
    ensures Canonical(a) == Canonical(b)
       <==> forall k <- a.fields.Keys + b.fields.Keys :: Canonical(Get(a.fields, k)) == Canonical(Get(b.fields, k))
  {
    var x, y := Canonical(a).fields, Canonical(b).fields;
    forall k ensures Get(x, k) == Canonical(Get(a.fields, k)) && Get(y, k) == Canonical(Get(b.fields, k)) {
      CanonicalGet(a.fields, k);
      CanonicalGet(b.fields, k);
    }
    CanonicalGet(a.fields, "");
    CanonicalGet(b.fields, "");
    if forall k <- a.fields.Keys + b.fields.Keys :: Canonical(Get(a.fields, k)) == Canonical(Get(b.fields, k)) {
      forall k ensures Get(x, k) == Get(y, k) {
        if k !in a.fields.Keys + b.fields.Keys {
          assert Get(a.fields, k) == Get(b.fields, k) == Null;
        }
      }
      EqualByGet(x, y);
    } else {
      var k :| k in a.fields.Keys + b.fields.Keys && Canonical(Get(a.fields, k)) != Canonical(Get(b.fields, k));
      assert Get(x, k) != Get(y, k);
    }
  }

  /** The comparison reports nothing exactly for values with one canonical form.
      So a key that holds null counts as missing, and true counts as 1. */
  lemma {:induction false} UnchangedExactly(a: Value, b: Value)
    ensures ChangedPaths(a, b) == [] <==> Canonical(a) == Canonical(b)
    decreases !a.Null? && !b.Null?, a, 1, 0
  {
    if a.Dict? && b.Dict? {
      DictUnchanged(a, b, Sorted(a.fields.Keys + b.fields.Keys));
      SameCanonicalDict(a, b);
    } else if a.List? && b.List? {
      ListUnchanged(a, b, 0);
      var x, y := Canonical(a).items, Canonical(b).items;
      if |a.items| == |b.items| && ListPaths(a, b, 0) == [] {
        forall i | 0 <= i < |x| ensures x[i] == y[i] {
          assert Canonical(a.items[i]) == Canonical(b.items[i]);
        }
        assert x == y;
      }
      if x == y {
        forall i | 0 <= i < |a.items| ensures Canonical(a.items[i]) == Canonical(b.items[i]) {
          assert x[i] == y[i];
        }
      }
    }
  }

  lemma {:induction false} DictUnchanged(a: Value, b: Value, keys: seq<string>)
    requires a.Dict? && b.Dict?
    ensures DictPaths(a, b, keys) == []
       <==> forall k <- keys :: Canonical(Get(a.fields, k)) == Canonical(Get(b.fields, k))
    decreases true, a, 0, |keys|
  {
    if keys != [] {
      UnchangedExactly(Get(a.fields, keys[0]), Get(b.fields, keys[0]));
      DictUnchanged(a, b, keys[1..]);
      assert keys == [keys[0]] + keys[1..];
    }
  }

  lemma {:induction false} ListUnchanged(a: Value, b: Value, from: nat)
    requires a.List? && b.List?
    ensures ListPaths(a, b, from) == []
       <==> forall i :: from <= i < |a.items| && i < |b.items| ==> Canonical(a.items[i]) == Canonical(b.items[i])
    decreases true, a, 0, |a.items| - from
  {
    if from < |a.items| && from < |b.items| {
      UnchangedExactly(a.items[from], b.items[from]);
      ListUnchanged(a, b, from + 1);
    }
  }

  lemma NoChangeIsEquivalence(a: Value, b: Value, c: Value)
    ensures ChangedPaths(a, a) == []
    ensures ChangedPaths(a, b) == [] && ChangedPaths(b, c) == [] ==> ChangedPaths(a, c) == []
  {
    UnchangedExactly(a, a);
    UnchangedExactly(a, b);
    UnchangedExactly(b, c);
    UnchangedExactly(a, c);
  }

  /** Not the equality of JSON: these three pairs are all taken for unchanged. */
  lemma CoarserThanEquality(k: string)
    ensures ChangedPaths(Dict(map[k := Null]), Dict(map[])) == []
    ensures ChangedPaths(Bool(true), Number(1.0)) == []
    ensures ChangedPaths(Bool(false), Number(0.0)) == []
    ensures ChangedPaths(Dict(map[]), Null) != []
  {
    UnchangedExactly(Dict(map[k := Null]), Dict(map[]));
  }

  // ------------------------------------------------------------- symmetry

  lemma {:induction false} Symmetric(a: Value, b: Value)
    ensures ChangedPaths(a, b) == ChangedPaths(b, a)
    decreases !a.Null? && !b.Null?, a, 1, 0
  {
    if a.Dict? && b.Dict? {
      assert a.fields.Keys + b.fields.Keys == b.fields.Keys + a.fields.Keys;
      DictSymmetric(a, b, Sorted(a.fields.Keys + b.fields.Keys));
    } else if a.List? && b.List? {
      ListSymmetric(a, b, 0);
    }
  }

  lemma {:induction false} DictSymmetric(a: Value, b: Value, keys: seq<string>)
    requires a.Dict? && b.Dict?
    ensures DictPaths(a, b, keys) == DictPaths(b, a, keys)
    decreases true, a, 0, |keys|
  {
    if keys != [] {
      Symmetric(Get(a.fields, keys[0]), Get(b.fields, keys[0]));
      DictSymmetric(a, b, keys[1..]);
    }
  }

  lemma {:induction false} ListSymmetric(a: Value, b: Value, from: nat)
    requires a.List? && b.List?
    ensures ListPaths(a, b, from) == ListPaths(b, a, from)
    decreases true, a, 0, |a.items| - from
  {
    if from < |a.items| && from < |b.items| {
      Symmetric(a.items[from], b.items[from]);
      ListSymmetric(a, b, from + 1);
    }
  }

  // --------------------------------------------------- the reported paths

  /** The value at a path, null where nothing is there. */
  function Lookup(v: Value, path: Path): Value
    decreases |path|
  {
    if path == [] then v
    else
      match (path[0], v)
      case (Key(k), Dict(fields)) => Lookup(Get(fields, k), path[1..])
      case (Index(i), List(items)) => if i < |items| then Lookup(items[i], path[1..]) else Null
      case _ => Null
  }

  /** Both values have containers of one kind all along the path. */
  ghost predicate Together(a: Value, b: Value, path: Path)
    decreases |path|
  {
    path == [] ||
    match path[0]
    case Key(k) => a.Dict? && b.Dict? && (k in a.fields || k in b.fields)
                   && Together(Get(a.fields, k), Get(b.fields, k), path[1..])
    case Index(i) => a.List? && b.List? && i < |a.items| && i < |b.items|
                     && Together(a.items[i], b.items[i], path[1..])
    case Length => false
  }

  /** The values part at this path: here they are unequal and cannot both be
      entered, or they are lists of different lengths. */
  ghost predicate PartAt(a: Value, b: Value, path: Path) {
    if path != [] && path[|path| - 1] == Length then
      var up := path[..|path| - 1];
      var x, y := Lookup(a, up), Lookup(b, up);
      Together(a, b, up) && x.List? && y.List? && |x.items| != |y.items|
    else
      var x, y := Lookup(a, path), Lookup(b, path);
      Together(a, b, path) && !(x.Dict? && y.Dict?) && !(x.List? && y.List?) && !PyEqual(x, y)
  }

  lemma PartBelow(a: Value, b: Value, path: Path)
    requires path != [] && (path[0].Key? || path[0].Index?)
    ensures PartAt(a, b, path) <==>
      match path[0]
      case Key(k) => a.Dict? && b.Dict? && (k in a.fields || k in b.fields)
                     && PartAt(Get(a.fields, k), Get(b.fields, k), path[1..])
      case Index(i) => a.List? && b.List? && i < |a.items| && i < |b.items|
                       && PartAt(a.items[i], b.items[i], path[1..])
      case Length => false
  {
    if path[|path| - 1] == Length {
      assert path[..|path| - 1][1..] == path[1..][..|path| - 2];
    }
  }

  lemma PartHere(a: Value, b: Value, path: Path)
    requires path == [] || path[0] == Length
    ensures PartAt(a, b, path) <==>
      if a.List? && b.List? then path == [Length] && |a.items| != |b.items|
      else path == [] && !(a.Dict? && b.Dict?) && !PyEqual(a, b)
  {
    if |path| == 1 {
      assert path == [Length] && path[..0] == [];
    }
  }

  lemma PrefixedMembers(segment: Segment, paths: seq<Path>, path: Path)
    ensures path in Prefixed(segment, paths) <==> path != [] && path[0] == segment && path[1..] in paths
  {
    var r := Prefixed(segment, paths);
    if path in r {
      var i :| 0 <= i < |r| && r[i] == path;
      assert path[1..] == paths[i];
    }
    if path != [] && path[0] == segment && path[1..] in paths {
      var i :| 0 <= i < |paths| && paths[i] == path[1..];
      assert r[i] == path;
    }
  }

  /** A path is reported exactly when the two values part there. */
  lemma {:induction false} ReportedExactly(a: Value, b: Value, path: Path)
    ensures path in ChangedPaths(a, b) <==> PartAt(a, b, path)
    decreases !a.Null? && !b.Null?, a, 1, 0
  {
    hide PartAt;
    if path != [] && path[0] != Length {
      PartBelow(a, b, path);
    } else {
      PartHere(a, b, path);
    }
    if a.Dict? && b.Dict? {
      DictReported(a, b, Sorted(a.fields.Keys + b.fields.Keys), path);
    } else if a.List? && b.List? {
      ListReported(a, b, 0, path);
    }
  }

  lemma {:induction false} DictReported(a: Value, b: Value, keys: seq<string>, path: Path)
    requires a.Dict? && b.Dict?
    ensures path in DictPaths(a, b, keys)
       <==> path != [] && path[0].Key? && path[0].name in keys
            && PartAt(Get(a.fields, path[0].name), Get(b.fields, path[0].name), path[1..])
    decreases true, a, 0, |keys|
  {
    if keys != [] {
      var x, y := Get(a.fields, keys[0]), Get(b.fields, keys[0]);
      PrefixedMembers(Key(keys[0]), ChangedPaths(x, y), path);
      if path != [] {
        ReportedExactly(x, y, path[1..]);
      }
      DictReported(a, b, keys[1..], path);
    }
  }

  lemma {:induction false} ListReported(a: Value, b: Value, from: nat, path: Path)
    requires a.List? && b.List?
    ensures path in ListPaths(a, b, from)
       <==> path != [] && path[0].Index? && from <= path[0].position < |a.items| && path[0].position < |b.items|
            && PartAt(a.items[path[0].position], b.items[path[0].position], path[1..])
    decreases true, a, 0, |a.items| - from
  {
    if from < |a.items| && from < |b.items| {
      var x, y := a.items[from], b.items[from];
      PrefixedMembers(Index(from), ChangedPaths(x, y), path);
      if path != [] {
        ReportedExactly(x, y, path[1..]);
      }
      ListReported(a, b, from + 1, path);
    }
  }

  ghost predicate Distinct(paths: seq<Path>) {
    forall i, j :: 0 <= i < j < |paths| ==> paths[i] != paths[j]
  }

  lemma PrefixedDistinct(segment: Segment, paths: seq<Path>)
    requires Distinct(paths)
    ensures Distinct(Prefixed(segment, paths))
  {
    var r := Prefixed(segment, paths);
    forall i, j | 0 <= i < j < |r| ensures r[i] != r[j] {
      assert r[i][1..] == paths[i] && r[j][1..] == paths[j];
    }
  }

  /** No difference is reported twice. */
  lemma {:induction false} ReportedOnce(a: Value, b: Value)
    ensures Distinct(ChangedPaths(a, b))
    decreases !a.Null? && !b.Null?, a, 1, 0
  {
    if a.Dict? && b.Dict? {
      DictReportedOnce(a, b, Sorted(a.fields.Keys + b.fields.Keys));
    } else if a.List? && b.List? {
      ListReportedOnce(a, b, 0);
      ListReported(a, b, 0, [Length]);
    }
  }

  lemma {:induction false} DictReportedOnce(a: Value, b: Value, keys: seq<string>)
    requires a.Dict? && b.Dict? && Increasing(keys)
    ensures Distinct(DictPaths(a, b, keys))
    decreases true, a, 0, |keys|
  {
    if keys != [] {
      var x, y := Get(a.fields, keys[0]), Get(b.fields, keys[0]);
      var first, rest := Prefixed(Key(keys[0]), ChangedPaths(x, y)), DictPaths(a, b, keys[1..]);
      ReportedOnce(x, y);
      PrefixedDistinct(Key(keys[0]), ChangedPaths(x, y));
      DictReportedOnce(a, b, keys[1..]);
      forall i, j | 0 <= i < |first| && 0 <= j < |rest| ensures first[i] != rest[j] {
        DictReported(a, b, keys[1..], rest[j]);
        BeforeTotal(keys[0], keys[0]);
        assert keys[0] !in keys[1..];
      }
    }
  }

  lemma {:induction false} ListReportedOnce(a: Value, b: Value, from: nat)
    requires a.List? && b.List?
    ensures Distinct(ListPaths(a, b, from))
    decreases true, a, 0, |a.items| - from
  {
    if from < |a.items| && from < |b.items| {
      var x, y := a.items[from], b.items[from];
      var first, rest := Prefixed(Index(from), ChangedPaths(x, y)), ListPaths(a, b, from + 1);
      ReportedOnce(x, y);
      PrefixedDistinct(Index(from), ChangedPaths(x, y));
      ListReportedOnce(a, b, from + 1);
      forall i, j | 0 <= i < |first| && 0 <= j < |rest| ensures first[i] != rest[j] {
        ListReported(a, b, from + 1, rest[j]);
      }
    }
  }

  // ---------------------------------------------------------------- order

  /** Keys in their order, positions in theirs, the length after all positions. */
  predicate SegmentBefore(s: Segment, t: Segment) {
    match (s, t)
    case (Key(a), Key(b)) => Before(a, b)
    case (Index(i), Index(j)) => i < j
    case (Index(_), Length) => true
    case _ => false
  }

  predicate PathBefore(p: Path, q: Path) {
    p != [] && q != [] && (SegmentBefore(p[0], q[0]) || (p[0] == q[0] && PathBefore(p[1..], q[1..])))
  }

  ghost predicate InOrder(paths: seq<Path>) {
    forall i, j :: 0 <= i < j < |paths| ==> PathBefore(paths[i], paths[j])
  }

  lemma PrefixedInOrder(segment: Segment, paths: seq<Path>)
    requires InOrder(paths)
    ensures InOrder(Prefixed(segment, paths))
  {
    var r := Prefixed(segment, paths);
    forall i, j | 0 <= i < j < |r| ensures PathBefore(r[i], r[j]) {
      assert r[i][1..] == paths[i] && r[j][1..] == paths[j];
    }
  }

  /** Every path of the second begins behind the segment that those of the first begin with. */
  lemma OneAfterTheOther(segment: Segment, paths: seq<Path>, rest: seq<Path>)
    requires InOrder(paths) && InOrder(rest)
    requires forall q: Path <- rest :: q != [] && SegmentBefore(segment, q[0])
    ensures InOrder(Prefixed(segment, paths) + rest)
  {
    PrefixedInOrder(segment, paths);
    var first := Prefixed(segment, paths);
    var all := first + rest;
    forall i, j | 0 <= i < j < |all| ensures PathBefore(all[i], all[j]) {
      if i < |first| <= j {
        assert all[j] in rest;
      }
    }
  }

  /** The differences are reported in order, at every depth. */
  lemma {:induction false} ReportedInOrder(a: Value, b: Value)
    ensures InOrder(ChangedPaths(a, b))
    decreases !a.Null? && !b.Null?, a, 1, 0
  {
    if a.Dict? && b.Dict? {
      DictInOrder(a, b, Sorted(a.fields.Keys + b.fields.Keys));
    } else if a.List? && b.List? {
      ListInOrder(a, b, 0);
      var paths := ListPaths(a, b, 0);
      if |a.items| != |b.items| {
        forall i | 0 <= i < |paths| ensures PathBefore(paths[i], [Length]) {
          assert paths[i] in paths;
        }
      }
    }
  }

  lemma {:induction false} DictInOrder(a: Value, b: Value, keys: seq<string>)
    requires a.Dict? && b.Dict? && Increasing(keys)
    ensures InOrder(DictPaths(a, b, keys))
    ensures forall p: Path <- DictPaths(a, b, keys) :: p != [] && p[0].Key? && p[0].name in keys
    decreases true, a, 0, |keys|
  {
    if keys != [] {
      var x, y := Get(a.fields, keys[0]), Get(b.fields, keys[0]);
      var rest := DictPaths(a, b, keys[1..]);
      ReportedInOrder(x, y);
      DictInOrder(a, b, keys[1..]);
      forall q: Path <- rest ensures SegmentBefore(Key(keys[0]), q[0]) {
        var k :| 0 <= k < |keys[1..]| && keys[1..][k] == q[0].name;
        assert keys[k + 1] == q[0].name;
      }
      OneAfterTheOther(Key(keys[0]), ChangedPaths(x, y), rest);
      assert forall k <- keys[1..] :: k in keys;
    }
  }

  lemma {:induction false} ListInOrder(a: Value, b: Value, from: nat)
    requires a.List? && b.List?
    ensures InOrder(ListPaths(a, b, from))
    ensures forall p: Path <- ListPaths(a, b, from) :: p != [] && p[0].Index? && p[0].position >= from
    decreases true, a, 0, |a.items| - from
  {
    if from < |a.items| && from < |b.items| {
      var x, y := a.items[from], b.items[from];
      ReportedInOrder(x, y);
      ListInOrder(a, b, from + 1);
      OneAfterTheOther(Index(from), ChangedPaths(x, y), ListPaths(a, b, from + 1));
    }
  }
}

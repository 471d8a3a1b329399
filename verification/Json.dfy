/** Parsed JSON values as the journey harness holds them, and Python's equality on them. */
module Json {

  /** A dictionary is a map: the order of its keys is not represented. */
  datatype Value =
    | Null
    | Bool(b: bool)
    | Number(n: real)
    | Text(s: string)
    | List(items: seq<Value>)
    | Dict(fields: map<string, Value>)

  /** One step of a path into a value. */
  datatype Segment = Key(name: string) | Index(position: nat) | Length

  /** Python compares True with 1 and False with 0 at every depth, so equality is
      equality after booleans have been read as numbers. */
  function Numeric(v: Value): Value {
    match v
    case Bool(b) => Number(if b then 1.0 else 0.0)
    case List(items) => List(seq(|items|, i requires 0 <= i < |items| => Numeric(items[i])))
    case Dict(fields) => Dict(map k | k in fields :: Numeric(fields[k]))
    case _ => v
  }

  predicate PyEqual(a: Value, b: Value) {
    Numeric(a) == Numeric(b)
  }

  /** dict.get(key), with None for a missing key. */
  function Get(fields: map<string, Value>, key: string): Value {
    if key in fields then fields[key] else Null
  }

  ghost predicate SameKeys(a: map<string, Value>, b: map<string, Value>) {
    forall k :: k in a <==> k in b
  }

  /** Equality as Python has it, kind by kind: numbers and booleans by value, the rest
      within its own kind, part by part. */
  lemma PyEqualExactly(a: Value, b: Value)
    ensures PyEqual(a, b) <==>
              match (a, b)
              case (Null, Null) => true
              case (Text(s), Text(t)) => s == t
              case (Number(x), Number(y)) => x == y
              case (Bool(x), Bool(y)) => x == y
              case (Bool(x), Number(y)) => if x then y == 1.0 else y == 0.0
              case (Number(x), Bool(y)) => if y then x == 1.0 else x == 0.0
              case (List(xs), List(ys)) => |xs| == |ys| && forall i | 0 <= i < |xs| :: PyEqual(xs[i], ys[i])
              case (Dict(f), Dict(g)) => SameKeys(f, g) && forall k | k in f :: PyEqual(f[k], g[k])
              case _ => false
  {
    match (a, b)
    case (List(xs), List(ys)) =>
      var m, n := Numeric(a).items, Numeric(b).items;
      assert |m| == |xs| && |n| == |ys|;
      assert forall i | 0 <= i < |xs| :: m[i] == Numeric(xs[i]);
      assert forall i | 0 <= i < |ys| :: n[i] == Numeric(ys[i]);
      if PyEqual(a, b) {
        assert m == n;
      }
    case (Dict(f), Dict(g)) =>
      var m, n := Numeric(a).fields, Numeric(b).fields;
      assert m.Keys == f.Keys && n.Keys == g.Keys;
      assert forall k | k in f :: m[k] == Numeric(f[k]);
      assert forall k | k in g :: n[k] == Numeric(g[k]);
      if PyEqual(a, b) {
        assert m == n;
        assert forall k :: k in m <==> k in n;
      }
    case _ =>
  }
}

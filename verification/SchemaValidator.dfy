/** _schema_errors: the JSON Schema subset the journeys check contracts with.

    Valid says what a schema asks of a value. Violated says what one reported
    error claims, and Raises when resolving a reference fails instead. The method
    is the source's recursion; it reports exactly the violations. */
module SchemaValidator {
  import opened Json
  import opened Options

  datatype Alternatives = NoAlternatives | ExactlyOneOf(options: seq<Schema>)

  datatype Additional = Allowed | Forbidden | Matching(schema: Schema)

  datatype Items = AnyItems | EachItem(schema: Schema)

  datatype Schema = Schema(
    ref: Option<string>,
    alternatives: Alternatives,
    expectedType: Option<string>,
    constant: Option<Value>,
    enumeration: Option<seq<Value>>,
    minLength: int,
    pattern: Option<string>,
    uri: bool,
    required: set<string>,
    properties: map<string, Schema>,
    additional: Additional,
    items: Items)

  const ANYTHING := Schema(None, NoAlternatives, None, None, None, 0, None, false, {}, map[], Allowed, AnyItems)

  /** definitions: what each pointer below "#/" leads to in the root schema.
      matches: re.search(pattern, text) found something. */
  datatype Contracts = Contracts(definitions: map<string, Schema>, error: Schema, matches: (string, string) -> bool)

  datatype Resolution = Resolved(schema: Schema) | Dangling | Unsupported

  predicate StartsWith(s: string, prefix: string) { prefix <= s }

  predicate EndsWith(s: string, suffix: string) { |suffix| <= |s| && s[|s| - |suffix|..] == suffix }

  /** Pointers are looked up in the root schema, even from inside the error schema. */
  function Resolve(c: Contracts, ref: string): Resolution {
    if StartsWith(ref, "#/") then
      if ref[2..] in c.definitions then Resolved(c.definitions[ref[2..]]) else Dangling
    else if EndsWith(ref, "error-envelope.schema.json") then Resolved(c.error)
    else Unsupported
  }

  datatype Kind =
    | UnsupportedReference(ref: string)
    | NotExactlyOne
    | WrongType(expected: string)
    | NotConstant
    | OutsideEnum
    | TooShort
    | PatternMismatch
    | NotUri
    | Missing(key: string)
    | Unexpected(key: string)

  datatype Error = Error(path: seq<Segment>, kind: Kind)

  datatype Outcome = Raised | Errors(errors: seq<Error>)

  // ---------------------------------------------------------- termination

  /** How many references can be followed from s before a value is entered. */
  ghost function Height(rank: string -> nat, s: Schema): (h: nat)
    ensures s.ref.None? && s.alternatives.ExactlyOneOf? ==>
              forall o <- s.alternatives.options :: Height(rank, o) <= h
  {
    match s.ref
    case Some(ref) => rank(ref) + 1
    case None =>
      match s.alternatives
      case ExactlyOneOf(options) => MaxHeight(rank, options)
      case NoAlternatives => 0
  }

  ghost function MaxHeight(rank: string -> nat, options: seq<Schema>): (h: nat)
    ensures forall o <- options :: Height(rank, o) <= h
  {
    if options == [] then 0
    else
      var first, rest := Height(rank, options[0]), MaxHeight(rank, options[1..]);
      assert forall o <- options :: o == options[0] || o in options[1..];
      if first > rest then first else rest
  }

  ghost predicate RankedBy(c: Contracts, rank: string -> nat) {
    forall ref :: Resolve(c, ref).Resolved? ==> Height(rank, Resolve(c, ref).schema) <= rank(ref)
  }

  /** Following references without entering a value always comes to an end. */
  ghost predicate Acyclic(c: Contracts) {
    exists rank :: RankedBy(c, rank)
  }

  ghost function Rank(c: Contracts): (rank: string -> nat)
    requires Acyclic(c)
    ensures RankedBy(c, rank)
  {
    var rank :| RankedBy(c, rank);
    rank
  }

  // ------------------------------------------------------ what is required

  predicate TypeHolds(v: Value, s: Schema) {
    match s.expectedType
    case None => true
    case Some(t) =>
      if t == "object" then v.Dict?
      else if t == "array" then v.List?
      else if t == "string" then v.Text?
      else if t == "boolean" then v.Bool?
      else true // any other type is not checked
  }

  predicate IsLetter(c: char) { 'a' <= c <= 'z' || 'A' <= c <= 'Z' }

  predicate IsSchemeChar(c: char) { IsLetter(c) || '0' <= c <= '9' || c == '+' || c == '.' || c == '-' }

  predicate HasScheme(s: string) {
    exists n :: 1 <= n < |s| && s[n] == ':' && IsLetter(s[0]) && forall i :: 0 < i < n ==> IsSchemeChar(s[i])
  }

  predicate Listed(v: Value, values: seq<Value>) {
    exists w <- values :: PyEqual(v, w)
  }

  predicate ScalarHolds(c: Contracts, v: Value, s: Schema) {
    && (s.constant.Some? ==> PyEqual(v, s.constant.value))
    && (s.enumeration.Some? ==> Listed(v, s.enumeration.value))
    && (v.Text? ==>
          && |v.s| >= s.minLength
          && (s.pattern.Some? ==> c.matches(s.pattern.value, v.s))
          && (s.uri ==> HasScheme(v.s)))
  }

  /** What applies to the value of one key: additionalProperties is for undeclared keys only. */
  function ForKey(s: Schema, k: string): Additional {
    if k in s.properties then Matching(s.properties[k]) else s.additional
  }

  ghost predicate OnlyAt(verdicts: seq<bool>, i: int) {
    0 <= i < |verdicts| && verdicts[i] && forall j | 0 <= j < |verdicts| && j != i :: !verdicts[j]
  }

  ghost predicate ExactlyOne(verdicts: seq<bool>) {
    exists i :: OnlyAt(verdicts, i)
  }

  /** The meaning of a schema. A reference replaces everything beside it, and
      alternatives replace everything but a reference. */
  ghost predicate Valid(c: Contracts, v: Value, s: Schema)
    requires Acyclic(c)
    decreases v, Height(Rank(c), s), s
  {
    match s.ref
    case Some(ref) => Resolve(c, ref).Resolved? && Valid(c, v, Resolve(c, ref).schema)
    case None =>
      match s.alternatives
      case ExactlyOneOf(options) =>
        ExactlyOne(seq(|options|, i requires 0 <= i < |options| => Valid(c, v, options[i])))
      case NoAlternatives =>
        && TypeHolds(v, s)
        && ScalarHolds(c, v, s)
        && (v.Dict? ==>
              && s.required <= v.fields.Keys
              && forall k <- v.fields ::
                   match ForKey(s, k)
                   case Allowed => true
                   case Forbidden => false
                   case Matching(m) => Valid(c, v.fields[k], m))
        && (v.List? && s.items.EachItem? ==>
              forall i | 0 <= i < |v.items| :: Valid(c, v.items[i], s.items.schema))
  }

  /** A reference that leads nowhere is reached. */
  ghost predicate Raises(c: Contracts, v: Value, s: Schema)
    requires Acyclic(c)
    decreases v, Height(Rank(c), s), s
  {
    match s.ref
    case Some(ref) =>
      (match Resolve(c, ref)
       case Resolved(target) => Raises(c, v, target)
       case Dangling => true
       case Unsupported => false)
    case None =>
      match s.alternatives
      case ExactlyOneOf(options) => exists i | 0 <= i < |options| :: Raises(c, v, options[i])
      case NoAlternatives =>
        && TypeHolds(v, s)
        && ((v.Dict? && exists k <- v.fields :: ForKey(s, k).Matching? && Raises(c, v.fields[k], ForKey(s, k).schema))
            || (v.List? && s.items.EachItem? && exists i | 0 <= i < |v.items| :: Raises(c, v.items[i], s.items.schema)))
  }

  predicate LocalViolation(c: Contracts, v: Value, s: Schema, kind: Kind) {
    match kind
    case NotConstant => s.constant.Some? && !PyEqual(v, s.constant.value)
    case OutsideEnum => s.enumeration.Some? && !Listed(v, s.enumeration.value)
    case TooShort => v.Text? && |v.s| < s.minLength
    case PatternMismatch => v.Text? && s.pattern.Some? && !c.matches(s.pattern.value, v.s)
    case NotUri => v.Text? && s.uri && !HasScheme(v.s)
    case Missing(k) => v.Dict? && k in s.required && k !in v.fields
    case Unexpected(k) => v.Dict? && k in v.fields && ForKey(s, k).Forbidden?
    case _ => false
  }

  /** Following path into v leads to a value that breaks the constraint kind names. */
  ghost predicate Violated(c: Contracts, v: Value, s: Schema, path: seq<Segment>, kind: Kind)
    requires Acyclic(c)
    decreases v, Height(Rank(c), s), s
  {
    match s.ref
    case Some(ref) =>
      (match Resolve(c, ref)
       case Resolved(target) => Violated(c, v, target, path, kind)
       case Dangling => false
       case Unsupported => path == [] && kind == UnsupportedReference(ref))
    case None =>
      if s.alternatives.ExactlyOneOf? then path == [] && kind == NotExactlyOne && !Valid(c, v, s)
      else if !TypeHolds(v, s) then path == [] && kind == WrongType(s.expectedType.value)
      else if path == [] then LocalViolation(c, v, s, kind)
      else
        match path[0]
        case Key(k) => v.Dict? && k in v.fields && ForKey(s, k).Matching?
                       && Violated(c, v.fields[k], ForKey(s, k).schema, path[1..], kind)
        case Index(i) => v.List? && s.items.EachItem? && i < |v.items|
                         && Violated(c, v.items[i], s.items.schema, path[1..], kind)
        case Length => false
  }

  ghost predicate Unviolated(c: Contracts, v: Value, s: Schema)
    requires Acyclic(c)
  {
    forall path, kind :: !Violated(c, v, s, path, kind)
  }

  /** Unless a dangling reference is reached, a value is valid exactly when
      nothing in it is violated. */
  lemma {:induction false} ValidExactly(c: Contracts, v: Value, s: Schema)
    requires Acyclic(c) && !Raises(c, v, s)
    ensures Valid(c, v, s) <==> Unviolated(c, v, s)
    decreases v, Height(Rank(c), s), s, 1
  {
    if s.ref.Some? {
      var ref := s.ref.value;
      if Resolve(c, ref).Resolved? {
        var target := Resolve(c, ref).schema;
        ValidExactly(c, v, target);
        forall path, kind ensures Violated(c, v, s, path, kind) == Violated(c, v, target, path, kind) {
        }
      } else {
        assert Violated(c, v, s, [], UnsupportedReference(ref));
      }
    } else if s.alternatives.ExactlyOneOf? {
      if !Valid(c, v, s) {
        assert Violated(c, v, s, [], NotExactlyOne);
      } else {
        forall path, kind ensures !Violated(c, v, s, path, kind) {
        }
      }
    } else if !TypeHolds(v, s) {
      assert Violated(c, v, s, [], WrongType(s.expectedType.value));
    } else {
      if Valid(c, v, s) {
        forall path, kind ensures !Violated(c, v, s, path, kind) {
          ValidHasNoViolation(c, v, s, path, kind);
        }
      } else {
        var path, kind := InvalidHasViolation(c, v, s);
      }
    }
  }

  lemma {:induction false} ValidHasNoViolation(c: Contracts, v: Value, s: Schema, path: seq<Segment>, kind: Kind)
    requires Acyclic(c) && !Raises(c, v, s) && Valid(c, v, s)
    requires s.ref.None? && s.alternatives.NoAlternatives?
    ensures !Violated(c, v, s, path, kind)
    decreases v, Height(Rank(c), s), s, 0
  {
    if path != [] {
      match path[0]
      case Key(k) =>
        if v.Dict? && k in v.fields && ForKey(s, k).Matching? {
          ValidExactly(c, v.fields[k], ForKey(s, k).schema);
        }
      case Index(i) =>
        if v.List? && s.items.EachItem? && i < |v.items| {
          assert !Raises(c, v.items[i], s.items.schema) && Valid(c, v.items[i], s.items.schema);
          ValidExactly(c, v.items[i], s.items.schema);
        }
      case Length =>
    }
  }

  lemma {:induction false} InvalidHasViolation(c: Contracts, v: Value, s: Schema)
    returns (path: seq<Segment>, kind: Kind)
    requires Acyclic(c) && !Raises(c, v, s) && !Valid(c, v, s)
    requires s.ref.None? && s.alternatives.NoAlternatives? && TypeHolds(v, s)
    ensures Violated(c, v, s, path, kind)
    decreases v, Height(Rank(c), s), s, 0
  {
    if !ScalarHolds(c, v, s) {
      path := [];
      kind :=
        if LocalViolation(c, v, s, NotConstant) then NotConstant
        else if LocalViolation(c, v, s, OutsideEnum) then OutsideEnum
        else if LocalViolation(c, v, s, TooShort) then TooShort
        else if LocalViolation(c, v, s, PatternMismatch) then PatternMismatch
        else NotUri;
    } else if v.Dict? {
      if k :| k in s.required && k !in v.fields {
        path, kind := [], Missing(k);
      } else {
        var k :| k in v.fields && match ForKey(s, k)
                                  case Allowed => false
                                  case Forbidden => true
                                  case Matching(m) => !Valid(c, v.fields[k], m);
        if ForKey(s, k).Forbidden? {
          path, kind := [], Unexpected(k);
        } else {
          path, kind := DeeperViolation(c, v.fields[k], ForKey(s, k).schema);
          assert ([Key(k)] + path)[1..] == path;
          path := [Key(k)] + path;
        }
      }
    } else {
      var i :| 0 <= i < |v.items| && !Valid(c, v.items[i], s.items.schema);
      path, kind := DeeperViolation(c, v.items[i], s.items.schema);
      assert ([Index(i)] + path)[1..] == path;
      path := [Index(i)] + path;
    }
  }

  lemma {:induction false} DeeperViolation(c: Contracts, v: Value, s: Schema)
    returns (path: seq<Segment>, kind: Kind)
    requires Acyclic(c) && !Raises(c, v, s) && !Valid(c, v, s)
    ensures Violated(c, v, s, path, kind)
    decreases v, Height(Rank(c), s), s, 2
  {
    ValidExactly(c, v, s);
    path, kind :| Violated(c, v, s, path, kind);
  }

  // ------------------------------------------------------------ the method

  /** The reported errors are exactly the violations, each below path. */
  /** Following path into v, and alternatives on the way, leads to a value that is
      checked against a pointer to nowhere. */
  ghost predicate Dangles(c: Contracts, v: Value, s: Schema, path: seq<Segment>)
    requires Acyclic(c)
    decreases v, Height(Rank(c), s), s
  {
    match s.ref
    case Some(ref) =>
      (match Resolve(c, ref)
       case Resolved(target) => Dangles(c, v, target, path)
       case Dangling => path == []
       case Unsupported => false)
    case None =>
      if s.alternatives.ExactlyOneOf? then exists o <- s.alternatives.options :: Dangles(c, v, o, path)
      else if !TypeHolds(v, s) || path == [] then false
      else
        match path[0]
        case Key(k) => v.Dict? && k in v.fields && ForKey(s, k).Matching?
                       && Dangles(c, v.fields[k], ForKey(s, k).schema, path[1..])
        case Index(i) => v.List? && s.items.EachItem? && i < |v.items|
                         && Dangles(c, v.items[i], s.items.schema, path[1..])
        case Length => false
  }

  lemma {:induction false} DanglesRaises(c: Contracts, v: Value, s: Schema, path: seq<Segment>)
    requires Acyclic(c) && Dangles(c, v, s, path)
    ensures Raises(c, v, s)
    decreases v, Height(Rank(c), s), s
  {
    match s.ref
    case Some(ref) =>
      if Resolve(c, ref).Resolved? {
        DanglesRaises(c, v, Resolve(c, ref).schema, path);
      }
    case None =>
      if s.alternatives.ExactlyOneOf? {
        var o :| o in s.alternatives.options && Dangles(c, v, o, path);
        DanglesRaises(c, v, o, path);
      } else {
        match path[0]
        case Key(k) => DanglesRaises(c, v.fields[k], ForKey(s, k).schema, path[1..]);
        case Index(i) => DanglesRaises(c, v.items[i], s.items.schema, path[1..]);
      }
  }

  lemma {:induction false} RaisesSomewhere(c: Contracts, v: Value, s: Schema) returns (path: seq<Segment>)
    requires Acyclic(c) && Raises(c, v, s)
    ensures Dangles(c, v, s, path)
    decreases v, Height(Rank(c), s), s
  {
    path := [];
    match s.ref
    case Some(ref) =>
      if Resolve(c, ref).Resolved? {
        path := RaisesSomewhere(c, v, Resolve(c, ref).schema);
      }
    case None =>
      if s.alternatives.ExactlyOneOf? {
        var i :| 0 <= i < |s.alternatives.options| && Raises(c, v, s.alternatives.options[i]);
        path := RaisesSomewhere(c, v, s.alternatives.options[i]);
      } else if v.Dict? {
        var k :| k in v.fields && ForKey(s, k).Matching? && Raises(c, v.fields[k], ForKey(s, k).schema);
        var rest := RaisesSomewhere(c, v.fields[k], ForKey(s, k).schema);
        path := [Key(k)] + rest;
        assert path[1..] == rest;
      } else {
        var i: nat :| i < |v.items| && Raises(c, v.items[i], s.items.schema);
        var rest := RaisesSomewhere(c, v.items[i], s.items.schema);
        path := [Index(i)] + rest;
        assert path[1..] == rest;
      }
  }

  /** A validation fails outright exactly when some value is checked against a pointer
      that leads nowhere. */
  lemma RaisesExactly(c: Contracts, v: Value, s: Schema)
    requires Acyclic(c)
    ensures Raises(c, v, s) <==> exists path :: Dangles(c, v, s, path)
  {
    if Raises(c, v, s) {
      var path := RaisesSomewhere(c, v, s);
      assert exists p :: Dangles(c, v, s, p);
    }
    forall path | Dangles(c, v, s, path) ensures Raises(c, v, s) {
      DanglesRaises(c, v, s, path);
    }
  }

  ghost predicate Reports(c: Contracts, v: Value, s: Schema, path: seq<Segment>, errors: seq<Error>)
    requires Acyclic(c)
  {
    forall e :: e in errors <==> path <= e.path && Violated(c, v, s, e.path[|path|..], e.kind)
  }

  method SchemaErrors(c: Contracts, v: Value, s: Schema, path: seq<Segment>) returns (outcome: Outcome)
    requires Acyclic(c)
    ensures outcome.Raised? <==> Raises(c, v, s)
    ensures outcome.Errors? ==> Reports(c, v, s, path, outcome.errors)
    ensures outcome.Errors? ==> (outcome.errors == [] <==> Valid(c, v, s))
    decreases v, Height(Rank(c), s), s, 5
  {
    if s.ref.Some? {
      match Resolve(c, s.ref.value)
      case Resolved(target) => outcome := SchemaErrors(c, v, target, path);
      case Dangling => outcome := Raised;
      case Unsupported =>
        outcome := Errors([Error(path, UnsupportedReference(s.ref.value))]);
        OneReport(c, v, s, path, UnsupportedReference(s.ref.value));
    } else if s.alternatives.ExactlyOneOf? {
      outcome := AlternativeErrors(c, v, s, path);
    } else if !TypeHolds(v, s) {
      outcome := Errors([Error(path, WrongType(s.expectedType.value))]);
      OneReport(c, v, s, path, WrongType(s.expectedType.value));
    } else {
      outcome := ConstraintErrors(c, v, s, path);
    }
    if outcome.Errors? {
      ReportsExactly(c, v, s, path, outcome.errors);
    }
  }

  lemma OneReport(c: Contracts, v: Value, s: Schema, path: seq<Segment>, kind: Kind)
    requires Acyclic(c)
    requires forall rest, k :: Violated(c, v, s, rest, k) <==> rest == [] && k == kind
    ensures Reports(c, v, s, path, [Error(path, kind)])
  {
    forall e: Error | path <= e.path && e.path[|path|..] == [] ensures e.path == path {
      assert e.path == path + e.path[|path|..];
    }
  }

  lemma ReportsExactly(c: Contracts, v: Value, s: Schema, path: seq<Segment>, errors: seq<Error>)
    requires Acyclic(c) && !Raises(c, v, s) && Reports(c, v, s, path, errors)
    ensures errors == [] <==> Valid(c, v, s)
  {
    ValidExactly(c, v, s);
    if errors == [] {
      forall rest, kind ensures !Violated(c, v, s, rest, kind) {
        var e := Error(path + rest, kind);
        assert e.path[|path|..] == rest;
        assert e !in errors;
      }
    } else {
      assert errors[0] in errors;
    }
  }

  function Count(verdicts: seq<bool>): nat {
    if verdicts == [] then 0
    else Count(verdicts[..|verdicts| - 1]) + if verdicts[|verdicts| - 1] then 1 else 0
  }

  lemma {:induction false} CountZero(verdicts: seq<bool>)
    ensures Count(verdicts) == 0 <==> forall j | 0 <= j < |verdicts| :: !verdicts[j]
  {
    if verdicts != [] {
      CountZero(verdicts[..|verdicts| - 1]);
    }
  }

  lemma {:induction false} CountOne(verdicts: seq<bool>)
    ensures Count(verdicts) == 1 <==> ExactlyOne(verdicts)
  {
    if verdicts != [] {
      var n := |verdicts| - 1;
      CountZero(verdicts[..n]);
      CountOne(verdicts[..n]);
      if verdicts[n] {
        OneAtEnd(verdicts);
      } else {
        OneBefore(verdicts);
      }
    }
  }

  lemma OneAtEnd(verdicts: seq<bool>)
    requires verdicts != [] && verdicts[|verdicts| - 1]
    ensures ExactlyOne(verdicts) <==> Count(verdicts[..|verdicts| - 1]) == 0
  {
    var front := verdicts[..|verdicts| - 1];
    CountZero(front);
    assert forall j | 0 <= j < |front| :: front[j] == verdicts[j];
    if Count(front) == 0 {
      assert OnlyAt(verdicts, |front|);
    }
  }

  lemma OneBefore(verdicts: seq<bool>)
    requires verdicts != [] && !verdicts[|verdicts| - 1]
    ensures ExactlyOne(verdicts) <==> ExactlyOne(verdicts[..|verdicts| - 1])
  {
    var front := verdicts[..|verdicts| - 1];
    assert forall j | 0 <= j < |front| :: front[j] == verdicts[j];
    forall i ensures OnlyAt(front, i) <==> OnlyAt(verdicts, i) {
    }
  }

  /** Which options the value satisfies. */
  ghost function Verdicts(c: Contracts, v: Value, options: seq<Schema>): seq<bool>
    requires Acyclic(c)
  {
    seq(|options|, i requires 0 <= i < |options| => Valid(c, v, options[i]))
  }

  lemma ValidByVerdicts(c: Contracts, v: Value, s: Schema)
    requires Acyclic(c) && s.ref.None? && s.alternatives.ExactlyOneOf?
    ensures Valid(c, v, s) <==> ExactlyOne(Verdicts(c, v, s.alternatives.options))
  {
    var options := s.alternatives.options;
    assert Verdicts(c, v, options) == seq(|options|, i requires 0 <= i < |options| => Valid(c, v, options[i]));
  }

  method AlternativeErrors(c: Contracts, v: Value, s: Schema, path: seq<Segment>) returns (outcome: Outcome)
    requires Acyclic(c) && s.ref.None? && s.alternatives.ExactlyOneOf?
    ensures outcome.Raised? <==> Raises(c, v, s)
    ensures outcome.Errors? ==> Reports(c, v, s, path, outcome.errors)
    decreases v, Height(Rank(c), s), s, 4
  {
    hide Reports, Valid, Violated;
    var options := s.alternatives.options;
    ghost var verdicts := Verdicts(c, v, options);
    var matches: nat := 0;
    for i := 0 to |options|
      invariant forall j | 0 <= j < i :: !Raises(c, v, options[j])
      invariant matches == Count(verdicts[..i])
    {
      var option := SchemaErrors(c, v, options[i], path);
      if option.Raised? {
        return Raised;
      }
      if option.errors == [] {
        matches := matches + 1;
      }
      assert verdicts[..i + 1][..i] == verdicts[..i];
    }
    assert verdicts[..|options|] == verdicts;
    outcome := Errors(if matches == 1 then [] else [Error(path, NotExactlyOne)]);
    CountDecides(c, v, s, path);
  }

  lemma CountDecides(c: Contracts, v: Value, s: Schema, path: seq<Segment>)
    requires Acyclic(c) && s.ref.None? && s.alternatives.ExactlyOneOf?
    ensures Reports(c, v, s, path,
              if Count(Verdicts(c, v, s.alternatives.options)) == 1 then [] else [Error(path, NotExactlyOne)])
  {
    CountOne(Verdicts(c, v, s.alternatives.options));
    ValidByVerdicts(c, v, s);
    hide Valid, Verdicts;
    if !Valid(c, v, s) {
      forall rest, k ensures Violated(c, v, s, rest, k) <==> rest == [] && k == NotExactlyOne {
      }
      OneReport(c, v, s, path, NotExactlyOne);
    }
  }

  /** The violations found once the keys in keys and the first upto items are checked. */
  ghost predicate Found(c: Contracts, v: Value, s: Schema, keys: set<string>, upto: nat, rest: seq<Segment>, kind: Kind)
    requires Acyclic(c)
  {
    if rest == [] then LocalViolation(c, v, s, kind) && (kind.Unexpected? ==> kind.key in keys)
    else
      match rest[0]
      case Key(k) => k in keys && v.Dict? && k in v.fields && ForKey(s, k).Matching?
                     && Violated(c, v.fields[k], ForKey(s, k).schema, rest[1..], kind)
      case Index(i) => i < upto && v.List? && s.items.EachItem? && i < |v.items|
                       && Violated(c, v.items[i], s.items.schema, rest[1..], kind)
      case Length => false
  }

  ghost predicate ReportsFound(c: Contracts, v: Value, s: Schema, path: seq<Segment>, keys: set<string>, upto: nat,
                               errors: seq<Error>)
    requires Acyclic(c)
  {
    forall e :: e in errors <==> path <= e.path && Found(c, v, s, keys, upto, e.path[|path|..], e.kind)
  }

  method ConstraintErrors(c: Contracts, v: Value, s: Schema, path: seq<Segment>) returns (outcome: Outcome)
    requires Acyclic(c) && s.ref.None? && s.alternatives.NoAlternatives? && TypeHolds(v, s)
    ensures outcome.Raised? <==> Raises(c, v, s)
    ensures outcome.Errors? ==> Reports(c, v, s, path, outcome.errors)
    decreases v, Height(Rank(c), s), s, 4
  {
    var errors := LocalErrors(c, v, s, path);
    if v.Dict? {
      outcome := KeyErrors(c, v, s, path, errors);
    } else if v.List? && s.items.EachItem? {
      outcome := ItemErrors(c, v, s, path, errors);
    } else {
      outcome := Errors(errors);
    }
  }

  method LocalErrors(c: Contracts, v: Value, s: Schema, path: seq<Segment>) returns (errors: seq<Error>)
    requires Acyclic(c)
    ensures ReportsFound(c, v, s, path, {}, 0, errors)
  {
    errors := ScalarErrors(c, v, s, path);
    if v.Dict? {
      var missing := s.required - v.fields.Keys;
      ghost var seen: set<string> := {};
      while missing != {}
        invariant missing + seen == s.required - v.fields.Keys
        invariant forall e :: e in errors <==>
                    e.path == path && LocalViolation(c, v, s, e.kind) && !e.kind.Unexpected?
                    && (e.kind.Missing? ==> e.kind.key in seen)
        decreases missing
      {
        var key :| key in missing;
        errors := errors + [Error(path, Missing(key))];
        missing := missing - {key};
        seen := seen + {key};
      }
    }
    forall e: Error ensures e.path == path <==> path <= e.path && e.path[|path|..] == [] {
      assert path <= e.path && e.path[|path|..] == [] ==> e.path == path + e.path[|path|..] == path;
    }
  }

  method ScalarErrors(c: Contracts, v: Value, s: Schema, path: seq<Segment>) returns (errors: seq<Error>)
    ensures forall e :: e in errors <==>
              e.path == path && LocalViolation(c, v, s, e.kind) && !e.kind.Unexpected? && !e.kind.Missing?
  {
    hide HasScheme, Listed, PyEqual;
    errors := [];
    if s.constant.Some? && !PyEqual(v, s.constant.value) {
      errors := errors + [Error(path, NotConstant)];
    }
    if s.enumeration.Some? && !Listed(v, s.enumeration.value) {
      errors := errors + [Error(path, OutsideEnum)];
    }
    if v.Text? {
      var more := TextErrors(c, v, s, path);
      errors := errors + more;
    }
  }

  predicate OnText(kind: Kind) { kind.TooShort? || kind.PatternMismatch? || kind.NotUri? }

  method TextErrors(c: Contracts, v: Value, s: Schema, path: seq<Segment>) returns (errors: seq<Error>)
    requires v.Text?
    ensures forall e :: e in errors <==> e.path == path && LocalViolation(c, v, s, e.kind) && OnText(e.kind)
  {
    hide HasScheme;
    errors := [];
    if |v.s| < s.minLength {
      errors := errors + [Error(path, TooShort)];
    }
    if s.pattern.Some? && !c.matches(s.pattern.value, v.s) {
      errors := errors + [Error(path, PatternMismatch)];
    }
    if s.uri && !HasScheme(v.s) {
      errors := errors + [Error(path, NotUri)];
    }
  }

  lemma BelowSegment(path: seq<Segment>, segment: Segment, full: seq<Segment>)
    ensures path + [segment] <= full
       <==> path <= full && full[|path|..] != [] && full[|path|..][0] == segment
    ensures path + [segment] <= full ==> full[|path + [segment]|..] == full[|path|..][1..]
  {
  }

  method KeyErrors(c: Contracts, v: Value, s: Schema, path: seq<Segment>, before: seq<Error>)
    returns (outcome: Outcome)
    requires Acyclic(c) && s.ref.None? && s.alternatives.NoAlternatives? && TypeHolds(v, s) && v.Dict?
    requires ReportsFound(c, v, s, path, {}, 0, before)
    ensures outcome.Raised? <==> Raises(c, v, s)
    ensures outcome.Errors? ==> Reports(c, v, s, path, outcome.errors)
    decreases v, Height(Rank(c), s), s, 3
  {
    var errors := before;
    var keys := v.fields.Keys;
    ghost var done: set<string> := {};
    while keys != {}
      invariant keys + done == v.fields.Keys && keys !! done
      invariant forall k <- done :: ForKey(s, k).Matching? ==> !Raises(c, v.fields[k], ForKey(s, k).schema)
      invariant ReportsFound(c, v, s, path, done, 0, errors)
      decreases keys
    {
      var key :| key in keys;
      ghost var was := errors;
      match ForKey(s, key) {
        case Allowed =>
        case Forbidden =>
          errors := errors + [Error(path, Unexpected(key))];
        case Matching(m) =>
          var item := SchemaErrors(c, v.fields[key], m, path + [Key(key)]);
          if item.Raised? {
            return Raised;
          }
          errors := errors + item.errors;
      }
      KeyChecked(c, v, s, path, done, key, was, errors);
      keys := keys - {key};
      done := done + {key};
    }
    outcome := Errors(errors);
    assert done == v.fields.Keys;
  }

  lemma KeyChecked(c: Contracts, v: Value, s: Schema, path: seq<Segment>, done: set<string>, key: string,
                   was: seq<Error>, errors: seq<Error>)
    requires Acyclic(c) && v.Dict? && key in v.fields && key !in done
    requires ReportsFound(c, v, s, path, done, 0, was)
    requires match ForKey(s, key)
             case Allowed => errors == was
             case Forbidden => errors == was + [Error(path, Unexpected(key))]
             case Matching(m) => was <= errors && Reports(c, v.fields[key], m, path + [Key(key)], errors[|was|..])
    ensures ReportsFound(c, v, s, path, done + {key}, 0, errors)
  {
    forall e ensures e in errors <==> path <= e.path && Found(c, v, s, done + {key}, 0, e.path[|path|..], e.kind) {
      BelowSegment(path, Key(key), e.path);
      assert e in errors <==> e in was || e in errors[|was|..];
      if path <= e.path && e.path[|path|..] == [] {
        assert e.path == path;
      }
    }
  }

  method ItemErrors(c: Contracts, v: Value, s: Schema, path: seq<Segment>, before: seq<Error>)
    returns (outcome: Outcome)
    requires Acyclic(c) && s.ref.None? && s.alternatives.NoAlternatives? && TypeHolds(v, s)
    requires v.List? && s.items.EachItem?
    requires ReportsFound(c, v, s, path, {}, 0, before)
    ensures outcome.Raised? <==> Raises(c, v, s)
    ensures outcome.Errors? ==> Reports(c, v, s, path, outcome.errors)
    decreases v, Height(Rank(c), s), s, 3
  {
    var errors := before;
    for index := 0 to |v.items|
      invariant forall i | 0 <= i < index :: !Raises(c, v.items[i], s.items.schema)
      invariant ReportsFound(c, v, s, path, {}, index, errors)
    {
      var item := SchemaErrors(c, v.items[index], s.items.schema, path + [Index(index)]);
      if item.Raised? {
        return Raised;
      }
      ItemChecked(c, v, s, path, index, errors, item.errors);
      errors := errors + item.errors;
    }
    outcome := Errors(errors);
  }

  lemma ItemChecked(c: Contracts, v: Value, s: Schema, path: seq<Segment>, index: nat, was: seq<Error>, found: seq<Error>)
    requires Acyclic(c) && v.List? && s.items.EachItem? && index < |v.items|
    requires ReportsFound(c, v, s, path, {}, index, was)
    requires Reports(c, v.items[index], s.items.schema, path + [Index(index)], found)
    ensures ReportsFound(c, v, s, path, {}, index + 1, was + found)
  {
    forall e ensures e in was + found <==> path <= e.path && Found(c, v, s, {}, index + 1, e.path[|path|..], e.kind) {
      BelowSegment(path, Index(index), e.path);
    }
  }
}

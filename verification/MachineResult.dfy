/** The machine-result contract of the repository, checked by SchemaValidator,
    against the envelope decoders written by hand. */
module MachineResult {
  import opened Json
  import opened Options
  import opened SchemaValidator
  import opened UxEnvelope

  const TEXT_SCHEMA := ANYTHING.(expectedType := Some("string"))
  const NON_EMPTY_TEXT := TEXT_SCHEMA.(minLength := 1)

  function OneOfTexts(texts: seq<string>): Schema {
    TEXT_SCHEMA.(enumeration := Some(seq(|texts|, i requires 0 <= i < |texts| => Text(texts[i]))))
  }

  function ObjectSchema(required: set<string>, properties: map<string, Schema>): Schema {
    ANYTHING.(expectedType := Some("object"), required := required, properties := properties,
              additional := Forbidden)
  }

  function Reference(ref: string): Schema { ANYTHING.(ref := Some(ref)) }

  const SUCCESS_SCHEMA := ObjectSchema({"ok", "data"}, map[
    "ok" := ANYTHING.(constant := Some(Bool(true))),
    "data" := ANYTHING,
    "meta" := ANYTHING.(expectedType := Some("object"))])

  const ERROR_REFERENCE := "https://kblabs.ru/schemas/" + "error-envelope.schema.json"

  const FAILURE_SCHEMA := ObjectSchema({"ok", "error"}, map[
    "ok" := ANYTHING.(constant := Some(Bool(false))),
    "error" := Reference(ERROR_REFERENCE)])

  const ROOT_SCHEMA := ANYTHING.(alternatives := ExactlyOneOf([Reference("#/$defs/success"), Reference("#/$defs/failure")]))

  const ACTION_SCHEMA := ObjectSchema({"id", "label"}, map[
    "id" := NON_EMPTY_TEXT, "label" := NON_EMPTY_TEXT, "command" := TEXT_SCHEMA])

  const DIAGNOSTIC_SCHEMA := ObjectSchema({"code", "message", "severity"}, map[
    "code" := NON_EMPTY_TEXT,
    "message" := NON_EMPTY_TEXT,
    "severity" := OneOfTexts(["error", "warning"]),
    "path" := TEXT_SCHEMA,
    "line" := ANYTHING.(expectedType := Some("integer")),
    "hint" := NON_EMPTY_TEXT])

  const ERROR_SCHEMA := ObjectSchema({"code", "area", "stage", "severity", "retryable", "message", "hint"}, map[
    "code" := TEXT_SCHEMA.(pattern := Some("^[A-Z][A-Z0-9]*(_[A-Z0-9]+)+$")),
    "area" := OneOfTexts(["install", "host", "auth", "project", "config", "plugin", "update", "runtime", "product",
                          "release"]),
    "stage" := OneOfTexts(["preflight", "resolve", "apply", "verify", "recover", "start", "login", "add-project", "run",
                           "extend", "update", "rollback"]),
    "severity" := OneOfTexts(["error", "warning"]),
    "retryable" := ANYTHING.(expectedType := Some("boolean")),
    "message" := NON_EMPTY_TEXT,
    "cause" := TEXT_SCHEMA,
    "hint" := NON_EMPTY_TEXT,
    "actions" := ANYTHING.(expectedType := Some("array"), items := EachItem(ACTION_SCHEMA)),
    "docs" := TEXT_SCHEMA.(uri := true),
    "correlationId" := TEXT_SCHEMA,
    "details" := ANYTHING.(expectedType := Some("object"), additional := Matching(TEXT_SCHEMA)),
    "diagnostics" := ANYTHING.(expectedType := Some("array"), items := EachItem(DIAGNOSTIC_SCHEMA))])

  function Machine(matches: (string, string) -> bool): Contracts {
    Contracts(map["$defs/success" := SUCCESS_SCHEMA, "$defs/failure" := FAILURE_SCHEMA], ERROR_SCHEMA, matches)
  }

  lemma References(m: (string, string) -> bool)
    ensures Resolve(Machine(m), "#/$defs/success") == Resolved(SUCCESS_SCHEMA)
    ensures Resolve(Machine(m), "#/$defs/failure") == Resolved(FAILURE_SCHEMA)
    ensures Resolve(Machine(m), ERROR_REFERENCE) == Resolved(ERROR_SCHEMA)
  {
    assert "#/$defs/success"[2..] == "$defs/success";
    assert "#/$defs/failure"[2..] == "$defs/failure";
    var base, suffix := "https://kblabs.ru/schemas/", "error-envelope.schema.json";
    assert ERROR_REFERENCE == base + suffix && base[0] != '#';
    assert ERROR_REFERENCE[|ERROR_REFERENCE| - |suffix|..] == suffix;
  }

  lemma MachineAcyclic(m: (string, string) -> bool)
    ensures Acyclic(Machine(m))
  {
    var rank := (ref: string) => 0 as nat;
    assert RankedBy(Machine(m), rank);
  }

  // --------------------------------- the contract and the success decoder

  ghost predicate IsSuccess(v: Value) {
    && v.Dict?
    && {"ok", "data"} <= v.fields.Keys <= {"ok", "data", "meta"}
    && PyEqual(v.fields["ok"], Bool(true))
    && ("meta" in v.fields ==> v.fields["meta"].Dict?)
  }

  lemma ValidSuccess(m: (string, string) -> bool, v: Value)
    requires Acyclic(Machine(m))
    ensures Valid(Machine(m), v, SUCCESS_SCHEMA) <==> IsSuccess(v)
  {
  }

  ghost predicate IsFailure(m: (string, string) -> bool, v: Value)
    requires Acyclic(Machine(m))
  {
    && v.Dict?
    && v.fields.Keys == {"ok", "error"}
    && PyEqual(v.fields["ok"], Bool(false))
    && Valid(Machine(m), v.fields["error"], ERROR_SCHEMA)
  }

  lemma Followed(c: Contracts, v: Value, ref: string)
    requires Acyclic(c) && Resolve(c, ref).Resolved?
    ensures Valid(c, v, Reference(ref)) == Valid(c, v, Resolve(c, ref).schema)
  {
  }

  lemma ClosedPair(c: Contracts, v: Value, k: string, l: string, s: Schema, t: Schema)
    requires Acyclic(c) && k != l
    ensures Valid(c, v, ObjectSchema({k, l}, map[k := s, l := t]))
       <==> v.Dict? && v.fields.Keys == {k, l} && Valid(c, v.fields[k], s) && Valid(c, v.fields[l], t)
  {
    var pair := ObjectSchema({k, l}, map[k := s, l := t]);
    assert ForKey(pair, k) == Matching(s) && ForKey(pair, l) == Matching(t);
    assert forall x | x != k && x != l :: ForKey(pair, x) == Forbidden;
  }

  lemma ConstantOnly(c: Contracts, v: Value, w: Value)
    requires Acyclic(c)
    ensures Valid(c, v, ANYTHING.(constant := Some(w))) <==> PyEqual(v, w)
  {
  }

  lemma ValidFailure(m: (string, string) -> bool, v: Value)
    requires Acyclic(Machine(m))
    ensures Valid(Machine(m), v, FAILURE_SCHEMA) <==> IsFailure(m, v)
  {
    References(m);
    hide Valid, ERROR_SCHEMA;
    ClosedPair(Machine(m), v, "ok", "error", ANYTHING.(constant := Some(Bool(false))), Reference(ERROR_REFERENCE));
    if v.Dict? && v.fields.Keys == {"ok", "error"} {
      ConstantOnly(Machine(m), v.fields["ok"], Bool(false));
      Followed(Machine(m), v.fields["error"], ERROR_REFERENCE);
    }
  }

  /** A machine result is a success or a failure envelope, never both. */
  lemma ValidRoot(m: (string, string) -> bool, v: Value)
    requires Acyclic(Machine(m))
    ensures Valid(Machine(m), v, ROOT_SCHEMA) <==> IsSuccess(v) || IsFailure(m, v)
    ensures !(IsSuccess(v) && IsFailure(m, v))
  {
    References(m);
    ValidSuccess(m, v);
    ValidFailure(m, v);
    RootByOptions(m, v);
  }

  lemma RootByOptions(m: (string, string) -> bool, v: Value)
    requires Acyclic(Machine(m))
    ensures Valid(Machine(m), v, ROOT_SCHEMA)
       <==> Valid(Machine(m), v, SUCCESS_SCHEMA) != Valid(Machine(m), v, FAILURE_SCHEMA)
  {
    References(m);
    hide ERROR_SCHEMA, SUCCESS_SCHEMA, FAILURE_SCHEMA;
    var c, options := Machine(m), ROOT_SCHEMA.alternatives.options;
    assert |options| == 2;
    assert Valid(c, v, options[0]) == Valid(c, v, SUCCESS_SCHEMA);
    assert Valid(c, v, options[1]) == Valid(c, v, FAILURE_SCHEMA);
    ValidByVerdicts(c, v, ROOT_SCHEMA);
    hide Valid;
    var verdicts := Verdicts(c, v, options);
    assert verdicts[0] == Valid(c, v, SUCCESS_SCHEMA) && verdicts[1] == Valid(c, v, FAILURE_SCHEMA);
    assert OnlyAt(verdicts, 0) <==> verdicts[0] && !verdicts[1];
    assert OnlyAt(verdicts, 1) <==> verdicts[1] && !verdicts[0];
  }

  predicate PlainObject(s: Schema) {
    s.ref.None? && s.alternatives.NoAlternatives? && s.expectedType == Some("object")
  }

  lemma RequiredText(c: Contracts, v: Value, s: Schema, k: string, t: Schema)
    requires Acyclic(c) && PlainObject(s) && k in s.required && Valid(c, v, s)
    ensures v.Dict? && k in v.fields
    ensures (ForKey(s, k) == Matching(t) && t.ref.None? && t.alternatives.NoAlternatives?
             && t.expectedType == Some("string")) ==> v.fields[k].Text?
  {
    if ForKey(s, k) == Matching(t) {
      assert Valid(c, v.fields[k], t);
    }
  }

  lemma ErrorSchemaKeys()
    ensures PlainObject(ERROR_SCHEMA) && {"code", "message", "hint"} <= ERROR_SCHEMA.required
    ensures ForKey(ERROR_SCHEMA, "message") == Matching(NON_EMPTY_TEXT)
    ensures ForKey(ERROR_SCHEMA, "code") == Matching(TEXT_SCHEMA.(pattern := Some("^[A-Z][A-Z0-9]*(_[A-Z0-9]+)+$")))
  {
  }

  lemma ErrorHasCodeAndMessage(m: (string, string) -> bool, e: Value)
    requires Acyclic(Machine(m)) && Valid(Machine(m), e, ERROR_SCHEMA)
    ensures e.Dict? && "hint" in e.fields && Get(e.fields, "code").Text? && Get(e.fields, "message").Text?
  {
    ErrorSchemaKeys();
    hide ERROR_SCHEMA, Valid, Machine;
    RequiredText(Machine(m), e, ERROR_SCHEMA, "hint", TEXT_SCHEMA);
    RequiredText(Machine(m), e, ERROR_SCHEMA, "code", TEXT_SCHEMA.(pattern := Some("^[A-Z][A-Z0-9]*(_[A-Z0-9]+)+$")));
    RequiredText(Machine(m), e, ERROR_SCHEMA, "message", NON_EMPTY_TEXT);
  }

  /** The decoder accepts a success exactly when the contract does and "ok" is
      the boolean: the contract alone also lets the number 1 through. */
  lemma SuccessAgreement(m: (string, string) -> bool, v: Value)
    requires Acyclic(Machine(m))
    ensures DecodeSuccess(v).Some?
       <==> Valid(Machine(m), v, ROOT_SCHEMA) && v.Dict? && Get(v.fields, "ok") == Bool(true)
  {
    ValidRoot(m, v);
  }

  /** Whatever failure the contract accepts, the decoder accepts, if "ok" is the boolean. */
  lemma FailureAgreement(m: (string, string) -> bool, v: Value)
    requires Acyclic(Machine(m)) && Valid(Machine(m), v, ROOT_SCHEMA)
    requires v.Dict? && Get(v.fields, "ok") == Bool(false)
    ensures DecodeError(v) == Some(Get(v.fields, "error"))
  {
    hide Valid, ERROR_SCHEMA, ROOT_SCHEMA, Machine;
    ValidRoot(m, v);
    ErrorHasCodeAndMessage(m, v.fields["error"]);
  }

  /** The decoder looks at two fields of an error only: what it accepts the contract
      accepts exactly when the error meets the error schema. */
  lemma DecodedFailureExactly(m: (string, string) -> bool, v: Value)
    requires Acyclic(Machine(m)) && DecodeError(v).Some?
    ensures Valid(Machine(m), v, ROOT_SCHEMA) <==> Valid(Machine(m), v.fields["error"], ERROR_SCHEMA)
  {
    ValidRoot(m, v);
  }

  /** The two differ: an "ok" of 1 passes the contract only, and an error that
      has just a code and a message passes the decoder only. */
  lemma Disagreements(m: (string, string) -> bool, code: string, message: string)
    requires Acyclic(Machine(m))
    ensures var one := Dict(map["ok" := Number(1.0), "data" := Null]);
            Valid(Machine(m), one, ROOT_SCHEMA) && DecodeSuccess(one).None?
    ensures var terse := Dict(map["ok" := Bool(false), "error" := Dict(map["code" := Text(code), "message" := Text(message)])]);
            !Valid(Machine(m), terse, ROOT_SCHEMA) && DecodeError(terse).Some?
  {
    hide Valid, ERROR_SCHEMA, ROOT_SCHEMA, Machine;
    var one := Dict(map["ok" := Number(1.0), "data" := Null]);
    ValidRoot(m, one);
    var error := Dict(map["code" := Text(code), "message" := Text(message)]);
    var terse := Dict(map["ok" := Bool(false), "error" := error]);
    ValidRoot(m, terse);
    if Valid(Machine(m), error, ERROR_SCHEMA) {
      ErrorHasCodeAndMessage(m, error);
    }
  }

  // ------------------------------------------- the contract in plain values

  /** Which values each type name lets through; any other name lets all through. */
  lemma TypeAlone(c: Contracts, v: Value, name: string)
    requires Acyclic(c)
    ensures Valid(c, v, ANYTHING.(expectedType := Some(name)))
       <==> && (name == "object" ==> v.Dict?)
            && (name == "array" ==> v.List?)
            && (name == "string" ==> v.Text?)
            && (name == "boolean" ==> v.Bool?)
  {
  }

  /** What each other keyword asks on its own. */
  lemma KeywordsAlone(c: Contracts, v: Value, w: Value, ws: seq<Value>, n: int, pattern: string, keys: set<string>)
    requires Acyclic(c)
    ensures Valid(c, v, ANYTHING)
    ensures Valid(c, v, ANYTHING.(constant := Some(w))) <==> PyEqual(v, w)
    ensures Valid(c, v, ANYTHING.(enumeration := Some(ws))) <==> exists x <- ws :: PyEqual(v, x)
    ensures Valid(c, v, ANYTHING.(minLength := n)) <==> (v.Text? ==> |v.s| >= n)
    ensures Valid(c, v, ANYTHING.(pattern := Some(pattern))) <==> (v.Text? ==> c.matches(pattern, v.s))
    ensures Valid(c, v, ANYTHING.(uri := true)) <==> (v.Text? ==> IsUri(v))
    ensures Valid(c, v, ANYTHING.(required := keys)) <==> (v.Dict? ==> forall k <- keys :: k in v.fields)
    ensures Valid(c, v, ANYTHING.(additional := Forbidden)) <==> (v.Dict? ==> v.fields == map[])
  {
    if v.Text? {
      SchemeExactly(v.s);
    }
    if v.Dict? && v.fields != map[] {
      assert v.fields.Keys != {};
      var k :| k in v.fields;
      assert ForKey(ANYTHING.(additional := Forbidden), k).Forbidden?;
    }
  }

  /** Which errors each keyword reports on its own: at the value itself, under its name. */
  lemma ViolationsAlone(c: Contracts, v: Value, w: Value, name: string, path: seq<Segment>, kind: Kind)
    requires Acyclic(c)
    ensures Violated(c, v, ANYTHING.(constant := Some(w)), path, kind) <==> path == [] && kind == NotConstant && !PyEqual(v, w)
    ensures Violated(c, v, ANYTHING.(expectedType := Some(name)), path, kind)
       <==> path == [] && kind == WrongType(name) && !Valid(c, v, ANYTHING.(expectedType := Some(name)))
  {
    hide PyEqual;
    TypeAlone(c, v, name);
    hide Valid;
  }

  lemma KeyViolations(c: Contracts, v: Value, keys: set<string>, path: seq<Segment>, kind: Kind)
    requires Acyclic(c)
    ensures Violated(c, v, ANYTHING.(required := keys), path, kind)
       <==> path == [] && kind.Missing? && v.Dict? && kind.key in keys && kind.key !in v.fields
    ensures Violated(c, v, ANYTHING.(additional := Forbidden), path, kind)
       <==> path == [] && kind.Unexpected? && v.Dict? && kind.key in v.fields
  {
    hide PyEqual, Valid;
  }

  lemma EnumViolation(c: Contracts, v: Value, ws: seq<Value>, path: seq<Segment>, kind: Kind)
    requires Acyclic(c)
    ensures Violated(c, v, ANYTHING.(enumeration := Some(ws)), path, kind)
       <==> path == [] && kind == OutsideEnum && forall w <- ws :: !PyEqual(v, w)
  {
    hide PyEqual;
  }

  lemma TextViolations(c: Contracts, v: Value, n: int, pattern: string, path: seq<Segment>, kind: Kind)
    requires Acyclic(c)
    ensures Violated(c, v, ANYTHING.(minLength := n), path, kind)
       <==> path == [] && kind == TooShort && v.Text? && |v.s| < n
    ensures Violated(c, v, ANYTHING.(pattern := Some(pattern)), path, kind)
       <==> path == [] && kind == PatternMismatch && v.Text? && !c.matches(pattern, v.s)
    ensures Violated(c, v, ANYTHING.(uri := true), path, kind) <==> path == [] && kind == NotUri && v.Text? && !IsUri(v)
  {
    if v.Text? {
      SchemeExactly(v.s);
    }
    hide IsUri, HasScheme;
  }

  /** Errors inside a value are those of its parts, found through key or position. */
  lemma ViolationsInside(c: Contracts, v: Value, key: string, t: Schema, path: seq<Segment>, kind: Kind)
    requires Acyclic(c)
    ensures Violated(c, v, ANYTHING.(properties := map[key := t]), path, kind)
       <==> && v.Dict? && key in v.fields && path != [] && path[0] == Key(key)
            && Violated(c, v.fields[key], t, path[1..], kind)
    ensures Violated(c, v, ANYTHING.(additional := Matching(t)), path, kind)
       <==> && v.Dict? && path != [] && path[0].Key? && path[0].name in v.fields
            && Violated(c, v.fields[path[0].name], t, path[1..], kind)
    ensures Violated(c, v, ANYTHING.(items := EachItem(t)), path, kind)
       <==> && v.List? && path != [] && path[0].Index? && path[0].position < |v.items|
            && Violated(c, v.items[path[0].position], t, path[1..], kind)
  {
  }

  /** A reference stands for what it leads to, whatever is beside it, and alternatives
      for exactly one of them; a reference of neither known form accepts nothing. */
  lemma ReferencesOverride(c: Contracts, v: Value, s: Schema, ref: string, options: seq<Schema>)
    requires Acyclic(c)
    ensures "#/" <= ref && ref[2..] in c.definitions ==>
              (Valid(c, v, s.(ref := Some(ref))) <==> Valid(c, v, c.definitions[ref[2..]]))
    ensures !("#/" <= ref) && (exists head :: ref == head + "error-envelope.schema.json") ==>
              (Valid(c, v, s.(ref := Some(ref))) <==> Valid(c, v, c.error))
    ensures !("#/" <= ref) && !(exists head :: ref == head + "error-envelope.schema.json") ==>
              !Valid(c, v, s.(ref := Some(ref)))
    ensures Valid(c, v, s.(ref := None, alternatives := ExactlyOneOf(options)))
       <==> exists i | 0 <= i < |options| :: Valid(c, v, options[i]) && forall j | 0 <= j < |options| && j != i :: !Valid(c, v, options[j])
  {
    EndsExactly(ref);
    AlternativesExactly(c, v, s.(ref := None, alternatives := ExactlyOneOf(options)), options);
  }

  lemma EndsExactly(ref: string)
    ensures EndsWith(ref, "error-envelope.schema.json") <==> exists head :: ref == head + "error-envelope.schema.json"
  {
    var suffix := "error-envelope.schema.json";
    if EndsWith(ref, suffix) {
      assert ref == ref[..|ref| - |suffix|] + suffix;
    }
    if head :| ref == head + suffix {
      assert ref[|ref| - |suffix|..] == suffix;
    }
  }

  lemma AlternativesExactly(c: Contracts, v: Value, s: Schema, options: seq<Schema>)
    requires Acyclic(c) && s.ref.None? && s.alternatives == ExactlyOneOf(options)
    ensures Valid(c, v, s)
       <==> exists i | 0 <= i < |options| :: Valid(c, v, options[i]) && forall j | 0 <= j < |options| && j != i :: !Valid(c, v, options[j])
  {
    ValidByVerdicts(c, v, s);
    var verdicts := Verdicts(c, v, options);
    assert |verdicts| == |options| && forall i | 0 <= i < |options| :: verdicts[i] == Valid(c, v, options[i]);
    hide Valid;
    if i :| OnlyAt(verdicts, i) {
      assert Valid(c, v, options[i]);
    }
    if i :| 0 <= i < |options| && Valid(c, v, options[i]) && forall j | 0 <= j < |options| && j != i :: !Valid(c, v, options[j]) {
      assert OnlyAt(verdicts, i);
    }
  }

  predicate IsNonEmpty(v: Value) {
    v.Text? && v.s != ""
  }

  predicate IsOneOf(v: Value, texts: seq<string>) {
    v.Text? && v.s in texts
  }

  predicate IsLowerOrUpper(c: char) {
    'a' <= c <= 'z' || 'A' <= c <= 'Z'
  }

  /** scheme ":" rest, the scheme a letter and then letters, digits, "+", "." or "-". */
  ghost predicate IsUri(v: Value) {
    v.Text? && exists scheme, rest ::
      && v.s == scheme + ":" + rest && scheme != "" && IsLowerOrUpper(scheme[0])
      && forall c <- scheme :: IsLowerOrUpper(c) || '0' <= c <= '9' || c in "+.-"
  }

  /** One entry of an action, a diagnostic or an error. The line of a diagnostic may be
      anything: no type is checked under the name integer. */
  predicate IsActionField(k: string, v: Value) {
    if k == "command" then v.Text? else IsNonEmpty(v)
  }

  predicate IsAction(v: Value) {
    && v.Dict? && {"id", "label"} <= v.fields.Keys <= {"id", "label", "command"}
    && forall k <- v.fields :: IsActionField(k, v.fields[k])
  }

  predicate IsDiagnosticField(k: string, v: Value) {
    if k == "severity" then IsOneOf(v, ["error", "warning"])
    else if k == "path" then v.Text?
    else if k == "line" then true
    else IsNonEmpty(v)
  }

  predicate IsDiagnostic(v: Value) {
    && v.Dict?
    && {"code", "message", "severity"} <= v.fields.Keys <= {"code", "message", "severity", "path", "line", "hint"}
    && forall k <- v.fields :: IsDiagnosticField(k, v.fields[k])
  }

  const PATTERN := "^[A-Z][A-Z0-9]*(_[A-Z0-9]+)+$"
  const AREAS := ["install", "host", "auth", "project", "config", "plugin", "update", "runtime", "product", "release"]
  const STAGES := ["preflight", "resolve", "apply", "verify", "recover", "start", "login", "add-project", "run", "extend",
                   "update", "rollback"]

  ghost predicate IsErrorField(m: (string, string) -> bool, k: string, v: Value) {
    if k == "code" then v.Text? && m(PATTERN, v.s)
    else if k == "area" then IsOneOf(v, AREAS)
    else if k == "stage" then IsOneOf(v, STAGES)
    else if k == "severity" then IsOneOf(v, ["error", "warning"])
    else if k == "retryable" then v.Bool?
    else if k == "message" || k == "hint" then IsNonEmpty(v)
    else if k == "cause" || k == "correlationId" then v.Text?
    else if k == "actions" then v.List? && forall x <- v.items :: IsAction(x)
    else if k == "docs" then IsUri(v)
    else if k == "details" then v.Dict? && forall j <- v.fields :: v.fields[j].Text?
    else v.List? && forall x <- v.items :: IsDiagnostic(x)
  }

  ghost predicate IsError(m: (string, string) -> bool, e: Value) {
    && e.Dict?
    && {"code", "area", "stage", "severity", "retryable", "message", "hint"} <= e.fields.Keys
    && e.fields.Keys <= {"code", "area", "stage", "severity", "retryable", "message", "cause", "hint", "actions", "docs",
                         "correlationId", "details", "diagnostics"}
    && forall k <- e.fields :: IsErrorField(m, k, e.fields[k])
  }

  lemma ClosedObject(c: Contracts, v: Value, required: set<string>, properties: map<string, Schema>)
    requires Acyclic(c)
    ensures Valid(c, v, ObjectSchema(required, properties))
       <==> && v.Dict? && required <= v.fields.Keys <= properties.Keys
            && forall k <- v.fields :: k in properties && Valid(c, v.fields[k], properties[k])
  {
    var s := ObjectSchema(required, properties);
    assert forall k :: ForKey(s, k) == if k in properties then Matching(properties[k]) else Forbidden;
  }

  lemma TextsExactly(c: Contracts, v: Value, texts: seq<string>, pattern: string)
    requires Acyclic(c)
    ensures Valid(c, v, TEXT_SCHEMA) <==> v.Text?
    ensures Valid(c, v, NON_EMPTY_TEXT) <==> IsNonEmpty(v)
    ensures Valid(c, v, TEXT_SCHEMA.(pattern := Some(pattern))) <==> v.Text? && c.matches(pattern, v.s)
    ensures Valid(c, v, OneOfTexts(texts)) <==> IsOneOf(v, texts)
  {
    var values := OneOfTexts(texts).enumeration.value;
    if v.Text? {
      if w :| w in values && PyEqual(v, w) {
        var i :| 0 <= i < |values| && values[i] == w;
        assert w == Text(texts[i]);
      }
      if i :| 0 <= i < |texts| && texts[i] == v.s {
        assert values[i] == v && PyEqual(v, v);
      }
    }
  }

  lemma UriExactly(c: Contracts, v: Value)
    requires Acyclic(c)
    ensures Valid(c, v, TEXT_SCHEMA.(uri := true)) <==> IsUri(v)
  {
    assert Valid(c, v, TEXT_SCHEMA.(uri := true)) <==> v.Text? && HasScheme(v.s);
    hide Valid;
    if v.Text? {
      SchemeExactly(v.s);
    }
  }

  lemma SchemeExactly(s: string)
    ensures HasScheme(s) <==> IsUri(Text(s))
  {
    if n :| 1 <= n < |s| && s[n] == ':' && IsLetter(s[0]) && forall i :: 0 < i < n ==> IsSchemeChar(s[i]) {
      assert s == s[..n] + ":" + s[n + 1..];
    }
    if IsUri(Text(s)) {
      var scheme, rest :|
        && s == scheme + ":" + rest && scheme != "" && IsLowerOrUpper(scheme[0])
        && forall c <- scheme :: IsLowerOrUpper(c) || '0' <= c <= '9' || c in "+.-";
      var n := |scheme|;
      assert s[n] == ':' && s[0] == scheme[0];
      forall i | 0 < i < n ensures IsSchemeChar(s[i]) {
        assert s[i] == scheme[i] && scheme[i] in scheme;
      }
    }
  }

  lemma ListsExactly(c: Contracts, v: Value, item: Schema)
    requires Acyclic(c)
    ensures Valid(c, v, ANYTHING.(expectedType := Some("array"), items := EachItem(item)))
       <==> v.List? && forall x <- v.items :: Valid(c, x, item)
    ensures Valid(c, v, ANYTHING.(expectedType := Some("object"), additional := Matching(item)))
       <==> v.Dict? && forall k <- v.fields :: Valid(c, v.fields[k], item)
  {
    if v.List? {
      assert forall i | 0 <= i < |v.items| :: v.items[i] in v.items;
    }
  }

  lemma ActionExactly(c: Contracts, v: Value)
    requires Acyclic(c)
    ensures Valid(c, v, ACTION_SCHEMA) <==> IsAction(v)
  {
    var properties := ACTION_SCHEMA.properties;
    ClosedObject(c, v, {"id", "label"}, properties);
    forall k, x | k in properties ensures Valid(c, x, properties[k]) <==> IsActionField(k, x) {
      TextsExactly(c, x, [], "");
    }
    assert properties.Keys == {"id", "label", "command"};
    hide Valid, IsActionField;
  }

  lemma DiagnosticExactly(c: Contracts, v: Value)
    requires Acyclic(c)
    ensures Valid(c, v, DIAGNOSTIC_SCHEMA) <==> IsDiagnostic(v)
  {
    var properties := DIAGNOSTIC_SCHEMA.properties;
    ClosedObject(c, v, {"code", "message", "severity"}, properties);
    forall k, x | k in properties ensures Valid(c, x, properties[k]) <==> IsDiagnosticField(k, x) {
      DiagnosticField(c, k, x);
    }
    assert properties.Keys == {"code", "message", "severity", "path", "line", "hint"};
    hide Valid, IsDiagnosticField;
  }

  lemma DiagnosticField(c: Contracts, k: string, v: Value)
    requires Acyclic(c) && k in DIAGNOSTIC_SCHEMA.properties
    ensures Valid(c, v, DIAGNOSTIC_SCHEMA.properties[k]) <==> IsDiagnosticField(k, v)
  {
    TextsExactly(c, v, ["error", "warning"], "");
    TypeAlone(c, v, "integer");
    hide Valid, IsNonEmpty, IsOneOf, OneOfTexts;
  }

  lemma ErrorKeys()
    ensures ERROR_SCHEMA == ObjectSchema({"code", "area", "stage", "severity", "retryable", "message", "hint"},
                                         ERROR_SCHEMA.properties)
    ensures ERROR_SCHEMA.properties.Keys
         == {"code", "area", "stage", "severity", "retryable", "message", "cause", "hint", "actions", "docs",
             "correlationId", "details", "diagnostics"}
  {
  }

  ghost predicate FieldExact(m: (string, string) -> bool, k: string, v: Value)
    requires Acyclic(Machine(m)) && k in ERROR_SCHEMA.properties
  {
    Valid(Machine(m), v, ERROR_SCHEMA.properties[k]) <==> IsErrorField(m, k, v)
  }

  lemma ErrorTextField(m: (string, string) -> bool, k: string, v: Value)
    requires Acyclic(Machine(m)) && k in ERROR_SCHEMA.properties
    requires k == "message" || k == "hint" || k == "cause" || k == "correlationId"
    ensures FieldExact(m, k, v)
  {
    TextsExactly(Machine(m), v, [], "");
    hide Valid, IsNonEmpty, IsOneOf, IsUri, IsAction, IsDiagnostic, ACTION_SCHEMA, DIAGNOSTIC_SCHEMA, OneOfTexts, Machine;
  }

  lemma ErrorArea(m: (string, string) -> bool, v: Value)
    requires Acyclic(Machine(m)) && "area" in ERROR_SCHEMA.properties
    ensures FieldExact(m, "area", v)
  {
    TextsExactly(Machine(m), v, AREAS, "");
    hide Valid, IsNonEmpty, IsOneOf, IsUri, IsAction, IsDiagnostic, ACTION_SCHEMA, DIAGNOSTIC_SCHEMA, OneOfTexts, Machine;
  }

  lemma ErrorStage(m: (string, string) -> bool, v: Value)
    requires Acyclic(Machine(m)) && "stage" in ERROR_SCHEMA.properties
    ensures FieldExact(m, "stage", v)
  {
    TextsExactly(Machine(m), v, STAGES, "");
    hide Valid, IsNonEmpty, IsOneOf, IsUri, IsAction, IsDiagnostic, ACTION_SCHEMA, DIAGNOSTIC_SCHEMA, OneOfTexts, Machine;
  }

  lemma ErrorSeverity(m: (string, string) -> bool, v: Value)
    requires Acyclic(Machine(m)) && "severity" in ERROR_SCHEMA.properties
    ensures FieldExact(m, "severity", v)
  {
    TextsExactly(Machine(m), v, ["error", "warning"], "");
    hide Valid, IsNonEmpty, IsOneOf, IsUri, IsAction, IsDiagnostic, ACTION_SCHEMA, DIAGNOSTIC_SCHEMA, OneOfTexts, Machine;
  }

  lemma ErrorPlainField(m: (string, string) -> bool, k: string, v: Value)
    requires Acyclic(Machine(m)) && k in ERROR_SCHEMA.properties
    requires k == "code" || k == "retryable" || k == "docs"
    ensures FieldExact(m, k, v)
  {
    TextsExactly(Machine(m), v, [], PATTERN);
    TypeAlone(Machine(m), v, "boolean");
    UriExactly(Machine(m), v);
    hide Valid, IsNonEmpty, IsOneOf, IsUri, IsAction, IsDiagnostic, ACTION_SCHEMA, DIAGNOSTIC_SCHEMA, OneOfTexts;
  }

  lemma ErrorActions(m: (string, string) -> bool, v: Value)
    requires Acyclic(Machine(m)) && "actions" in ERROR_SCHEMA.properties
    ensures FieldExact(m, "actions", v)
  {
    var c := Machine(m);
    ListsExactly(c, v, ACTION_SCHEMA);
    forall x ensures Valid(c, x, ACTION_SCHEMA) <==> IsAction(x) {
      ActionExactly(c, x);
    }
    hide Valid, IsNonEmpty, IsOneOf, IsUri, IsAction, IsDiagnostic, ACTION_SCHEMA, DIAGNOSTIC_SCHEMA, OneOfTexts, Machine;
  }

  lemma ErrorDiagnostics(m: (string, string) -> bool, v: Value)
    requires Acyclic(Machine(m)) && "diagnostics" in ERROR_SCHEMA.properties
    ensures FieldExact(m, "diagnostics", v)
  {
    var c := Machine(m);
    ListsExactly(c, v, DIAGNOSTIC_SCHEMA);
    forall x ensures Valid(c, x, DIAGNOSTIC_SCHEMA) <==> IsDiagnostic(x) {
      DiagnosticExactly(c, x);
    }
    hide Valid, IsNonEmpty, IsOneOf, IsUri, IsAction, IsDiagnostic, ACTION_SCHEMA, DIAGNOSTIC_SCHEMA, OneOfTexts, Machine;
  }

  lemma ErrorDetails(m: (string, string) -> bool, v: Value)
    requires Acyclic(Machine(m)) && "details" in ERROR_SCHEMA.properties
    ensures FieldExact(m, "details", v)
  {
    var c := Machine(m);
    ListsExactly(c, v, TEXT_SCHEMA);
    forall x ensures Valid(c, x, TEXT_SCHEMA) <==> x.Text? {
      TextsExactly(c, x, [], "");
    }
    hide Valid, IsNonEmpty, IsOneOf, IsUri, IsAction, IsDiagnostic, ACTION_SCHEMA, DIAGNOSTIC_SCHEMA, OneOfTexts, Machine;
  }

  /** The error half of the contract, said of the values themselves. */
  lemma ErrorExactly(m: (string, string) -> bool, e: Value)
    requires Acyclic(Machine(m))
    ensures Valid(Machine(m), e, ERROR_SCHEMA) <==> IsError(m, e)
  {
    var properties := ERROR_SCHEMA.properties;
    ErrorKeys();
    hide ERROR_SCHEMA, Valid, IsErrorField;
    ClosedObject(Machine(m), e, {"code", "area", "stage", "severity", "retryable", "message", "hint"}, properties);
    forall k, v | k in properties ensures Valid(Machine(m), v, properties[k]) <==> IsErrorField(m, k, v) {
      ErrorFieldExactly(m, k, v);
    }
  }

  lemma ErrorFieldExactly(m: (string, string) -> bool, k: string, v: Value)
    requires Acyclic(Machine(m)) && k in ERROR_SCHEMA.properties
    ensures FieldExact(m, k, v)
  {
    ErrorKeys();
    hide ERROR_SCHEMA, FieldExact;
    if k == "message" || k == "hint" || k == "cause" || k == "correlationId" {
      ErrorTextField(m, k, v);
    } else if k == "area" {
      ErrorArea(m, v);
    } else if k == "stage" {
      ErrorStage(m, v);
    } else if k == "severity" {
      ErrorSeverity(m, v);
    } else if k == "code" || k == "retryable" || k == "docs" {
      ErrorPlainField(m, k, v);
    } else if k == "actions" {
      ErrorActions(m, v);
    } else if k == "details" {
      ErrorDetails(m, v);
    } else {
      ErrorDiagnostics(m, v);
    }
  }
}

/** Reading what a command line tool printed: one JSON document, or one JSON
    record a line closed by a terminal record, against its exit status. */
module CliResult {
  import opened Json
  import opened Options
  import opened UxEnvelope

  /** processExitClass of a catalogued error code. */
  datatype ExitClass = InputRefusal | OperationFailure | Unsupported

  type Catalog = map<string, ExitClass>

  /** A finished process. document is its whole output parsed as JSON, lines are
      its non-blank lines parsed one by one; None stands for text that is not JSON. */
  datatype Process = Process(document: Option<Value>, lines: seq<Option<Value>>, status: int, goTool: bool)

  /** Refused is the ValueError a caller is promised, Crashed any other exception. */
  datatype Outcome<T> = Returned(value: T) | Refused | Crashed

  // ------------------------------------------------- the records of a stream

  predicate Envelope(v: Value) {
    DecodeSuccess(v).Some? || DecodeError(v).Some?
  }

  predicate Failed(record: Value) {
    record.Dict? && Get(record.fields, "ok") == Bool(false)
  }

  predicate Succeeded(record: Value) {
    record.Dict? && Get(record.fields, "ok") == Bool(true)
  }

  function GetOrEmpty(fields: map<string, Value>, key: string): Value {
    if key in fields then fields[key] else Dict(map[])
  }

  /** What a record says about its stream; the stream entry need not be a dictionary. */
  function StreamOf(record: Value): Value {
    if !record.Dict? then Dict(map[]) else
    var meta := GetOrEmpty(record.fields, "meta");
    if meta.Dict? then GetOrEmpty(meta.fields, "stream") else Dict(map[])
  }

  predicate IsResult(record: Value) {
    StreamOf(record).Dict? && Get(StreamOf(record).fields, "result") == Bool(true)
  }

  function ExitCode(terminal: Value): Value {
    if StreamOf(terminal).Dict? then Get(StreamOf(terminal).fields, "exitCode") else Null
  }

  predicate Closing(terminal: Value) {
    && Succeeded(terminal)
    && "data" in terminal.fields && terminal.fields["data"].Null?
    && StreamOf(terminal).Dict?
    && Get(StreamOf(terminal).fields, "terminal") == Bool(true)
  }

  predicate Is(v: Value, status: int) {
    PyEqual(v, Number(status as real))
  }

  /** _validate_error_process_status does not raise; Null is no terminal status. */
  predicate StatusAgrees(catalog: Catalog, error: Value, status: int, terminalStatus: Value) {
    if !error.Dict? || !Get(error.fields, "code").Text? then true else
    var code := error.fields["code"].s;
    if code !in catalog then true else
    match catalog[code]
    case InputRefusal => status == 2 && (terminalStatus.Null? || Is(terminalStatus, 2))
    case OperationFailure => status == 1 && (terminalStatus.Null? || Is(terminalStatus, 1))
    case Unsupported => false
  }

  function ErrorOf(record: Value): Value {
    if record.Dict? then Get(record.fields, "error") else Null
  }

  /** [record for record in records if keep(record)] */
  function Select(records: seq<Value>, keep: Value -> bool): seq<Value> {
    if records == [] then [] else
    var last := records[|records| - 1];
    Select(records[..|records| - 1], keep) + (if keep(last) then [last] else [])
  }

  lemma IsOne(v: Value)
    ensures forall a, b | Is(v, a) && Is(v, b) :: a == b
  {
  }

  /** exit_code in {0, 1, 2} and returncode == exit_code. */
  predicate MatchesExit(exitCode: Value, status: int)
    ensures MatchesExit(exitCode, status) <==> status in {0, 1, 2} && Is(exitCode, status)
    ensures MatchesExit(exitCode, status) ==> (Is(exitCode, 0) <==> status == 0)
  {
    IsOne(exitCode);
    (Is(exitCode, 0) || Is(exitCode, 1) || Is(exitCode, 2)) && Is(exitCode, status)
  }

  lemma EnvelopeKinds(v: Value)
    requires Envelope(v)
    ensures v.Dict? && Succeeded(v) == !Failed(v)
    ensures Failed(v) <==> Get(v.fields, "ok") != Bool(true)
  {
  }

  // ------------------------------------------------------------ the readers

  /** read_ux_cli_result; None where it raises ValueError. */
  function ReadDocument(catalog: Catalog, p: Process): (r: Option<Value>)
    ensures r.Some? ==> r == p.document && Envelope(r.value) && (Succeeded(r.value) <==> p.status == 0)
  {
    if p.document.None? || !p.document.value.Dict? then None else
    var value := p.document.value;
    var ok := Get(value.fields, "ok") == Bool(true);
    if ok && DecodeSuccess(value).None? then None
    else if !ok && DecodeError(value).None? then None
    else if !ok && p.goTool && !StatusAgrees(catalog, DecodeError(value).value, p.status, Null) then None
    else if (p.status == 0) != ok then None
    else Some(value)
  }

  ghost predicate Envelopes(lines: seq<Option<Value>>) {
    forall i | 0 <= i < |lines| :: lines[i].Some? && Envelope(lines[i].value)
  }

  function Records(lines: seq<Option<Value>>): seq<Value>
    requires forall i | 0 <= i < |lines| :: lines[i].Some?
  {
    seq(|lines|, i requires 0 <= i < |lines| => lines[i].value)
  }

  ghost predicate FailuresAgree(catalog: Catalog, p: Process, body: seq<Value>, exitCode: Value) {
    p.goTool ==> forall r | r in body && Failed(r) :: StatusAgrees(catalog, ErrorOf(r), p.status, exitCode)
  }

  /** Which records read_ux_cli_stream hands back, or how it fails. */
  ghost function StreamOutcome(catalog: Catalog, p: Process): Outcome<seq<Value>> {
    if !Envelopes(p.lines) || p.lines == [] then Refused else
    var records := Records(p.lines);
    Judged(catalog, p, records[..|records| - 1], records[|records| - 1])
  }

  ghost function Judged(catalog: Catalog, p: Process, body: seq<Value>, terminal: Value): Outcome<seq<Value>> {
    var exitCode := ExitCode(terminal);
    if !FailuresAgree(catalog, p, body, exitCode) || !Closing(terminal) then Refused
    else if exitCode.List? || exitCode.Dict? then Crashed
    else if p.status !in {0, 1, 2} || !Is(exitCode, p.status) then Refused
    else if |Select(body, IsResult)| > 1 then Refused
    else if p.status == 0 && exists r :: r in body && Failed(r) then Refused
    else if p.status != 0 && forall r | r in body :: !Failed(r) then Refused
    else Returned(body + [terminal])
  }

  method ReadRecords(lines: seq<Option<Value>>) returns (r: Option<seq<Value>>)
    ensures r.Some? <==> Envelopes(lines)
    ensures r.Some? ==> r.value == Records(lines)
  {
    var records := [];
    for i := 0 to |lines|
      invariant Envelopes(lines[..i])
      invariant records == Records(lines[..i])
    {
      if lines[i].None? {
        assert !Envelopes(lines);
        return None;
      }
      var value := lines[i].value;
      if !value.Dict? {
        assert !Envelope(value);
        return None;
      }
      if Get(value.fields, "ok") == Bool(true) {
        if DecodeSuccess(value).None? {
          assert !Envelope(value);
          return None;
        }
      } else if DecodeError(value).None? {
        assert !Envelope(value);
        return None;
      }
      records := records + [value];
      assert lines[..i + 1] == lines[..i] + [lines[i]];
    }
    assert lines[..|lines|] == lines;
    return Some(records);
  }

  method ResultRecords(body: seq<Value>) returns (results: seq<Value>)
    ensures results == Select(body, IsResult)
  {
    results := [];
    for i := 0 to |body|
      invariant results == Select(body[..i], IsResult)
    {
      var stream := StreamOf(body[i]);
      if stream.Dict? && Get(stream.fields, "result") == Bool(true) {
        results := results + [body[i]];
      }
      assert body[..i + 1][..i] == body[..i];
    }
    assert body[..|body|] == body;
  }

  method CheckFailures(catalog: Catalog, p: Process, failures: seq<Value>, exitCode: Value) returns (agree: bool)
    ensures agree <==> forall r | r in failures :: StatusAgrees(catalog, ErrorOf(r), p.status, exitCode)
  {
    for i := 0 to |failures|
      invariant forall r | r in failures[..i] :: StatusAgrees(catalog, ErrorOf(r), p.status, exitCode)
    {
      if !StatusAgrees(catalog, ErrorOf(failures[i]), p.status, exitCode) {
        return false;
      }
    }
    return true;
  }

  /** read_ux_cli_stream. */
  method ReadStream(catalog: Catalog, p: Process) returns (r: Outcome<seq<Value>>)
    ensures r == StreamOutcome(catalog, p)
  {
    var parsed := ReadRecords(p.lines);
    if parsed.None? || parsed.value == [] {
      return Refused;
    }
    var records := parsed.value;
    var body, terminal := records[..|records| - 1], records[|records| - 1];
    assert forall r | r in body :: Envelope(r);
    r := Judge(catalog, p, body, terminal);
  }

  method Judge(catalog: Catalog, p: Process, body: seq<Value>, terminal: Value) returns (r: Outcome<seq<Value>>)
    requires Envelope(terminal) && forall r | r in body :: Envelope(r)
    ensures r == Judged(catalog, p, body, terminal)
  {
    forall r | r in body || r == terminal ensures r.Dict? && (Failed(r) <==> Get(r.fields, "ok") != Bool(true)) {
      EnvelopeKinds(r);
    }
    hide DecodeSuccess, DecodeError, Envelope, Is, MatchesExit, StreamOf, GetOrEmpty, StatusAgrees, Select,
         IsResult;
    var results := ResultRecords(body);
    var exitCode := ExitCode(terminal);
    var failures := Select(body, Failed);
    Selected(body, Failed);
    assert failures != [] ==> failures[0] in failures;
    if p.goTool {
      var agree := CheckFailures(catalog, p, failures, exitCode);
      if !agree {
        return Refused;
      }
    }
    if !Closing(terminal) {
      return Refused;
    }
    if exitCode.List? || exitCode.Dict? {
      return Crashed;
    }
    if !MatchesExit(exitCode, p.status) {
      return Refused;
    }
    var succeeded := Is(exitCode, 0);
    if |results| > 1 {
      return Refused;
    }
    if succeeded && exists r :: r in body && Get(r.fields, "ok") != Bool(true) {
      return Refused;
    }
    if !succeeded && failures == [] {
      return Refused;
    }
    return Returned(body + [terminal]);
  }

  /** read_kb_create_cli_result, in terms of the two readers. */
  ghost function Answer(catalog: Catalog, p: Process): Outcome<Value> {
    var envelope := ReadDocument(catalog, p);
    if envelope.Some? then
      if p.status == 0 || StatusAgrees(catalog, ErrorOf(envelope.value), p.status, Null)
      then Returned(envelope.value)
      else Refused
    else
      match StreamOutcome(catalog, p)
      case Refused => Refused
      case Crashed => Crashed
      case Returned(records) => Chosen(records[..|records| - 1], p.status)
  }

  /** A success whose stream entry is not a dictionary has no get to ask. */
  predicate Unreadable(record: Value) {
    Succeeded(record) && !StreamOf(record).Dict?
  }

  predicate Answering(record: Value, status: int) {
    if status == 0 then Succeeded(record) && IsResult(record) else Failed(record)
  }

  ghost function Chosen(body: seq<Value>, status: int): Outcome<Value> {
    var candidates := Select(body, r => Answering(r, status));
    if exists r :: r in body && Unreadable(r) then Crashed
    else if |candidates| == 1 then Returned(candidates[0])
    else Refused
  }

  method ReadKbCreate(catalog: Catalog, p: Process) returns (r: Outcome<Value>)
    ensures r == Answer(catalog, p)
  {
    hide ReadDocument, StatusAgrees, Select, StreamOf, IsResult, Envelope, Closing, FailuresAgree;
    var envelope := ReadDocument(catalog, p);
    if envelope.None? {
      var records := ReadStream(catalog, p);
      match records {
        case Refused => return Refused;
        case Crashed => return Crashed;
        case Returned(all) =>
          var body := all[..|all| - 1];
          if exists r :: r in body && Unreadable(r) {
            return Crashed;
          }
          var results := Select(body, r => Succeeded(r) && IsResult(r));
          var failures := Select(body, Failed);
          if p.status == 0 {
            SelectSame(body, r => Succeeded(r) && IsResult(r), r => Answering(r, p.status));
            return if |results| != 1 then Refused else Returned(results[0]);
          }
          SelectSame(body, Failed, r => Answering(r, p.status));
          return if |failures| != 1 then Refused else Returned(failures[0]);
      }
    }
    if p.status == 0 || StatusAgrees(catalog, ErrorOf(envelope.value), p.status, Null) {
      return Returned(envelope.value);
    }
    return Refused;
  }

  // ----------------------------------------------------------- selections

  lemma {:induction false} Selected(records: seq<Value>, keep: Value -> bool)
    ensures forall r :: r in Select(records, keep) <==> r in records && keep(r)
  {
    if records != [] {
      var init := records[..|records| - 1];
      Selected(init, keep);
      assert records == init + [records[|records| - 1]];
    }
  }

  lemma {:induction false} SelectSame(records: seq<Value>, keep: Value -> bool, other: Value -> bool)
    requires forall r | r in records :: keep(r) == other(r)
    ensures Select(records, keep) == Select(records, other)
  {
    if records != [] {
      SelectSame(records[..|records| - 1], keep, other);
    }
  }

  /** Position k holds the only record kept. */
  ghost predicate OnlyAt(records: seq<Value>, keep: Value -> bool, k: int) {
    0 <= k < |records| && forall i | 0 <= i < |records| :: keep(records[i]) <==> i == k
  }

  lemma {:induction false} SelectNone(records: seq<Value>, keep: Value -> bool)
    ensures Select(records, keep) == [] <==> forall i | 0 <= i < |records| :: !keep(records[i])
  {
    if records != [] {
      var n := |records| - 1;
      SelectNone(records[..n], keep);
      assert forall i | 0 <= i < n :: records[..n][i] == records[i];
      assert Select(records, keep) == Select(records[..n], keep) + (if keep(records[n]) then [records[n]] else []);
      hide Select;
    }
  }

  lemma OnlyAtStep(init: seq<Value>, last: Value, keep: Value -> bool, v: Value)
    ensures (exists k :: OnlyAt(init + [last], keep, k) && (init + [last])[k] == v)
       <==> if keep(last) then last == v && forall i | 0 <= i < |init| :: !keep(init[i])
            else exists k :: OnlyAt(init, keep, k) && init[k] == v
  {
    var records := init + [last];
    assert records[|init|] == last && forall i | 0 <= i < |init| :: init[i] == records[i];
    if k :| OnlyAt(records, keep, k) && records[k] == v {
      if keep(last) {
        assert k == |init|;
      } else {
        assert OnlyAt(init, keep, k);
      }
    }
    if keep(last) && forall i | 0 <= i < |init| :: !keep(init[i]) {
      assert forall i | 0 <= i < |records| :: keep(records[i]) <==> i == |init|;
      assert OnlyAt(records, keep, |init|);
    }
    if k :| !keep(last) && OnlyAt(init, keep, k) && init[k] == v {
      assert OnlyAt(records, keep, k);
    }
  }

  lemma {:induction false} SelectOne(records: seq<Value>, keep: Value -> bool, v: Value)
    ensures Select(records, keep) == [v] <==> exists k :: OnlyAt(records, keep, k) && records[k] == v
  {
    if records != [] {
      var init, last := records[..|records| - 1], records[|records| - 1];
      assert records == init + [last];
      assert Select(records, keep) == Select(init, keep) + (if keep(last) then [last] else []);
      SelectNone(init, keep);
      SelectOne(init, keep, v);
      OnlyAtStep(init, last, keep, v);
      hide Select, OnlyAt;
      assert keep(last) && Select(init, keep) == [] ==> Select(records, keep) == [last];
      assert keep(last) ==> |Select(records, keep)| == |Select(init, keep)| + 1;
    }
  }

  // ------------------------------------------------------------- agreement

  lemma ChosenExactly(body: seq<Value>, status: int, v: Value)
    ensures Chosen(body, status) == Returned(v)
       <==> (forall r | r in body :: !Unreadable(r))
            && exists k :: OnlyAt(body, r => Answering(r, status), k) && body[k] == v
  {
    SelectOne(body, r => Answering(r, status), v);
  }

  /** What comes back answers with ok true exactly when the tool exited with 0,
      whichever form it printed. */
  lemma StatusAgreement(catalog: Catalog, p: Process, v: Value)
    requires Answer(catalog, p) == Returned(v)
    ensures Envelope(v)
    ensures Succeeded(v) <==> p.status == 0
    ensures Failed(v) <==> p.status != 0
  {
    if ReadDocument(catalog, p).None? {
      var body := Records(p.lines)[..|p.lines| - 1];
      ChosenExactly(body, p.status, v);
      assert forall r | r in body :: Envelope(r);
      EnvelopeKinds(v);
      hide DecodeSuccess, DecodeError, StreamOutcome, Chosen, StreamOf, StatusAgrees;
    } else {
      EnvelopeKinds(v);
    }
  }

  // ------------------------------------------------------ what is answered

  /** Output in which two or more lines are each a JSON text is not one JSON text. */
  ghost predicate Consistent(p: Process) {
    |p.lines| >= 2 && (forall i | 0 <= i < |p.lines| :: p.lines[i].Some?) ==> p.document.None?
  }

  ghost predicate DocumentAnswers(catalog: Catalog, p: Process, v: Value) {
    && p.document == Some(v) && Envelope(v)
    && (Succeeded(v) <==> p.status == 0)
    && (Failed(v) ==> StatusAgrees(catalog, ErrorOf(v), p.status, Null))
  }

  /** The last line carries the exit status. */
  ghost predicate Closes(p: Process) {
    && p.lines != [] && Envelopes(p.lines)
    && Closing(p.lines[|p.lines| - 1].value)
    && p.status in {0, 1, 2}
    && Is(ExitCode(p.lines[|p.lines| - 1].value), p.status)
  }

  /** A failure this run may report: it exits with a status that fits the code. */
  ghost predicate Admitted(catalog: Catalog, p: Process, record: Value) {
    Failed(record) ==> p.status != 0 && (p.goTool ==> StatusAgrees(catalog, ErrorOf(record), p.status, Null))
  }

  /** A record this run may print before its last line. */
  ghost predicate Permitted(catalog: Catalog, p: Process, record: Value) {
    !Unreadable(record) && Admitted(catalog, p, record)
  }

  /** Line k, before the last, is the answer. */
  ghost predicate LineAnswers(p: Process, k: nat) {
    && k < |p.lines| - 1 && Envelopes(p.lines)
    && forall i | 0 <= i < |p.lines| - 1 :: Answering(p.lines[i].value, p.status) <==> i == k
  }

  /** A failed stream may also carry one result, which is not its answer. */
  ghost predicate OneResult(lines: seq<Option<Value>>) {
    forall i, j | 0 <= i < j < |lines| - 1 && lines[i].Some? && lines[j].Some? ::
      !(IsResult(lines[i].value) && IsResult(lines[j].value))
  }

  ghost predicate StreamAnswers(catalog: Catalog, p: Process, v: Value) {
    && Closes(p) && OneResult(p.lines)
    && AllPermitted(catalog, p)
    && exists k: nat :: LineAnswers(p, k) && p.lines[k].value == v
  }

  lemma {:induction false} AtMostOne(records: seq<Value>, keep: Value -> bool)
    ensures |Select(records, keep)| <= 1
       <==> forall i, j | 0 <= i < j < |records| :: !(keep(records[i]) && keep(records[j]))
  {
    if records != [] {
      var n := |records| - 1;
      var init := records[..n];
      AtMostOne(init, keep);
      SelectNone(init, keep);
      assert forall i | 0 <= i < n :: init[i] == records[i];
    }
  }

  lemma AgreementIgnoresForm(catalog: Catalog, error: Value, status: int, exitCode: Value)
    requires Is(exitCode, status)
    ensures StatusAgrees(catalog, error, status, exitCode)
       <==> StatusAgrees(catalog, error, status, Null)
  {
  }

  /** The readers select over the records before the last; the claims speak of lines. */
  lemma BodyOf(lines: seq<Option<Value>>) returns (body: seq<Value>)
    requires Envelopes(lines) && lines != []
    ensures body == Records(lines)[..|lines| - 1] && |body| == |lines| - 1
    ensures forall i | 0 <= i < |body| :: body[i] == lines[i].value && Envelope(body[i])
    ensures Records(lines) == body + [lines[|lines| - 1].value]
  {
    body := Records(lines)[..|lines| - 1];
  }

  lemma AcceptedExactly(catalog: Catalog, p: Process, body: seq<Value>, terminal: Value)
    requires Envelope(terminal) && forall r | r in body :: Envelope(r)
    ensures Judged(catalog, p, body, terminal).Returned?
       <==> && Closing(terminal) && p.status in {0, 1, 2} && Is(ExitCode(terminal), p.status)
            && |Select(body, IsResult)| <= 1
            && (forall r | r in body && Failed(r) ::
                  p.status != 0 && (p.goTool ==> StatusAgrees(catalog, ErrorOf(r), p.status, Null)))
            && (p.status == 0 || exists r :: r in body && Failed(r))
  {
    var exitCode := ExitCode(terminal);
    if Is(exitCode, p.status) {
      assert !exitCode.List? && !exitCode.Dict?;
      forall r ensures StatusAgrees(catalog, ErrorOf(r), p.status, exitCode)
                  <==> StatusAgrees(catalog, ErrorOf(r), p.status, Null)
      {
        AgreementIgnoresForm(catalog, ErrorOf(r), p.status, exitCode);
      }
    }
    hide Is, StatusAgrees, Closing, Select, ExitCode, Envelope, Failed, ErrorOf;
  }

  lemma AnsweringLine(p: Process, body: seq<Value>, v: Value)
    requires Envelopes(p.lines) && |body| == |p.lines| - 1
    requires forall i | 0 <= i < |body| :: body[i] == p.lines[i].value
    ensures (exists k: nat :: LineAnswers(p, k) && p.lines[k].value == v)
       <==> exists k :: OnlyAt(body, r => Answering(r, p.status), k) && body[k] == v
  {
    hide Answering, Envelope;
    if k: nat :| LineAnswers(p, k) && p.lines[k].value == v {
      assert OnlyAt(body, r => Answering(r, p.status), k);
    }
    if k :| OnlyAt(body, r => Answering(r, p.status), k) && body[k] == v {
      assert LineAnswers(p, k);
    }
  }

  ghost predicate AllPermitted(catalog: Catalog, p: Process) {
    forall i | 0 <= i < |p.lines| - 1 && p.lines[i].Some? :: Permitted(catalog, p, p.lines[i].value)
  }

  lemma PermittedBody(catalog: Catalog, p: Process, body: seq<Value>)
    requires Envelopes(p.lines) && |body| == |p.lines| - 1
    requires forall i | 0 <= i < |body| :: body[i] == p.lines[i].value
    ensures AllPermitted(catalog, p) <==> forall r | r in body :: Permitted(catalog, p, r)
  {
    hide Permitted;
    assert forall i | 0 <= i < |body| :: body[i] in body;
  }

  lemma StreamExactly(catalog: Catalog, p: Process, v: Value)
    ensures StreamAnswers(catalog, p, v)
       <==> StreamOutcome(catalog, p).Returned?
            && Chosen(Records(p.lines)[..|p.lines| - 1], p.status) == Returned(v)
  {
    if Envelopes(p.lines) && p.lines != [] {
      var body := BodyOf(p.lines);
      var terminal := p.lines[|p.lines| - 1].value;
      AcceptedExactly(catalog, p, body, terminal);
      ChosenExactly(body, p.status, v);
      AtMostOne(body, IsResult);
      AnsweringLine(p, body, v);
      PermittedBody(catalog, p, body);
      hide Is, StatusAgrees, Closing, Select, ExitCode, Envelope, Failed, Judged, Chosen, Unreadable, IsResult,
           AllPermitted, LineAnswers, OnlyAt;
    }
  }

  lemma DocumentExactly(catalog: Catalog, p: Process, v: Value)
    ensures DocumentAnswers(catalog, p, v)
       <==> && ReadDocument(catalog, p) == Some(v)
            && (p.status == 0 || StatusAgrees(catalog, ErrorOf(v), p.status, Null))
  {
    hide StatusAgrees;
  }

  /** The answer is the whole document, or the only result (the only failure)
      before a terminal record that carries the exit status; never both. */
  lemma AnswerExactly(catalog: Catalog, p: Process, v: Value)
    requires Consistent(p)
    ensures Answer(catalog, p) == Returned(v)
       <==> DocumentAnswers(catalog, p, v) || StreamAnswers(catalog, p, v)
    ensures DocumentAnswers(catalog, p, v) ==> forall w :: !StreamAnswers(catalog, p, w)
  {
    StreamExactly(catalog, p, v);
    DocumentExactly(catalog, p, v);
    if ReadDocument(catalog, p).Some? {
      DocumentExactly(catalog, p, ReadDocument(catalog, p).value);
    }
    hide StatusAgrees, Is, Closing, Envelope, Chosen, StreamOutcome, Permitted, OneResult, Answering;
  }

  ghost predicate Catalogued(catalog: Catalog, failure: Value) {
    ErrorOf(failure).Dict? && Get(ErrorOf(failure).fields, "code").Text? && ErrorOf(failure).fields["code"].s in catalog
  }

  lemma DocumentStatus(catalog: Catalog, p: Process, status: int, v: Value)
    requires DocumentAnswers(catalog, p, v) && status != p.status
    ensures DocumentAnswers(catalog, p.(status := status), v)
       <==> Failed(v) && status != 0 && !Catalogued(catalog, v)
  {
    hide DecodeSuccess, DecodeError;
    assert Succeeded(v) == !Failed(v) by {
      EnvelopeKinds(v);
    }
    hide Envelope;
  }

  /** A stream answers for one exit status, and only where there is no document. */
  lemma StreamStatus(catalog: Catalog, p: Process, v: Value)
    requires Consistent(p) && StreamAnswers(catalog, p, v)
    ensures p.document.None?
    ensures forall status, w | StreamAnswers(catalog, p.(status := status), w) :: status == p.status
  {
    hide Permitted, Envelope, Closing, OneResult, Answering;
    IsOne(ExitCode(p.lines[|p.lines| - 1].value));
    hide Is, ExitCode;
  }

  /** A wrong exit status is noticed, except among failing ones for a single
      document whose error code the catalog does not hold. */
  lemma StatusPinned(catalog: Catalog, p: Process, status: int, v: Value)
    requires Consistent(p) && Answer(catalog, p) == Returned(v) && status != p.status
    ensures Answer(catalog, p.(status := status)).Returned?
       <==> DocumentAnswers(catalog, p, v) && Failed(v) && status != 0 && !Catalogued(catalog, v)
  {
    var q := p.(status := status);
    AnswerExactly(catalog, p, v);
    AnswerExactly(catalog, q, v);
    if Answer(catalog, q).Returned? {
      var w := Answer(catalog, q).value;
      AnswerExactly(catalog, q, w);
      if StreamAnswers(catalog, q, w) {
        StreamStatus(catalog, q, w);
      }
    }
    if DocumentAnswers(catalog, p, v) {
      DocumentStatus(catalog, p, status, v);
      assert forall w | DocumentAnswers(catalog, q, w) :: w == v;
    } else {
      StreamStatus(catalog, p, v);
      assert forall w :: !DocumentAnswers(catalog, q, w);
    }
    hide *;
  }

  // ------------------------------------------------- other exceptions

  /** A terminal record whose exit code is a list or a dictionary, reached without a
      refusal: exit_code not in {0, 1, 2} raises TypeError on it. */
  ghost predicate UnhashableExit(catalog: Catalog, p: Process) {
    && p.lines != [] && Envelopes(p.lines)
    && Closing(p.lines[|p.lines| - 1].value)
    && (ExitCode(p.lines[|p.lines| - 1].value).List? || ExitCode(p.lines[|p.lines| - 1].value).Dict?)
    && (p.goTool ==>
          forall i | 0 <= i < |p.lines| - 1 && Failed(p.lines[i].value) :: !Catalogued(catalog, p.lines[i].value))
  }

  /** A success before the last record whose stream entry has no get. */
  ghost predicate UnreadableStream(p: Process) {
    exists i :: 0 <= i < |p.lines| - 1 && p.lines[i].Some? && Unreadable(p.lines[i].value)
  }

  lemma ContainerNeverAgrees(catalog: Catalog, failure: Value, status: int, exitCode: Value)
    requires exitCode.List? || exitCode.Dict?
    requires Envelope(failure) && Failed(failure)
    ensures StatusAgrees(catalog, ErrorOf(failure), status, exitCode) <==> !Catalogued(catalog, failure)
  {
  }

  lemma UnhashableExactly(catalog: Catalog, p: Process)
    ensures StreamOutcome(catalog, p) == Crashed <==> UnhashableExit(catalog, p)
  {
    if Envelopes(p.lines) && p.lines != [] {
      var body := BodyOf(p.lines);
      var exitCode := ExitCode(p.lines[|p.lines| - 1].value);
      if exitCode.List? || exitCode.Dict? {
        forall r | r in body && Failed(r)
          ensures StatusAgrees(catalog, ErrorOf(r), p.status, exitCode) <==> !Catalogued(catalog, r)
        {
          ContainerNeverAgrees(catalog, r, p.status, exitCode);
        }
      }
      assert forall i | 0 <= i < |body| :: body[i] in body;
      hide StatusAgrees, Closing, ExitCode, Envelope, Failed, Catalogued, Is, Select, ErrorOf;
    }
  }

  /** The whole output is read as one document. */
  ghost predicate DocumentRead(catalog: Catalog, p: Process) {
    && p.document.Some? && Envelope(p.document.value)
    && (Succeeded(p.document.value) <==> p.status == 0)
    && (p.goTool && Failed(p.document.value) ==> StatusAgrees(catalog, ErrorOf(p.document.value), p.status, Null))
  }

  lemma DocumentReadExactly(catalog: Catalog, p: Process)
    ensures ReadDocument(catalog, p).Some? <==> DocumentRead(catalog, p)
  {
    hide StatusAgrees;
  }

  ghost predicate AllAdmitted(catalog: Catalog, p: Process) {
    forall i | 0 <= i < |p.lines| - 1 && p.lines[i].Some? :: Admitted(catalog, p, p.lines[i].value)
  }

  ghost predicate AnyFailed(p: Process) {
    exists i :: 0 <= i < |p.lines| - 1 && p.lines[i].Some? && Failed(p.lines[i].value)
  }

  ghost predicate AcceptedStream(catalog: Catalog, p: Process) {
    Closes(p) && OneResult(p.lines) && AllAdmitted(catalog, p) && (p.status == 0 || AnyFailed(p))
  }

  lemma AdmittedBody(catalog: Catalog, p: Process, body: seq<Value>)
    requires Envelopes(p.lines) && |body| == |p.lines| - 1
    requires forall i | 0 <= i < |body| :: body[i] == p.lines[i].value
    ensures AllAdmitted(catalog, p) <==> forall r | r in body :: Admitted(catalog, p, r)
    ensures AnyFailed(p) <==> exists r :: r in body && Failed(r)
  {
    hide Admitted, Failed;
    assert forall i | 0 <= i < |body| :: body[i] in body;
  }

  lemma AcceptedByLine(catalog: Catalog, p: Process)
    ensures StreamOutcome(catalog, p).Returned? <==> AcceptedStream(catalog, p)
  {
    if Envelopes(p.lines) && p.lines != [] {
      var body := BodyOf(p.lines);
      AcceptedExactly(catalog, p, body, p.lines[|p.lines| - 1].value);
      AtMostOne(body, IsResult);
      AdmittedBody(catalog, p, body);
      hide Is, StatusAgrees, Closing, Select, ExitCode, Envelope, Failed, Judged, IsResult, ErrorOf, AllAdmitted,
           AnyFailed;
    }
  }

  /** Anything but an answer or the refusal callers handle comes from one of two
      malformed streams, where the output is not read as one document, and always does. */
  lemma CrashExactly(catalog: Catalog, p: Process)
    ensures Answer(catalog, p) == Crashed
       <==> && !DocumentRead(catalog, p)
            && (UnhashableExit(catalog, p) || (AcceptedStream(catalog, p) && UnreadableStream(p)))
  {
    DocumentReadExactly(catalog, p);
    UnhashableExactly(catalog, p);
    ReturnedRecords(catalog, p);
    AcceptedByLine(catalog, p);
    if Envelopes(p.lines) && p.lines != [] {
      var body := BodyOf(p.lines);
      assert forall i | 0 <= i < |body| :: body[i] in body;
      hide Unreadable, UnhashableExit, Envelope, ReadDocument, StreamOutcome, StatusAgrees, Select, AcceptedStream,
           DocumentRead;
    }
  }

  /** A terminal record that gives [] as its exit code. */
  lemma ListExitCrashes(catalog: Catalog)
    ensures Answer(catalog, Process(None, [Some(TerminalWith(List([])))], 0, false)) == Crashed
  {
    var p := Process(None, [Some(TerminalWith(List([])))], 0, false);
    TerminalShape(List([]));
    CrashExactly(catalog, p);
    hide Answer, Envelope, Closing, ExitCode, TerminalWith, StatusAgrees;
    assert UnhashableExit(catalog, p);
  }

  /** A success that gives a text as its stream entry. */
  lemma TextStreamCrashes(catalog: Catalog, s: string)
    ensures var odd := Dict(map["ok" := Bool(true), "data" := Null, "meta" := Dict(map["stream" := Text(s)])]);
            Answer(catalog, Process(None, [Some(odd), Some(Terminal(0))], 0, false)) == Crashed
  {
    var odd := Dict(map["ok" := Bool(true), "data" := Null, "meta" := Dict(map["stream" := Text(s)])]);
    var p := Process(None, [Some(odd), Some(Terminal(0))], 0, false);
    assert odd.fields.Keys == {"ok", "data", "meta"} && StreamOf(odd) == Text(s);
    assert Envelope(odd) && Unreadable(odd) && !Failed(odd);
    TerminalCloses(0);
    CrashExactly(catalog, p);
    hide Answer, Envelope, Closing, Is, ExitCode, Terminal, Unreadable, Failed, StatusAgrees;
    assert p.lines[0].value == odd;
    assert AcceptedStream(catalog, p);
    assert UnreadableStream(p);
  }

  lemma ReturnedRecords(catalog: Catalog, p: Process)
    ensures StreamOutcome(catalog, p).Returned? ==>
              Envelopes(p.lines) && p.lines != [] && StreamOutcome(catalog, p).value == Records(p.lines)
  {
    hide FailuresAgree, Closing, Is, Select, Failed, ExitCode;
    if Envelopes(p.lines) && p.lines != [] {
      var body := BodyOf(p.lines);
    }
  }

  // ------------------------------------------------------------ round trip

  /** A closing record. */
  function TerminalWith(exitCode: Value): Value {
    Dict(map["ok" := Bool(true), "data" := Null, "meta" := Dict(map["stream" :=
      Dict(map["terminal" := Bool(true), "exitCode" := exitCode])])])
  }

  function Terminal(status: int): Value {
    TerminalWith(Number(status as real))
  }

  predicate Progress(record: Value) {
    DecodeSuccess(record).Some? && StreamOf(record).Dict? && !IsResult(record)
  }

  /** What a tool may answer with: a result when it exits with 0, else a failure
      whose code, where the catalog has it, belongs to the status. */
  predicate Answers(catalog: Catalog, record: Value, status: int) {
    && Envelope(record) && Answering(record, status)
    && (status == 0 || StatusAgrees(catalog, ErrorOf(record), status, Null))
  }

  function Emit(records: seq<Value>): seq<Option<Value>> {
    seq(|records|, i requires 0 <= i < |records| => Some(records[i]))
  }

  lemma TerminalShape(exitCode: Value)
    ensures Envelope(TerminalWith(exitCode)) && Closing(TerminalWith(exitCode))
    ensures ExitCode(TerminalWith(exitCode)) == exitCode
  {
    var terminal := TerminalWith(exitCode);
    assert terminal.fields.Keys == {"ok", "data", "meta"};
    assert StreamOf(terminal) == Dict(map["terminal" := Bool(true), "exitCode" := exitCode]);
  }

  lemma TerminalCloses(status: int)
    requires status in {0, 1, 2}
    ensures Envelope(Terminal(status)) && Closing(Terminal(status)) && Is(ExitCode(Terminal(status)), status)
  {
    TerminalShape(Number(status as real));
  }

  lemma ProgressRecord(catalog: Catalog, p: Process, record: Value)
    requires Progress(record)
    ensures Envelope(record) && Permitted(catalog, p, record) && !Answering(record, p.status) && !IsResult(record)
  {
  }

  lemma AnswerRecord(catalog: Catalog, p: Process, answer: Value)
    requires Answers(catalog, answer, p.status)
    ensures Permitted(catalog, p, answer)
  {
    EnvelopeKinds(answer);
    hide DecodeSuccess, DecodeError, StatusAgrees, StreamOf;
  }

  /** Whatever progress a tool reports around its answer, the reader gets the answer. */
  lemma StreamRoundTrip(catalog: Catalog, before: seq<Value>, answer: Value, after: seq<Value>, p: Process)
    requires forall r | r in before + after :: Progress(r)
    requires p.status in {0, 1, 2} && Answers(catalog, answer, p.status)
    requires p.lines == Emit(before + [answer] + after + [Terminal(p.status)]) && Consistent(p)
    ensures Answer(catalog, p) == Returned(answer)
  {
    TerminalCloses(p.status);
    AnswerRecord(catalog, p, answer);
    assert Envelope(answer) && Answering(answer, p.status);
    hide Envelope, Closing, Is, ExitCode, Terminal, Permitted, Answering, Answers, IsResult;
    var k, n := |before|, |p.lines| - 1;
    forall i | 0 <= i < n && i != k
      ensures Envelope(p.lines[i].value) && Permitted(catalog, p, p.lines[i].value)
      ensures !Answering(p.lines[i].value, p.status) && !IsResult(p.lines[i].value)
    {
      var record := if i < k then before[i] else after[i - k - 1];
      assert record in before + after && p.lines[i].value == record;
      ProgressRecord(catalog, p, record);
    }
    assert p.lines[k].value == answer && p.lines[n].value == Terminal(p.status);
    assert Envelopes(p.lines);
    assert LineAnswers(p, k);
    assert AllPermitted(catalog, p);
    assert OneResult(p.lines);
    AnswerExactly(catalog, p, answer);
  }

  // --------------------------------------------- what the parts stand for

  predicate ClosesWith(stream: map<string, Value>, status: int) {
    && "terminal" in stream && stream["terminal"] == Bool(true)
    && "exitCode" in stream
    && (|| stream["exitCode"] == Number(status as real)
        || (stream["exitCode"] == Bool(true) && status == 1)
        || (stream["exitCode"] == Bool(false) && status == 0))
  }

  /** The entries that make a record the closing one of this exit status. */
  lemma ClosingExactly(terminal: Value, status: int)
    ensures Closing(terminal) && Is(ExitCode(terminal), status)
       <==> && terminal.Dict? && "ok" in terminal.fields && terminal.fields["ok"] == Bool(true)
            && "data" in terminal.fields && terminal.fields["data"] == Null
            && "meta" in terminal.fields && terminal.fields["meta"].Dict?
            && "stream" in terminal.fields["meta"].fields && terminal.fields["meta"].fields["stream"].Dict?
            && ClosesWith(terminal.fields["meta"].fields["stream"].fields, status)
  {
    if terminal.Dict? && StreamOf(terminal).Dict? {
      PyEqualExactly(ExitCode(terminal), Number(status as real));
    }
  }

  /** The entries that make a record a result, and those that make a success unreadable. */
  lemma ResultExactly(record: Value)
    ensures IsResult(record)
       <==> && record.Dict? && "meta" in record.fields && record.fields["meta"].Dict?
            && "stream" in record.fields["meta"].fields && record.fields["meta"].fields["stream"].Dict?
            && "result" in record.fields["meta"].fields["stream"].fields
            && record.fields["meta"].fields["stream"].fields["result"] == Bool(true)
    ensures Unreadable(record)
       <==> && record.Dict? && "ok" in record.fields && record.fields["ok"] == Bool(true)
            && "meta" in record.fields && record.fields["meta"].Dict?
            && "stream" in record.fields["meta"].fields && !record.fields["meta"].fields["stream"].Dict?
  {
  }

  ghost predicate HasCode(failure: Value, code: string) {
    && failure.Dict? && "error" in failure.fields && failure.fields["error"].Dict?
    && "code" in failure.fields["error"].fields && failure.fields["error"].fields["code"] == Text(code)
  }

  /** Which failing exit status belongs to a code: 2 to a refused input, 1 to a failed
      operation, any to a code that is not catalogued, none to any other class. */
  ghost predicate Belongs(catalog: Catalog, code: string, status: int) {
    && status != 0
    && (code in catalog ==>
          && (catalog[code] == InputRefusal ==> status == 2)
          && (catalog[code] == OperationFailure ==> status == 1)
          && catalog[code] != Unsupported)
  }

  /** A tool's failure printed as one document is returned exactly with a status that
      belongs to its code. */
  lemma DocumentStatusExactly(catalog: Catalog, failure: Value, code: string, status: int, goTool: bool)
    requires Envelope(failure) && Failed(failure) && HasCode(failure, code)
    ensures Answer(catalog, Process(Some(failure), [Some(failure)], status, goTool)) == Returned(failure)
       <==> Belongs(catalog, code, status)
  {
    var p := Process(Some(failure), [Some(failure)], status, goTool);
    EnvelopeKinds(failure);
    AnswerExactly(catalog, p, failure);
    hide Envelope, Answer, Closing, Is, ExitCode;
    assert !StreamAnswers(catalog, p, failure);
  }

  /** A Go tool's failure in a stream, before a terminal record of the same status: the
      same statuses, of those a stream may have; for other tools any of 1 and 2. */
  lemma StreamStatusExactly(catalog: Catalog, failure: Value, code: string, status: int, goTool: bool)
    requires Envelope(failure) && Failed(failure) && HasCode(failure, code)
    ensures Answer(catalog, Process(None, [Some(failure), Some(Terminal(status))], status, goTool)) == Returned(failure)
       <==> (status == 1 || status == 2) && (goTool ==> Belongs(catalog, code, status))
  {
    var p := Process(None, [Some(failure), Some(Terminal(status))], status, goTool);
    EnvelopeKinds(failure);
    TerminalShape(Number(status as real));
    assert Terminal(status) == TerminalWith(Number(status as real));
    AnswerExactly(catalog, p, failure);
    FailureOnly(catalog, p, failure, status);
    assert StatusAgrees(catalog, ErrorOf(failure), status, Null) && status != 0 <==> Belongs(catalog, code, status);
    hide Envelope, Answer, Closing, Terminal, TerminalWith, StatusAgrees, Belongs, StreamAnswers;
  }

  lemma FailureOnly(catalog: Catalog, p: Process, failure: Value, status: int)
    requires Envelope(failure) && Failed(failure) && !Succeeded(failure)
    requires Envelope(Terminal(status)) && Closing(Terminal(status))
    requires ExitCode(Terminal(status)) == Number(status as real)
    requires p.lines == [Some(failure), Some(Terminal(status))] && p.status == status && p.document == None
    ensures StreamAnswers(catalog, p, failure)
       <==> (status == 1 || status == 2) && (p.goTool ==> StatusAgrees(catalog, ErrorOf(failure), status, Null))
  {
    hide Envelope, Closing, Terminal, StatusAgrees, ExitCode;
    assert Envelopes(p.lines);
    assert p.lines[0].value == failure && p.lines[1].value == Terminal(status);
    if status == 1 || status == 2 {
      assert LineAnswers(p, 0);
    }
  }
}

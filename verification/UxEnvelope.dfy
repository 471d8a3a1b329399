/** The success and failure envelopes every command line tool answers with. */
module UxEnvelope {
  import opened Json
  import opened Options

  /** decode_ux_success_result: the payload, or None where the source raises. */
  function DecodeSuccess(v: Value): Option<Value> {
    if || !v.Dict?
       || Get(v.fields, "ok") != Bool(true)
       || "data" !in v.fields
       || v.fields.Keys - {"ok", "data", "meta"} != {}
       || ("meta" in v.fields && !v.fields["meta"].Dict?)
    then None
    else Some(v.fields["data"])
  }

  /** decode_ux_error_result: the error payload, or None where the source raises. */
  function DecodeError(v: Value): Option<Value> {
    if || !v.Dict?
       || Get(v.fields, "ok") != Bool(false)
       || v.fields.Keys != {"ok", "error"}
       || !v.fields["error"].Dict?
       || !Get(v.fields["error"].fields, "code").Text?
       || !Get(v.fields["error"].fields, "message").Text?
    then None
    else Some(v.fields["error"])
  }

  lemma OneKindOfEnvelope(v: Value)
    ensures DecodeSuccess(v).None? || DecodeError(v).None?
  {
  }

  /** The two envelopes, entry by entry. */
  lemma EnvelopesExactly(v: Value)
    ensures DecodeSuccess(v).Some?
       <==> && v.Dict? && "ok" in v.fields && v.fields["ok"] == Bool(true) && "data" in v.fields
            && (forall k <- v.fields :: k == "ok" || k == "data" || k == "meta")
            && ("meta" in v.fields ==> v.fields["meta"].Dict?)
    ensures DecodeSuccess(v).Some? ==> DecodeSuccess(v).value == v.fields["data"]
    ensures DecodeError(v).Some?
       <==> && v.Dict? && "ok" in v.fields && v.fields["ok"] == Bool(false) && "error" in v.fields
            && (forall k <- v.fields :: k == "ok" || k == "error")
            && v.fields["error"].Dict?
            && "code" in v.fields["error"].fields && v.fields["error"].fields["code"].Text?
            && "message" in v.fields["error"].fields && v.fields["error"].fields["message"].Text?
    ensures DecodeError(v).Some? ==> DecodeError(v).value == v.fields["error"]
  {
    if v.Dict? {
      assert v.fields.Keys - {"ok", "data", "meta"} == {} <==> forall k <- v.fields :: k == "ok" || k == "data" || k == "meta" by {
        if v.fields.Keys - {"ok", "data", "meta"} == {} {
          forall k <- v.fields ensures k == "ok" || k == "data" || k == "meta" {
            assert k !in v.fields.Keys - {"ok", "data", "meta"};
          }
        }
      }
    }
  }
}

/** The per-record decision. The external classifier is a parameter: a function
    from the record to the reply text it gives back. */
module Validator {
  import opened Wrappers
  import opened Records

  /** The reply the service gives to the call made for the document with the
      given id, whose fields are the given record. Keying by the document lets
      two documents with equal fields get different replies within one run,
      as separate calls to the service may. */
  type Classifier = (Id, Record) -> string

  /** The only reply that counts as a failed validation. */
  const REJECT: string := "false"

  /** The fixed reason every discrepancy carries. */
  const FAILED: string := "Validation failed"

  /** A `(tenant, date, reason)` triple as collected for the report. */
  datatype Discrepancy = Discrepancy(tenant: string, date: string, reason: string)

  /** The discrepancy a rejected record produces. */
  function ReportOf(r: Record): (d: Discrepancy)
    ensures d.tenant == r.tenantName && d.date == r.date && d.reason == FAILED
  {
    Discrepancy(r.tenantName, r.date, FAILED)
  }

  /** `validate_record`: a discrepancy exactly when the reply is the exact text
      "false"; any other reply, recognised or not, passes the record. */
  function Validate(classify: Classifier, id: Id, r: Record): (d: Option<Discrepancy>)
    ensures d.Some? <==> classify(id, r) == REJECT
    ensures d.Some? ==> d.value.tenant == r.tenantName && d.value.date == r.date
    ensures d.Some? ==> d.value.reason == FAILED
  {
    if classify(id, r) == REJECT then Some(ReportOf(r)) else None
  }

  /** Replies that differ from "false" only in case, whitespace or wording pass
      the record: the comparison is exact string equality. */
  lemma NearMissRepliesPass(classify: Classifier, id: Id, r: Record)
    requires classify(id, r) in {"true", "False", "FALSE", " false", "false\n", "false.", ""}
    ensures Validate(classify, id, r) == None
  {
  }

  /** Under the assumption that the classifier answers "false" exactly for
      records breaking the rule, a record is reported exactly when it is
      inconsistent. This is an assumption about the external service, not
      behaviour of the code. */
  lemma FaithfulClassifierFlagsInconsistent(classify: Classifier, id: Id, r: Record)
    requires classify(id, r) == REJECT <==> !r.Consistent()
    ensures Validate(classify, id, r).Some? <==> !r.Consistent()
    ensures Validate(classify, id, r).Some? ==> Validate(classify, id, r).value == ReportOf(r)
  {
  }
}

# Record-validation pipeline, modelled in Dafny

The modelled system is a small batch job that reads every *pending* record
(tenant, date, new accounts, points per account, reported total, status) from
a record store. It asks an external language-model classifier whether each
record obeys the rule `total_account_points == new_accounts * account_points`,
marks every record it read as *completed*, and emails one report listing the
records the classifier rejected. The HTTP endpoint returns
`{"message": "Validation completed", "errors_found": n}`.

The model is functional. The store is a map from document id to `Record`.
The result of the pending query is a sequence of ids: each pending document
appears exactly once, in whatever order the store chose. The classifier is a
parameter `(Id, Record) -> string`, giving the reply to the call made for
one document. A run returns the new store, the list of
discrepancies, the message it would hand to the mail transport (`Option`) and
the endpoint's reply.

- `wrappers.dfy`: `Option`.
- `records.dfy`: `Record` with its raw textual `status`, the `Store`, the
  pending-snapshot predicate, and the status update `MarkCompleted`.
- `validator.dfy`: `validate_record`. A discrepancy is produced exactly when
  the reply is the exact text `"false"`.
- `report.dfy`: `send_email` up to delivery, that is, the empty-list guard,
  the subject and the body. It also contains a splitter at line feeds: reading the
  body back line by line gives the title, a blank line and one row per
  discrepancy.
- `pipeline.dfy`: `process_records` as a left fold. For each record it
  validates, appends any discrepancy, then marks the record completed. The
  file also proves the run's properties.

`main.py` never evaluates the rule itself. Every record goes to the classifier
(main.py:71-77). Only the exact reply `"false"` yields a discrepancy
(main.py:81-82), and any other text, including unrecognised text, passes the
record. The rule appears only in the prompt (main.py:52). The model uses it
solely in the lemmas that assume a classifier which applies the rule
faithfully.

## Model

| member | source | states |
|---|---|---|
| Validator.Validate | main.py:80-84 | A discrepancy is returned if and only if the classifier's reply is exactly `"false"`. When returned, it copies the record's tenant and date unchanged and carries the reason `"Validation failed"`. |
| Validator.NearMissRepliesPass | main.py:81-84 | Replies that differ from `"false"` only in case, surrounding whitespace, punctuation or wording (`"False"`, `" false"`, `"false\n"`, `"true"`, empty) yield no discrepancy. |
| Validator.FaithfulClassifierFlagsInconsistent | main.py:52 | Assumption: the classifier answers `"false"` exactly when the rule is broken. Under that assumption a record is reported exactly when total ≠ new × points. |
| Records.MarkCompleted | main.py:121 | `$set status = "completed"` on one document. The document set is unchanged, the document's other fields are unchanged, and every other document is untouched. |
| Report.Compose | main.py:86-100 | No message for an empty list. For a non-empty list there is exactly one message, with the fixed subject, the configured sender and recipient, and the header followed by the lines. |
| Report.LinesAppend | main.py:96-98 | The body's lines follow list order: the lines of a concatenated list are the lines of the first part followed by those of the second. |
| Report.SplitLinesOfLines | main.py:97-98 | When no field contains a line feed, reading the appended text back gives exactly one `Tenant: …, Date: …, Reason: …` line per discrepancy, in order. |
| Report.BodyShape | main.py:96-98 | When no field contains a line feed, the body reads as the title line, one blank line, then exactly one row per discrepancy in list order. |
| Pipeline.Loop | main.py:114-121 | The loop keeps the store's set of documents and collects at most one discrepancy per visited record. |
| Pipeline.LoopStatuses | main.py:115-121 | After the loop, every visited document has status `"completed"` and all its other fields unchanged, whatever its validation outcome. Documents that were not visited are untouched. |
| Pipeline.LoopSelects | main.py:114-118 | The collected list is the reports of exactly those visited records the classifier rejected, taken in visiting order through strictly increasing positions. |
| Pipeline.LoopCount | main.py:114-118 | With distinct ids, the list has exactly one entry per visited record whose reply was `"false"`. |
| Pipeline.ProcessRecords | main.py:110-126 | A whole run does the following. Every document pending at query time ends completed, with only its status changed. Other documents are untouched and no document is left pending. `errors_found` equals the list's length, which equals the number of pending records whose reply was `"false"`. The list is in query order. A message is produced exactly when the list is non-empty. |
| Pipeline.SecondRunIsQuiet | main.py:112 | Idempotence: the query of a second run returns nothing. That run changes nothing, finds nothing, produces no message and reports `errors_found = 0`. |
| Pipeline.FaithfulClassifierRun | main.py:52 | Assumption: the classifier applies the rule faithfully. Under that assumption the run reports each inconsistent pending record and nothing else, and `errors_found` is their number. |
| Pipeline.DuplicateDocumentsJudgedSeparately | main.py:115-118 | Two pending documents with identical fields are judged by separate calls: with the first rejected and the second accepted, the run reports exactly one discrepancy and `errors_found = 1`. |
| Pipeline.OneOfTwoInconsistent | main.py:109-126 | Worked example with two pending Acme records, one consistent (10 × 5 = 50) and one not (60). The run replies `errors_found = 1` and mails a body with exactly the one line for 2024-01-02. |

## Left out

- The language-model call and the prompt text (main.py:47-77). The
  classifier is an uninterpreted parameter that gives the reply to the call
  made for one document, keyed by the document's id and its fields. Two
  documents with equal fields can therefore get different replies, as two
  separate service calls can.
- The MongoDB client (main.py:27-30) and the behaviour of the cursor created
  at main.py:112 and iterated at main.py:115. The query result is
  a fixed snapshot of ids, and the records validated are the snapshot's
  copies. A cursor that observes concurrent updates and overlapping runs is a
  concurrency concern and is not modelled.
- The SMTP transport: connection, `starttls`, `login` and `send_message`
  (main.py:102-105). The model produces the message as a value. It does not
  model delivery or its failures.
- The FastAPI routing and uvicorn start-up (main.py:109, main.py:128-130). The
  endpoint's reply is modelled as `Response`.
- Environment and configuration loading, including `int(SMTP_PORT)`
  (main.py:9-25). The sender and recipient addresses are a `MailConfig`
  parameter.
- `print` logging (main.py:41-45, main.py:78, main.py:107).
- Exceptions: a missing field (`KeyError`), classifier or store failures, and
  mail failures. `main.py` does not handle them, so they abort the request.
  The `Record` datatype always has every field. Failure paths are not
  modelled.
- Numeric types: points are integers. Python floats and their equality are
  not modelled, and `date` is kept as the text it renders to.
- Report.SplitLinesOfLines: states the one-line-per-discrepancy reading only
  when tenant, date and reason contain no line feed. A field with a line feed
  splits its line in the mailed text. Report.LinesAppend still fixes the order
  unconditionally.
- Report.BodyShape: has the same line-feed-free condition as
  Report.SplitLinesOfLines.
- Report.Compose: `Message.body` is the text handed to `set_content`
  (main.py:100). The line-ending normalisation and transfer encoding applied
  there are not modelled. In particular, a lone carriage return in a field
  also breaks a line in the mailed text, which the line-feed-only splitter
  does not capture.

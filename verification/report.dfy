/** The notification step: the guard that suppresses an empty report and the
    composition of the message text. Delivery is not modelled; the message is
    returned as a value. */
module Report {
  import opened Wrappers
  import opened Validator

  const SUBJECT: string := "CSV Validation Alert: Discrepancies Found"

  /** The opening line of every body, followed by one blank line. */
  const TITLE: string := "The following records have discrepancies:"
  const HEADER: string := TITLE + "\n" + "\n"

  /** Sender and recipient addresses, read once from the environment. */
  datatype MailConfig = MailConfig(emailFrom: string, emailTo: string)

  datatype Message = Message(subject: string, sender: string, recipient: string, body: string)

  /** The text of one report line, without its terminator. */
  function Row(d: Discrepancy): string {
    "Tenant: " + d.tenant + ", Date: " + d.date + ", Reason: " + d.reason
  }

  function Line(d: Discrepancy): string {
    Row(d) + "\n"
  }

  /** The renderings of the discrepancies, concatenated in list order, built
      up one item at a time. */
  function Join(ds: seq<Discrepancy>, render: Discrepancy -> string): string
    decreases |ds|
  {
    if ds == [] then "" else Join(ds[..|ds| - 1], render) + render(ds[|ds| - 1])
  }

  /** The lines appended to the body, one per discrepancy, as the loop in
      `send_email` appends them. */
  function Lines(ds: seq<Discrepancy>): string {
    Join(ds, Line)
  }

  function Body(ds: seq<Discrepancy>): string {
    HEADER + Lines(ds)
  }

  /** `send_email` up to the hand-off to the mail transport: nothing for an
      empty list, otherwise one message with the fixed subject and the
      composed body. */
  function Compose(cfg: MailConfig, ds: seq<Discrepancy>): (m: Option<Message>)
    ensures m.None? <==> |ds| == 0
    ensures m.Some? ==> m.value.subject == SUBJECT
    ensures m.Some? ==> m.value.sender == cfg.emailFrom && m.value.recipient == cfg.emailTo
    ensures m.Some? ==> m.value.body == HEADER + Lines(ds)
  {
    if |ds| == 0 then None
    else Some(Message(SUBJECT, cfg.emailFrom, cfg.emailTo, Body(ds)))
  }

  lemma {:induction false} JoinAppend(a: seq<Discrepancy>, b: seq<Discrepancy>, render: Discrepancy -> string)
    ensures Join(a + b, render) == Join(a, render) + Join(b, render)
    decreases |b|
  {
    if b == [] {
      assert a + b == a;
    } else {
      var ab, front, last := a + b, b[..|b| - 1], b[|b| - 1];
      assert ab[..|ab| - 1] == a + front;
      assert ab[|ab| - 1] == last;
      JoinAppend(a, front, render);
    }
  }

  /** Line building distributes over concatenation of discrepancy lists: the
      body lists the discrepancies in list order, each exactly once. */
  lemma LinesAppend(a: seq<Discrepancy>, b: seq<Discrepancy>)
    ensures Lines(a + b) == Lines(a) + Lines(b)
  {
    JoinAppend(a, b, Line);
  }

  lemma LinesSingle(d: Discrepancy)
    ensures Lines([d]) == Line(d)
  {
    assert [d][..0] == [];
    assert Join([d], Line) == Join([], Line) + Line(d);
  }

  lemma JoinCons(d: Discrepancy, ds: seq<Discrepancy>, render: Discrepancy -> string)
    ensures Join([d] + ds, render) == render(d) + Join(ds, render)
  {
    JoinAppend([d], ds, render);
    assert [d][..0] == [];
  }

  // Splitting text at line feeds.

  /** Index of the first line feed, or the length when there is none. */
  function FirstNewline(s: string): (k: nat)
    ensures k <= |s|
    ensures forall j :: 0 <= j < k ==> s[j] != '\n'
    ensures k < |s| ==> s[k] == '\n'
  {
    if s == [] || s[0] == '\n' then 0 else 1 + FirstNewline(s[1..])
  }

  /** The lines of a text, terminators dropped; a final unterminated piece is
      a line of its own. */
  function SplitLines(s: string): seq<string>
    decreases |s|
  {
    if s == [] then []
    else
      var k := FirstNewline(s);
      if k == |s| then [s] else [s[..k]] + SplitLines(s[k + 1..])
  }

  lemma SplitAfterLine(t: string, rest: string)
    requires '\n' !in t
    ensures SplitLines(t + "\n" + rest) == [t] + SplitLines(rest)
  {
    var s := t + "\n" + rest;
    var k := FirstNewline(s);
    assert s[|t|] == '\n';
    assert forall j :: 0 <= j < |t| ==> s[j] == t[j] && s[j] != '\n';
    assert k == |t|;
    assert s[..k] == t;
    assert s[k + 1..] == rest;
  }

  lemma RowSingleLine(d: Discrepancy)
    requires '\n' !in d.tenant && '\n' !in d.date && '\n' !in d.reason
    ensures '\n' !in Row(d)
  {
  }

  /** No field of a discrepancy contains a line feed. */
  predicate SingleLineFields(ds: seq<Discrepancy>) {
    forall k :: 0 <= k < |ds| ==>
      '\n' !in ds[k].tenant && '\n' !in ds[k].date && '\n' !in ds[k].reason
  }

  /** Splitting a concatenation of newline-terminated single-line items
      gives back the items, in order. */
  lemma {:induction false} SplitJoin(ds: seq<Discrepancy>, line: Discrepancy -> string, row: Discrepancy -> string)
    requires forall k :: 0 <= k < |ds| ==> line(ds[k]) == row(ds[k]) + "\n" && '\n' !in row(ds[k])
    ensures |SplitLines(Join(ds, line))| == |ds|
    ensures forall k :: 0 <= k < |ds| ==> SplitLines(Join(ds, line))[k] == row(ds[k])
    decreases |ds|
  {
    if ds != [] {
      var d, tail := ds[0], ds[1..];
      assert ds == [d] + tail;
      JoinCons(d, tail, line);
      assert line(d) == row(d) + "\n";
      SplitJoin(tail, line, row);
      SplitAfterLine(row(d), Join(tail, line));
      var split := SplitLines(Join(ds, line));
      assert split == [row(d)] + SplitLines(Join(tail, line));
      forall k | 0 <= k < |ds|
        ensures split[k] == row(ds[k])
      {
        if k > 0 {
          assert split[k] == SplitLines(Join(tail, line))[k - 1];
          assert ds[k] == tail[k - 1];
        }
      }
    }
  }

  /** Reading the appended lines back gives one line per discrepancy, in list
      order, provided no field itself breaks a line. */
  lemma SplitLinesOfLines(ds: seq<Discrepancy>)
    requires SingleLineFields(ds)
    ensures |SplitLines(Lines(ds))| == |ds|
    ensures forall k :: 0 <= k < |ds| ==> SplitLines(Lines(ds))[k] == Row(ds[k])
  {
    forall k | 0 <= k < |ds|
      ensures Line(ds[k]) == Row(ds[k]) + "\n" && '\n' !in Row(ds[k])
    {
      RowSingleLine(ds[k]);
    }
    SplitJoin(ds, Line, Row);
  }

  /** A title line and a blank line in front of a text split off as two lines. */
  lemma SplitTitleBlank(t: string, rest: string)
    requires '\n' !in t
    ensures SplitLines(t + "\n" + "\n" + rest) == [t, ""] + SplitLines(rest)
  {
    Regroup(t, rest);
    SplitAfterLine(t, "\n" + rest);
    SplitAfterLine("", rest);
  }

  lemma Regroup(t: string, rest: string)
    ensures t + "\n" + "\n" + rest == t + "\n" + ("\n" + rest)
    ensures "" + "\n" + rest == "\n" + rest
  {
  }

  lemma TitleSingleLine()
    ensures '\n' !in TITLE
  {
  }

  lemma SplitBody(ds: seq<Discrepancy>)
    ensures SplitLines(Body(ds)) == [TITLE, ""] + SplitLines(Lines(ds))
  {
    TitleSingleLine();
    SplitTitleBlank(TITLE, Lines(ds));
  }

  /** Body shape: the title line, a blank line, then exactly one
      `Tenant: …, Date: …, Reason: …` line per discrepancy in list order. */
  lemma BodyShape(ds: seq<Discrepancy>)
    requires SingleLineFields(ds)
    ensures |SplitLines(Body(ds))| == |ds| + 2
    ensures SplitLines(Body(ds))[0] == TITLE
    ensures SplitLines(Body(ds))[1] == ""
    ensures forall k :: 0 <= k < |ds| ==> SplitLines(Body(ds))[k + 2] == Row(ds[k])
  {
    SplitBody(ds);
    SplitLinesOfLines(ds);
    var split, rows := SplitLines(Body(ds)), SplitLines(Lines(ds));
    assert split == [TITLE, ""] + rows;
    assert forall k :: 0 <= k < |rows| ==> split[k + 2] == rows[k];
  }
}

/** `process_records`: one pass over the pending documents, validating each,
    collecting discrepancies, marking each completed, then reporting. */
module Pipeline {
  import opened Wrappers
  import opened Records
  import opened Validator
  import opened Report

  /** The endpoint's JSON reply `{"message": …, "errors_found": …}`. */
  datatype Response = Response(message: string, errorsFound: nat)

  const DONE: string := "Validation completed"

  /** The state threaded through the loop: the store as updated so far and the
      discrepancies collected so far. */
  datatype LoopState = LoopState(store: Store, found: seq<Discrepancy>)

  /** Everything a run produces: the final store, the collected list, the
      message handed to the mail transport (if any) and the reply. */
  datatype Outcome = Outcome(
    store: Store,
    discrepancies: seq<Discrepancy>,
    email: Option<Message>,
    response: Response)

  /** One loop iteration: validate the record the cursor yielded, append any
      discrepancy, then mark the document completed whatever the outcome. */
  function Step(classify: Classifier, snapshot: Store, st: LoopState, id: Id): LoopState
    requires id in snapshot && id in st.store
  {
    var d := Validate(classify, id, snapshot[id]);
    LoopState(MarkCompleted(st.store, id), if d.Some? then st.found + [d.value] else st.found)
  }

  /** The loop over the snapshot, from the first identifier to the last. */
  function Loop(classify: Classifier, snapshot: Store, ids: seq<Id>): (st: LoopState)
    requires AllIn(ids, snapshot)
    ensures st.store.Keys == snapshot.Keys
    ensures |st.found| <= |ids|
    decreases |ids|
  {
    if ids == [] then LoopState(snapshot, [])
    else Step(classify, snapshot, Loop(classify, snapshot, ids[..|ids| - 1]), ids[|ids| - 1])
  }

  /** The identifiers among `ids` whose record the classifier rejects. */
  function RejectedAmong(classify: Classifier, snapshot: Store, ids: seq<Id>): set<Id> {
    set id | id in ids && id in snapshot && classify(id, snapshot[id]) == REJECT
  }

  /** The pending documents of a store whose record the classifier rejects. */
  function RejectedPending(classify: Classifier, store: Store): set<Id> {
    set id | id in store && store[id].IsPending() && classify(id, store[id]) == REJECT
  }

  /** `found` is the order-preserving selection, through the increasing
      positions `pos`, of the reports of exactly those records in `ids` that the
      classifier rejects. */
  ghost predicate Selects(classify: Classifier, snapshot: Store, ids: seq<Id>, found: seq<Discrepancy>, pos: seq<int>)
    requires AllIn(ids, snapshot)
  {
    && |pos| == |found|
    && (forall k :: 0 <= k < |pos| ==> 0 <= pos[k] < |ids|)
    && (forall k, l :: 0 <= k < l < |pos| ==> pos[k] < pos[l])
    && (forall k :: 0 <= k < |pos| ==>
          classify(ids[pos[k]], snapshot[ids[pos[k]]]) == REJECT && found[k] == ReportOf(snapshot[ids[pos[k]]]))
    && (forall i :: 0 <= i < |ids| && classify(ids[i], snapshot[ids[i]]) == REJECT ==> i in pos)
  }

  /** Status transition and frame: every document the loop visited ends
      completed with all other fields as before; every other document is
      untouched. */
  lemma {:induction false} LoopStatuses(classify: Classifier, snapshot: Store, ids: seq<Id>)
    requires AllIn(ids, snapshot)
    ensures forall id :: id in snapshot && id in ids ==>
      Loop(classify, snapshot, ids).store[id] == snapshot[id].(status := COMPLETED)
    ensures forall id :: id in snapshot && id !in ids ==>
      Loop(classify, snapshot, ids).store[id] == snapshot[id]
    decreases |ids|
  {
    if ids != [] {
      var front, last := ids[..|ids| - 1], ids[|ids| - 1];
      assert ids == front + [last];
      LoopStatuses(classify, snapshot, front);
    }
  }

  /** Appending the report of a rejected last record keeps the selection
      exact, with the last position added. */
  lemma SelectsExtend(classify: Classifier, snapshot: Store, ids: seq<Id>, prev: seq<Discrepancy>, pos: seq<int>)
    requires |ids| > 0 && AllIn(ids, snapshot)
    requires Selects(classify, snapshot, ids[..|ids| - 1], prev, pos)
    requires classify(ids[|ids| - 1], snapshot[ids[|ids| - 1]]) == REJECT
    ensures Selects(classify, snapshot, ids, prev + [ReportOf(snapshot[ids[|ids| - 1]])], pos + [|ids| - 1])
  {
  }

  /** Skipping a last record the classifier does not reject keeps the
      selection exact. */
  lemma SelectsSkip(classify: Classifier, snapshot: Store, ids: seq<Id>, prev: seq<Discrepancy>, pos: seq<int>)
    requires |ids| > 0 && AllIn(ids, snapshot)
    requires Selects(classify, snapshot, ids[..|ids| - 1], prev, pos)
    requires classify(ids[|ids| - 1], snapshot[ids[|ids| - 1]]) != REJECT
    ensures Selects(classify, snapshot, ids, prev, pos)
  {
  }

  /** The collected list is the in-order selection of the reports of the
      rejected records. */
  lemma {:induction false} LoopSelects(classify: Classifier, snapshot: Store, ids: seq<Id>)
    requires AllIn(ids, snapshot)
    ensures exists pos :: Selects(classify, snapshot, ids, Loop(classify, snapshot, ids).found, pos)
    decreases |ids|
  {
    if ids == [] {
      assert Loop(classify, snapshot, ids).found == [];
      assert Selects(classify, snapshot, ids, [], []);
    } else {
      var n := |ids| - 1;
      var front := ids[..n];
      LoopSelects(classify, snapshot, front);
      var prev := Loop(classify, snapshot, front).found;
      var pos :| Selects(classify, snapshot, front, prev, pos);
      if classify(ids[n], snapshot[ids[n]]) == REJECT {
        SelectsExtend(classify, snapshot, ids, prev, pos);
        assert Selects(classify, snapshot, ids, Loop(classify, snapshot, ids).found, pos + [n]);
      } else {
        SelectsSkip(classify, snapshot, ids, prev, pos);
        assert Selects(classify, snapshot, ids, Loop(classify, snapshot, ids).found, pos);
      }
    }
  }

  /** Count correspondence: over distinct identifiers, the list has one entry
      per rejected record. */
  lemma {:induction false} LoopCount(classify: Classifier, snapshot: Store, ids: seq<Id>)
    requires AllIn(ids, snapshot) && Distinct(ids)
    ensures |Loop(classify, snapshot, ids).found| == |RejectedAmong(classify, snapshot, ids)|
    decreases |ids|
  {
    if ids == [] {
      assert RejectedAmong(classify, snapshot, ids) == {};
    } else {
      var n := |ids| - 1;
      var front, last := ids[..n], ids[n];
      assert ids == front + [last];
      assert last !in front by {
        forall i | 0 <= i < n ensures front[i] != last {
          assert front[i] == ids[i];
        }
      }
      LoopCount(classify, snapshot, front);
      var before := RejectedAmong(classify, snapshot, front);
      if classify(last, snapshot[last]) == REJECT {
        assert RejectedAmong(classify, snapshot, ids) == before + {last};
      } else {
        assert RejectedAmong(classify, snapshot, ids) == before;
      }
    }
  }

  lemma SnapshotRejected(classify: Classifier, store: Store, ids: seq<Id>)
    requires IsPendingSnapshot(store, ids)
    ensures RejectedAmong(classify, store, ids) == RejectedPending(classify, store)
  {
    forall id | id in RejectedAmong(classify, store, ids)
      ensures id in RejectedPending(classify, store)
    {
      var i :| 0 <= i < |ids| && ids[i] == id;
    }
    forall id | id in RejectedPending(classify, store)
      ensures id in RejectedAmong(classify, store, ids)
    {
      assert id in store && store[id].IsPending();
    }
  }

  /** After the snapshot's documents are completed, nothing is pending. */
  lemma NothingLeftPending(store: Store, ids: seq<Id>, after: Store)
    requires IsPendingSnapshot(store, ids)
    requires after.Keys == store.Keys
    requires forall id :: id in store && id in ids ==> after[id] == store[id].(status := COMPLETED)
    requires forall id :: id in store && id !in ids ==> after[id] == store[id]
    ensures PendingIds(after) == {}
  {
    forall id | id in after
      ensures !after[id].IsPending()
    {
      if id !in ids {
        assert !store[id].IsPending();
      }
    }
  }

  /** `process_records` with the pending query already answered by `ids`. */
  function ProcessRecords(classify: Classifier, cfg: MailConfig, store: Store, ids: seq<Id>): (o: Outcome)
    requires IsPendingSnapshot(store, ids)
    ensures o.store.Keys == store.Keys
    ensures forall id :: id in store && store[id].IsPending() ==>
      o.store[id] == store[id].(status := COMPLETED)
    ensures forall id :: id in store && !store[id].IsPending() ==> o.store[id] == store[id]
    ensures PendingIds(o.store) == {}
    ensures o.response == Response(DONE, |o.discrepancies|)
    ensures |o.discrepancies| == |RejectedPending(classify, store)|
    ensures exists pos :: Selects(classify, store, ids, o.discrepancies, pos)
    ensures o.email.Some? <==> |o.discrepancies| > 0
    ensures o.email == Compose(cfg, o.discrepancies)
  {
    var st := Loop(classify, store, ids);
    LoopStatuses(classify, store, ids);
    LoopSelects(classify, store, ids);
    LoopCount(classify, store, ids);
    SnapshotRejected(classify, store, ids);
    NothingLeftPending(store, ids, st.store);
    Outcome(st.store, st.found, Compose(cfg, st.found), Response(DONE, |st.found|))
  }

  /** Idempotence: once a run has completed every pending document, a second
      run's query returns nothing, so it changes nothing, finds nothing and
      sends nothing. */
  lemma SecondRunIsQuiet(classify: Classifier, cfg: MailConfig, store: Store, ids: seq<Id>, again: seq<Id>)
    requires IsPendingSnapshot(store, ids)
    requires IsPendingSnapshot(ProcessRecords(classify, cfg, store, ids).store, again)
    ensures again == []
    ensures var first := ProcessRecords(classify, cfg, store, ids);
      var second := ProcessRecords(classify, cfg, first.store, again);
      && second.store == first.store
      && second.discrepancies == []
      && second.email == None
      && second.response == Response(DONE, 0)
  {
  }

  /** The classifier answers "false" exactly for the pending records that
      break the rule. */
  ghost predicate FaithfulOnPending(classify: Classifier, store: Store) {
    forall id :: id in store && store[id].IsPending() ==>
      (classify(id, store[id]) == REJECT <==> !store[id].Consistent())
  }

  function InconsistentPending(store: Store): set<Id> {
    set id | id in store && store[id].IsPending() && !store[id].Consistent()
  }

  lemma FaithfulRejectsInconsistent(classify: Classifier, store: Store)
    requires FaithfulOnPending(classify, store)
    ensures RejectedPending(classify, store) == InconsistentPending(store)
  {
    forall id | id in InconsistentPending(store)
      ensures id in RejectedPending(classify, store)
    {
      assert classify(id, store[id]) == REJECT;
    }
    forall id | id in RejectedPending(classify, store)
      ensures id in InconsistentPending(store)
    {
      assert !store[id].Consistent();
    }
  }

  lemma SelectedAreInconsistent(classify: Classifier, store: Store, ids: seq<Id>, found: seq<Discrepancy>, pos: seq<int>)
    requires IsPendingSnapshot(store, ids) && FaithfulOnPending(classify, store)
    requires Selects(classify, store, ids, found, pos)
    ensures forall d :: d in found ==>
      exists id :: id in InconsistentPending(store) && d == ReportOf(store[id])
  {
    forall d | d in found
      ensures exists id :: id in InconsistentPending(store) && d == ReportOf(store[id])
    {
      var k :| 0 <= k < |found| && found[k] == d;
      var id := ids[pos[k]];
      assert id in store && store[id].IsPending();
      assert id in InconsistentPending(store);
    }
  }

  lemma InconsistentAreSelected(classify: Classifier, store: Store, ids: seq<Id>, found: seq<Discrepancy>, pos: seq<int>)
    requires IsPendingSnapshot(store, ids) && FaithfulOnPending(classify, store)
    requires Selects(classify, store, ids, found, pos)
    ensures forall id :: id in InconsistentPending(store) ==> ReportOf(store[id]) in found
  {
  }

  /** Under the assumption that the classifier answers "false" exactly for the
      pending records that break the rule, the run reports exactly the
      inconsistent pending records, one entry each. This is an assumption
      about the external service, not behaviour of the code. */
  lemma FaithfulClassifierRun(classify: Classifier, cfg: MailConfig, store: Store, ids: seq<Id>)
    requires IsPendingSnapshot(store, ids)
    requires FaithfulOnPending(classify, store)
    ensures var o := ProcessRecords(classify, cfg, store, ids);
      && |o.discrepancies| == |InconsistentPending(store)|
      && (forall id :: id in InconsistentPending(store) ==> ReportOf(store[id]) in o.discrepancies)
      && (forall d :: d in o.discrepancies ==>
            exists id :: id in InconsistentPending(store) && d == ReportOf(store[id]))
  {
    var o := ProcessRecords(classify, cfg, store, ids);
    FaithfulRejectsInconsistent(classify, store);
    var pos :| Selects(classify, store, ids, o.discrepancies, pos);
    SelectedAreInconsistent(classify, store, ids, o.discrepancies, pos);
    InconsistentAreSelected(classify, store, ids, o.discrepancies, pos);
  }

  // A worked example: two pending records of one tenant, one consistent
  // (10 new accounts at 5 points, 50 reported) and one not (60 reported).

  const CONSISTENT_RECORD := Record("Acme", "2024-01-01", 10, 5, 50, PENDING)
  const INCONSISTENT_RECORD := Record("Acme", "2024-01-02", 10, 5, 60, PENDING)

  /** A classifier stand-in that applies the rule and replies as instructed. */
  function ApplyRule(id: Id, r: Record): string {
    if r.Consistent() then "true" else "false"
  }

  lemma ScenarioLoop()
    ensures Loop(ApplyRule, map[1 := CONSISTENT_RECORD, 2 := INCONSISTENT_RECORD], [1, 2]).found
      == [Discrepancy("Acme", "2024-01-02", FAILED)]
  {
  }

  // ScenarioRowStart, ScenarioRowMiddle and ScenarioRowEnd only split the
  // literal concatenation of ScenarioRow into steps cheap for the solver.

  lemma ScenarioRowStart()
    ensures "Tenant: " + "Acme" + ", Date: " == "Tenant: Acme, Date: "
  {
  }

  lemma ScenarioRowMiddle()
    ensures "Tenant: Acme, Date: " + "2024-01-02" + ", Reason: " == "Tenant: Acme, Date: 2024-01-02, Reason: "
  {
  }

  lemma ScenarioRowEnd()
    ensures "Tenant: Acme, Date: 2024-01-02, Reason: " + "Validation failed"
      == "Tenant: Acme, Date: 2024-01-02, Reason: Validation failed"
  {
  }

  lemma ScenarioRow()
    ensures Row(Discrepancy("Acme", "2024-01-02", FAILED))
      == "Tenant: Acme, Date: 2024-01-02, Reason: Validation failed"
  {
    ScenarioRowStart();
    ScenarioRowMiddle();
    ScenarioRowEnd();
  }

  lemma ScenarioLine()
    ensures Line(Discrepancy("Acme", "2024-01-02", FAILED))
      == "Tenant: Acme, Date: 2024-01-02, Reason: Validation failed\n"
  {
    ScenarioRow();
    assert "Tenant: Acme, Date: 2024-01-02, Reason: Validation failed" + "\n"
      == "Tenant: Acme, Date: 2024-01-02, Reason: Validation failed\n";
  }

  /** The run over the two records reports one discrepancy and mails a body
      with exactly that one line. */
  lemma OneOfTwoInconsistent()
    ensures
      var cfg := MailConfig("from@example.com", "to@example.com");
      var o := ProcessRecords(ApplyRule, cfg, map[1 := CONSISTENT_RECORD, 2 := INCONSISTENT_RECORD], [1, 2]);
      && o.response == Response(DONE, 1)
      && o.discrepancies == [Discrepancy("Acme", "2024-01-02", FAILED)]
      && o.email.Some?
      && o.email.value.body == HEADER + "Tenant: Acme, Date: 2024-01-02, Reason: Validation failed\n"
  {
    var store := map[1 := CONSISTENT_RECORD, 2 := INCONSISTENT_RECORD];
    assert IsPendingSnapshot(store, [1, 2]);
    ScenarioLoop();
    LinesSingle(Discrepancy("Acme", "2024-01-02", FAILED));
    ScenarioLine();
  }

  /** A service that rejects the first call and accepts every later one. */
  function RejectFirstCall(id: Id, r: Record): string {
    if id == 1 then "false" else "true"
  }

  /** Two documents with equal fields are two separate service calls: one may
      be rejected and the other accepted, and the run then reports one. */
  lemma DuplicateDocumentsJudgedSeparately()
    ensures
      var cfg := MailConfig("from@example.com", "to@example.com");
      var o := ProcessRecords(RejectFirstCall, cfg, map[1 := INCONSISTENT_RECORD, 2 := INCONSISTENT_RECORD], [1, 2]);
      && o.response == Response(DONE, 1)
      && o.discrepancies == [ReportOf(INCONSISTENT_RECORD)]
  {
    var store := map[1 := INCONSISTENT_RECORD, 2 := INCONSISTENT_RECORD];
    var ids: seq<Id> := [1, 2];
    assert IsPendingSnapshot(store, ids);
    assert ids[..1] == [1] && ids[..1][..0] == [];
  }
}

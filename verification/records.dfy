/** The record store the pipeline reads and updates: a collection of documents
    keyed by an opaque identifier, each carrying a textual `status`. */
module Records {

  /** The store-assigned document identifier (`_id`); only its identity matters. */
  type Id = int

  /** The status values the pipeline selects on and writes. Any other text may
      sit in a document's `status` and is simply never selected. */
  const PENDING: string := "pending"
  const COMPLETED: string := "completed"

  /** One reporting unit. The fields are those the validator reads; a document
      lacking one of them would raise a lookup error in `validate_record`, which this
      model excludes by construction. */
  datatype Record = Record(
    tenantName: string,
    date: string,
    newAccounts: int,
    accountPoints: int,
    totalAccountPoints: int,
    status: string)
  {
    /** Matched by the store query `{"status": "pending"}`. */
    predicate IsPending() {
      status == PENDING
    }

    /** The arithmetic rule the classifier is asked to check. `main.py` never
        evaluates it; it only appears in the prompt. */
    predicate Consistent() {
      totalAccountPoints == newAccounts * accountPoints
    }
  }

  type Store = map<Id, Record>

  predicate Distinct(ids: seq<Id>) {
    forall i, j :: 0 <= i < j < |ids| ==> ids[i] != ids[j]
  }

  predicate AllIn(ids: seq<Id>, store: Store) {
    forall i :: 0 <= i < |ids| ==> ids[i] in store
  }

  /** What the pending query hands back: every pending document exactly once,
      nothing else, in an order of the store's choosing. */
  predicate IsPendingSnapshot(store: Store, ids: seq<Id>) {
    && Distinct(ids)
    && (forall i :: 0 <= i < |ids| ==> ids[i] in store && store[ids[i]].IsPending())
    && (forall id :: id in store && store[id].IsPending() ==> id in ids)
  }

  /** The identifiers of all pending documents. */
  function PendingIds(store: Store): set<Id> {
    set id | id in store && store[id].IsPending()
  }

  /** `update_one({"_id": id}, {"$set": {"status": "completed"}})`: overwrite
      the one document's status, whatever it was, and touch nothing else. */
  function MarkCompleted(store: Store, id: Id): (updated: Store)
    requires id in store
    ensures updated.Keys == store.Keys
    ensures updated[id].status == COMPLETED
    ensures updated[id] == store[id].(status := updated[id].status)
    ensures forall other :: other in store && other != id ==> updated[other] == store[other]
  {
    store[id := store[id].(status := COMPLETED)]
  }
}

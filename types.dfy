/**
 * The journal's value types: one entry, and the state tuple the store keeps
 * and writes to storage. Timestamps are milliseconds since the epoch.
 */
module JournalTypes {

  datatype Option<+T> = None | Some(value: T)

  /** JavaScript truthiness of a `string | null`: null and "" are both falsy. */
  predicate Truthy(s: Option<string>) {
    s.Some? && s.value != []
  }

  /** `s || fallback` for a `string | null`. */
  function OrElse(s: Option<string>, fallback: string): string {
    if Truthy(s) then s.value else fallback
  }

  datatype AnomalyType = NoAnomaly | Future | AlteredPast | ParallelBranch

  /** One journal note, authored or derived by an anomaly. */
  datatype Entry = Entry(
    id: string,
    createdAt: int,
    apparentTime: int,
    content: string,
    originalContent: string,
    anomalyType: AnomalyType,
    parentId: Option<string>,
    branchId: Option<string>,
    version: int,
    isRewritten: bool)

  /** The anomaly intensity levels 0 | 1 | 2 | 3. */
  type Intensity = i: int | 0 <= i <= 3

  /** The store's data fields, which are also what is written to storage. */
  datatype Snapshot = Snapshot(
    entries: seq<Entry>,
    selectedEntryId: Option<string>,
    anomalyIntensity: Intensity,
    lastAnomalyAt: Option<int>)

  /** Every id and every branch id in use. */
  function UsedIds(entries: seq<Entry>): (ids: set<string>)
    ensures forall i | 0 <= i < |entries| :: entries[i].id in ids
    ensures forall i | 0 <= i < |entries| && entries[i].branchId.Some? :: entries[i].branchId.value in ids
  {
    (set i | 0 <= i < |entries| :: entries[i].id)
    + (set i | 0 <= i < |entries| && entries[i].branchId.Some? :: entries[i].branchId.value)
  }

  /** What `generateId` is trusted to return: a non-empty id not yet in use. */
  predicate FreshId(id: string, entries: seq<Entry>) {
    id != [] && id !in UsedIds(entries)
  }

  /** Ids are pairwise distinct and every version is at least 1. */
  predicate WellFormed(entries: seq<Entry>) {
    && (forall i, j | 0 <= i < j < |entries| :: entries[i].id != entries[j].id)
    && (forall i | 0 <= i < |entries| :: entries[i].version >= 1)
  }

  /** Appending an entry with a fresh id and a positive version keeps the collection well formed. */
  lemma AppendWellFormed(entries: seq<Entry>, e: Entry)
    requires WellFormed(entries) && FreshId(e.id, entries) && e.version >= 1
    ensures WellFormed(entries + [e])
  {
  }
}

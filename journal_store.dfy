/**
 * The journal entry store: the entries, the selected entry, the anomaly
 * intensity and the instant of the last anomaly, changed by six actions, each
 * of which, unless it returns early, writes the whole state to storage.
 *
 * The clock, `generateId` and `Math.random()` are parameters of the actions:
 * `now` is the current instant in milliseconds (`echoNow` the later reading
 * a future echo takes for its apparent time), ids come from a fresh-id
 * oracle, and the random draws are the `pick`, `offset` and `TextDraws`
 * arguments. The storage slot is the ghost field `persisted`.
 */
module JournalStore {
  import opened Strings
  import opened JournalTypes
  import opened Temporal

  const DayMs: int := 24 * 60 * 60 * 1000

  const FirstSampleText: string :=
    "I found this journal in the attic. The pages feel... wrong. Like they're watching me."
  const SecondSampleText: string :=
    "The dates don't make sense. Some entries are from tomorrow. How is that possible?"

  const DefaultIntensity: Intensity := 2

  /** The hour bounds a future echo's apparent time is drawn from. */
  const EchoMinHours: int := 1
  const EchoMaxHours: int := 168

  // ---------------------------------------------------------------------------
  // Seeding and start-up
  // ---------------------------------------------------------------------------

  /** An authored first version: the sample entries and the entry `addEntry` creates. */
  function AuthoredEntry(id: string, at: int, text: string): Entry {
    Entry(id, at, at, text, text, NoAnomaly, None, None, 1, false)
  }

  /**
   * `createSampleEntries`: two authored, unrewritten first versions, the first
   * dated one day before the second, which is dated now.
   */
  function SampleEntries(now: int, id1: string, id2: string): (r: seq<Entry>)
    ensures |r| == 2 && r[0].id == id1 && r[1].id == id2
    ensures forall i | 0 <= i < 2 ::
      && r[i].anomalyType == NoAnomaly && r[i].version == 1 && !r[i].isRewritten
      && r[i].parentId == None && r[i].branchId == None
      && r[i].content == r[i].originalContent && r[i].apparentTime == r[i].createdAt
    ensures r[0].createdAt == now - DayMs && r[1].createdAt == now
    ensures r[0].content == FirstSampleText && r[1].content == SecondSampleText
    ensures id1 != id2 ==> WellFormed(r)
  {
    [AuthoredEntry(id1, now - DayMs, FirstSampleText), AuthoredEntry(id2, now, SecondSampleText)]
  }

  /** The seeded state: the samples, the first selected, intensity 2 and no anomaly yet. */
  function SeedState(now: int, id1: string, id2: string): (s: Snapshot)
    ensures s.entries == SampleEntries(now, id1, id2)
    ensures id1 != [] ==> s.selectedEntryId == Some(s.entries[0].id)
    ensures s.anomalyIntensity == 2 && s.lastAnomalyAt == None
  {
    var samples := SampleEntries(now, id1, id2);
    Snapshot(samples, if Truthy(Some(samples[0].id)) then Some(samples[0].id) else None, DefaultIntensity, None)
  }

  /**
   * `loadInitialState`: a stored snapshot is adopted as it is when it holds at
   * least one entry; otherwise the journal is seeded. Either way the journal
   * starts with at least one entry.
   */
  function LoadInitialState(stored: Option<Snapshot>, now: int, id1: string, id2: string): (s: Snapshot)
    ensures stored.Some? && |stored.value.entries| > 0 ==> s == stored.value
    ensures !(stored.Some? && |stored.value.entries| > 0) ==> s == SeedState(now, id1, id2)
    ensures |s.entries| > 0
  {
    if stored.Some? && |stored.value.entries| > 0 then stored.value
    else SeedState(now, id1, id2)
  }

  // ---------------------------------------------------------------------------
  // Building entries
  // ---------------------------------------------------------------------------

  /** `entries.find(e => e.id === id)`: the first entry with that id, if any. */
  function FindById(entries: seq<Entry>, id: string): (r: Option<Entry>)
    ensures r.None? <==> forall i | 0 <= i < |entries| :: entries[i].id != id
    ensures r.Some? ==> r.value.id == id && r.value in entries
    ensures r.Some? ==> exists i | 0 <= i < |entries| ::
      entries[i] == r.value && forall j | 0 <= j < i :: entries[j].id != id
  {
    if entries == [] then None
    else if entries[0].id == id then Some(entries[0])
    else
      var r := FindById(entries[1..], id);
      assert forall i | 0 < i < |entries| :: entries[i] == entries[1..][i - 1];
      r
  }

  /**
   * The entry an anomaly starts from, or nothing when the anomaly does not
   * happen: the journal is empty, or a selection names no entry (the altered
   * past ignores the selection). A future echo takes the selected entry or the
   * drawn one, the altered past the oldest, a branch the selected or the last.
   */
  function SourceEntry(entries: seq<Entry>, selected: Option<string>, mode: AnomalyMode, pick: nat): (r: Option<Entry>)
    requires |entries| == 0 || pick < |entries|
    ensures r.None? <==>
      |entries| == 0
      || (mode != AlterPast && Truthy(selected) && forall i | 0 <= i < |entries| :: entries[i].id != selected.value)
    ensures r.Some? ==> r.value in entries
    ensures r.Some? && mode != AlterPast && Truthy(selected) ==> r.value.id == selected.value
    ensures mode == AlterPast && |entries| > 0 ==> r == Some(entries[OldestIndex(entries)])
    ensures mode == BranchTimeline && !Truthy(selected) && |entries| > 0 ==> r == Some(entries[|entries| - 1])
  {
    if |entries| == 0 then None
    else
      match mode
      case FutureEcho =>
        if Truthy(selected) then FindById(entries, selected.value) else RandomEntry(entries, pick)
      case AlterPast => OldestEntry(entries)
      case BranchTimeline =>
        if Truthy(selected) then FindById(entries, selected.value) else Some(entries[|entries| - 1])
  }

  /**
   * The entry an anomaly derives from `src`. All three keep the source's text
   * as `originalContent` and are created at `now`. A future echo claims a time
   * 1 to 168 hours after `echoNow`, the clock as `getRandomFutureISODate`
   * reads it again, and is the source's next version; an altered past claims
   * the source's own time, is its next version, rewrites history and hangs off
   * the source's parent (the source itself when it has none); a branch is a
   * first version in a branch of its own, hanging off the source.
   */
  function DeriveEntry(src: Entry, mode: AnomalyMode, d: TextDraws, now: int, echoNow: int,
                       newId: string, branchId: string, offset: int): (e: Entry)
    requires OffsetInRange(EchoMinHours, EchoMaxHours, offset)
    ensures e.id == newId && e.createdAt == now && e.originalContent == src.content
    ensures e.content == DistortText(src.content, mode, d)
    ensures mode == FutureEcho ==>
      && e.anomalyType == Future && e.parentId == Some(src.id) && e.branchId == None
      && e.version == src.version + 1 && !e.isRewritten
      && echoNow + HourMs <= e.apparentTime <= echoNow + 168 * HourMs
      && (echoNow >= now ==> e.apparentTime > e.createdAt)
    ensures mode == AlterPast ==>
      && e.anomalyType == AlteredPast && e.parentId == Some(OrElse(src.parentId, src.id)) && e.branchId == None
      && e.version == src.version + 1 && e.isRewritten
      && e.apparentTime == src.apparentTime
    ensures mode == BranchTimeline ==>
      && e.anomalyType == ParallelBranch && e.parentId == Some(src.id) && e.branchId == Some(branchId)
      && e.version == 1 && !e.isRewritten
      && e.apparentTime == now
  {
    var text := DistortText(src.content, mode, d);
    match mode
    case FutureEcho =>
      Entry(newId, now, RandomFutureTime(echoNow, EchoMinHours, EchoMaxHours, offset), text, src.content,
            Future, Some(src.id), None, src.version + 1, false)
    case AlterPast =>
      Entry(newId, now, src.apparentTime, text, src.content,
            AlteredPast, Some(OrElse(src.parentId, src.id)), None, src.version + 1, true)
    case BranchTimeline =>
      Entry(newId, now, now, text, src.content,
            ParallelBranch, Some(src.id), Some(branchId), 1, false)
  }

  /** The entry `applyTimeAnomaly` appends to state `s`, or nothing when it is a no-op. */
  function Derived(s: Snapshot, mode: AnomalyMode, d: TextDraws, now: int, echoNow: int, newId: string,
                   branchId: string, offset: int, pick: nat): Option<Entry>
    requires OffsetInRange(EchoMinHours, EchoMaxHours, offset)
    requires |s.entries| == 0 || pick < |s.entries|
  {
    var src := SourceEntry(s.entries, s.selectedEntryId, mode, pick);
    if src.None? then None else Some(DeriveEntry(src.value, mode, d, now, echoNow, newId, branchId, offset))
  }

  // ---------------------------------------------------------------------------
  // Properties of anomalies
  // ---------------------------------------------------------------------------

  /**
   * An anomaly keeps the collection well formed when its id is fresh, and a
   * branch's id names no existing entry or branch.
   */
  lemma AnomalyKeepsWellFormed(s: Snapshot, mode: AnomalyMode, d: TextDraws, now: int, echoNow: int,
                               newId: string, branchId: string, offset: int, pick: nat)
    requires OffsetInRange(EchoMinHours, EchoMaxHours, offset)
    requires |s.entries| == 0 || pick < |s.entries|
    requires WellFormed(s.entries) && FreshId(newId, s.entries) && FreshId(branchId, s.entries)
    requires Derived(s, mode, d, now, echoNow, newId, branchId, offset, pick).Some?
    ensures var e := Derived(s, mode, d, now, echoNow, newId, branchId, offset, pick).value;
      && WellFormed(s.entries + [e])
      && (mode == BranchTimeline ==>
            forall i | 0 <= i < |s.entries| :: s.entries[i].branchId != e.branchId && s.entries[i].id != branchId)
  {
  }

  /** The altered past does not depend on the selection. */
  lemma AlterPastIgnoresSelection(s: Snapshot, other: Option<string>, d: TextDraws, now: int, echoNow: int,
                                  newId: string, branchId: string, offset: int, pick: nat)
    requires OffsetInRange(EchoMinHours, EchoMaxHours, offset)
    requires |s.entries| == 0 || pick < |s.entries|
    ensures Derived(s, AlterPast, d, now, echoNow, newId, branchId, offset, pick)
         == Derived(s.(selectedEntryId := other), AlterPast, d, now, echoNow, newId, branchId, offset, pick)
  {
  }

  /**
   * Rewriting the past twice, on a clock that does not go back, rewrites the
   * same entry both times: the second rewrite has the same parent, version,
   * apparent time and original text as the first.
   */
  lemma RepeatedAlterPastRewritesSameEntry(s: Snapshot, d1: TextDraws, d2: TextDraws, now1: int, now2: int,
                                           id1: string, id2: string, b1: string, b2: string,
                                           offset: int, pick1: nat, pick2: nat)
    requires OffsetInRange(EchoMinHours, EchoMaxHours, offset)
    requires |s.entries| > 0 && pick1 < |s.entries| && pick2 < |s.entries| + 1
    requires forall i | 0 <= i < |s.entries| :: s.entries[i].createdAt <= now1
    ensures var e1 := Derived(s, AlterPast, d1, now1, now1, id1, b1, offset, pick1);
      var s1 := s.(entries := s.entries + [e1.value]);
      var e2 := Derived(s1, AlterPast, d2, now2, now2, id2, b2, offset, pick2);
      && e1.Some? && e2.Some?
      && e2.value.parentId == e1.value.parentId
      && e2.value.version == e1.value.version
      && e2.value.apparentTime == e1.value.apparentTime
      && e2.value.originalContent == e1.value.originalContent
  {
    var e1 := Derived(s, AlterPast, d1, now1, now1, id1, b1, offset, pick1).value;
    OldestStableUnderAppend(s.entries, e1);
    var o := OldestIndex(s.entries);
    assert (s.entries + [e1])[o] == s.entries[o];
  }

  // ---------------------------------------------------------------------------
  // The store
  // ---------------------------------------------------------------------------

  class Store {
    var entries: seq<Entry>
    var selectedEntryId: Option<string>
    var anomalyIntensity: Intensity
    var lastAnomalyAt: Option<int>

    /** The storage slot: the last snapshot written, or nothing. */
    ghost var persisted: Option<Snapshot>

    function Snap(): Snapshot
      reads this
    {
      Snapshot(entries, selectedEntryId, anomalyIntensity, lastAnomalyAt)
    }

    /** Storage holds exactly the current state. */
    ghost predicate Saved()
      reads this
    {
      persisted == Some(Snap())
    }

    /**
     * Start-up: `stored` is what `storage.load()` returned (nothing when the
     * slot is empty or unreadable). Nothing is written at start-up.
     */
    constructor (stored: Option<Snapshot>, now: int, id1: string, id2: string)
      requires id1 != [] && id2 != [] && id1 != id2
      ensures Snap() == LoadInitialState(stored, now, id1, id2)
      ensures |entries| > 0
      ensures persisted == stored
      ensures !(stored.Some? && |stored.value.entries| > 0) ==> WellFormed(entries)
    {
      var init := LoadInitialState(stored, now, id1, id2);
      entries := init.entries;
      selectedEntryId := init.selectedEntryId;
      anomalyIntensity := init.anomalyIntensity;
      lastAnomalyAt := init.lastAnomalyAt;
      persisted := stored;
    }

    /**
     * `addEntry`: blank text changes nothing and writes nothing; otherwise the
     * trimmed text is appended as a new authored entry, which becomes selected.
     */
    method AddEntry(content: string, now: int, newId: string)
      requires FreshId(newId, entries)
      modifies this
      ensures var text := Trim(content);
        if text == [] then Snap() == old(Snap()) && persisted == old(persisted)
        else
          && entries == old(entries) + [AuthoredEntry(newId, now, text)]
          && selectedEntryId == Some(newId)
          && anomalyIntensity == old(anomalyIntensity) && lastAnomalyAt == old(lastAnomalyAt)
          && Saved()
      ensures old(WellFormed(entries)) ==> WellFormed(entries)
    {
      var text := Trim(content);
      if text == [] {
        return;
      }
      var e := AuthoredEntry(newId, now, text);
      if WellFormed(entries) {
        AppendWellFormed(entries, e);
      }
      entries := entries + [e];
      selectedEntryId := Some(e.id);
      persisted := Some(Snap());
    }

    /**
     * `updateEntry`: every entry with the given id gets the trimmed text (which
     * may be empty) as its content; nothing else changes, and an unknown id
     * leaves the entries as they were. The state is written either way.
     */
    method UpdateEntry(id: string, content: string)
      modifies this
      ensures |entries| == |old(entries)|
      ensures forall i | 0 <= i < |entries| ::
        entries[i] == if old(entries)[i].id == id then old(entries)[i].(content := Trim(content)) else old(entries)[i]
      ensures (forall i | 0 <= i < |old(entries)| :: old(entries)[i].id != id) ==> entries == old(entries)
      ensures selectedEntryId == old(selectedEntryId) && anomalyIntensity == old(anomalyIntensity)
      ensures lastAnomalyAt == old(lastAnomalyAt)
      ensures old(WellFormed(entries)) ==> WellFormed(entries)
      ensures Saved()
    {
      var text := Trim(content);
      entries := seq(|entries|, i requires 0 <= i < |entries| reads this =>
        if entries[i].id == id then entries[i].(content := text) else entries[i]);
      persisted := Some(Snap());
    }

    /** `selectEntry`: any id, or none, is taken as it is. */
    method SelectEntry(id: Option<string>)
      modifies this
      ensures selectedEntryId == id
      ensures entries == old(entries) && anomalyIntensity == old(anomalyIntensity) && lastAnomalyAt == old(lastAnomalyAt)
      ensures Saved()
    {
      selectedEntryId := id;
      persisted := Some(Snap());
    }

    /** `setAnomalyIntensity`. */
    method SetAnomalyIntensity(level: Intensity)
      modifies this
      ensures anomalyIntensity == level
      ensures entries == old(entries) && selectedEntryId == old(selectedEntryId) && lastAnomalyAt == old(lastAnomalyAt)
      ensures Saved()
    {
      anomalyIntensity := level;
      persisted := Some(Snap());
    }

    /**
     * `applyTimeAnomaly`: when a source entry resolves, the derived entry is
     * appended, selected and stamped as the last anomaly, and the state is
     * written; otherwise nothing changes and nothing is written.
     */
    method ApplyTimeAnomaly(mode: AnomalyMode, now: int, echoNow: int, newId: string, branchId: string,
                            offset: int, pick: nat, d: TextDraws)
      requires FreshId(newId, entries) && FreshId(branchId, entries) && branchId != newId
      requires OffsetInRange(EchoMinHours, EchoMaxHours, offset)
      requires |entries| == 0 || pick < |entries|
      modifies this
      ensures var e := Derived(old(Snap()), mode, d, now, echoNow, newId, branchId, offset, pick);
        if e.None? then Snap() == old(Snap()) && persisted == old(persisted)
        else
          && entries == old(entries) + [e.value]
          && selectedEntryId == Some(newId) && lastAnomalyAt == Some(now)
          && anomalyIntensity == old(anomalyIntensity)
          && Saved()
      ensures |old(entries)| <= |entries| && entries[..|old(entries)|] == old(entries)
      ensures old(WellFormed(entries)) ==> WellFormed(entries)
    {
      if |entries| == 0 {
        return;
      }
      var source := SourceEntry(entries, selectedEntryId, mode, pick);
      if source.None? {
        return;
      }
      var e := DeriveEntry(source.value, mode, d, now, echoNow, newId, branchId, offset);
      if WellFormed(entries) {
        AnomalyKeepsWellFormed(Snap(), mode, d, now, echoNow, newId, branchId, offset, pick);
      }
      entries := entries + [e];
      selectedEntryId := Some(e.id);
      lastAnomalyAt := Some(now);
      persisted := Some(Snap());
    }

    /** `resetJournal`: storage is cleared, the journal seeded anew, and the fresh state written. */
    method ResetJournal(now: int, id1: string, id2: string)
      requires id1 != [] && id2 != [] && id1 != id2
      modifies this
      ensures Snap() == SeedState(now, id1, id2)
      ensures WellFormed(entries)
      ensures Saved()
    {
      persisted := None;
      var seed := SeedState(now, id1, id2);
      entries := seed.entries;
      selectedEntryId := seed.selectedEntryId;
      anomalyIntensity := seed.anomalyIntensity;
      lastAnomalyAt := seed.lastAnomalyAt;
      persisted := Some(Snap());
    }
  }
}

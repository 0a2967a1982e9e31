/**
 * The background worker's handlers. Each one reads a key of the synced
 * storage record (a missing key reads as an empty list), changes the value
 * it read, writes it back under the same key, and replies.
 */
module Background {
  import opened Wrappers
  import opened HeaderList
  import opened Storage

  /** The history keeps at most this many entries. */
  const MaxHistory: nat := 100

  /** Install defaults: both lists empty, auto-refresh off, notifications on. */
  method OnInstalled(store: SyncStorage)
    modifies store
    ensures store.configuredHeaders == Some([])
    ensures store.extractionHistory == Some([])
    ensures store.settings == Some(Settings(false, true))
  {
    store.configuredHeaders := Some([]);
    store.extractionHistory := Some([]);
    store.settings := Some(Settings(false, true));
  }

  /** Replies with the stored history, or the empty list when none is stored. */
  method HandleGetExtractionHistory(store: SyncStorage) returns (history: seq<HistoryEntry>)
    ensures store.extractionHistory.None? ==> history == []
    ensures store.extractionHistory.Some? ==> history == store.extractionHistory.value
  {
    history := ListOrEmpty(store.extractionHistory);
  }

  /** Empties the history and leaves the other keys alone. */
  method HandleClearHistory(store: SyncStorage)
    modifies store
    ensures store.extractionHistory == Some([])
    ensures store.configuredHeaders == old(store.configuredHeaders)
    ensures store.settings == old(store.settings)
  {
    store.extractionHistory := Some([]);
  }

  /**
   * Appends `header` to the stored list unless it is already there; only
   * then is the list written back. The reply is the list now stored.
   */
  method HandleAddConfiguredHeader(store: SyncStorage, header: string) returns (headers: seq<string>)
    modifies store
    ensures var before := ListOrEmpty(old(store.configuredHeaders));
      headers == if header in before then before else before + [header]
    ensures header in ListOrEmpty(old(store.configuredHeaders)) ==> unchanged(store)
    ensures header !in ListOrEmpty(old(store.configuredHeaders)) ==> store.configuredHeaders == Some(headers)
    ensures store.extractionHistory == old(store.extractionHistory)
    ensures store.settings == old(store.settings)
    ensures store.configuredHeaders.Some? && store.configuredHeaders.value == headers
    ensures NoDuplicates(ListOrEmpty(old(store.configuredHeaders))) ==> NoDuplicates(headers)
  {
    headers := ListOrEmpty(store.configuredHeaders);
    if header !in headers {
      if NoDuplicates(headers) {
        AppendFresh(headers, header);
      }
      headers := headers + [header];
      store.configuredHeaders := Some(headers);
    }
  }

  /** Stores the list with every `header` filtered out, and replies with it. */
  method HandleRemoveConfiguredHeader(store: SyncStorage, header: string) returns (headers: seq<string>)
    modifies store
    ensures headers == Without(ListOrEmpty(old(store.configuredHeaders)), header)
    ensures store.configuredHeaders == Some(headers)
    ensures store.extractionHistory == old(store.extractionHistory)
    ensures store.settings == old(store.settings)
    ensures NoDuplicates(ListOrEmpty(old(store.configuredHeaders))) ==> NoDuplicates(headers)
  {
    var stored := ListOrEmpty(store.configuredHeaders);
    if NoDuplicates(stored) {
      WithoutKeepsNoDuplicates(stored, header);
    }
    headers := Without(stored, header);
    store.configuredHeaders := Some(headers);
  }

  /** Replies with the stored list, or the empty list when none is stored. */
  method HandleGetConfiguredHeaders(store: SyncStorage) returns (headers: seq<string>)
    ensures store.configuredHeaders.None? ==> headers == []
    ensures store.configuredHeaders.Some? ==> headers == store.configuredHeaders.value
  {
    headers := ListOrEmpty(store.configuredHeaders);
  }

  /** The caller's entry with the time stamp and id added; the added fields win over any the entry had. */
  function Stamp(entry: map<string, string>, timestamp: string, id: int): (e: HistoryEntry)
    ensures e.timestamp == timestamp && e.id == id
    ensures e.fields.Keys == entry.Keys - {"timestamp", "id"}
    ensures forall k :: k in e.fields ==> e.fields[k] == entry[k]
  {
    HistoryEntry(entry - {"timestamp", "id"}, timestamp, id)
  }

  /**
   * The history after a new entry: the entry first, then the previous
   * entries in order, of which only the last is dropped when the list would
   * grow past the cap.
   */
  function Recorded(history: seq<HistoryEntry>, entry: HistoryEntry): (r: seq<HistoryEntry>)
    ensures |r| == if |history| >= MaxHistory then |history| else |history| + 1
    ensures |r| > 0 && r[0] == entry
    ensures forall i :: 1 <= i < |r| ==> r[i] == history[i - 1]
    ensures |history| <= MaxHistory ==> |r| <= MaxHistory
  {
    var grown := [entry] + history;
    if |grown| > MaxHistory then grown[..|grown| - 1] else grown
  }

  /** On a full history, the new entry goes in front and exactly the oldest entry is dropped. */
  lemma RecordedWhenFull(history: seq<HistoryEntry>, entry: HistoryEntry)
    requires |history| == MaxHistory
    ensures Recorded(history, entry) == [entry] + history[..MaxHistory - 1]
  {
    var r := Recorded(history, entry);
    assert forall i :: 0 <= i < |r| ==> r[i] == ([entry] + history[..MaxHistory - 1])[i];
  }

  /** Below the cap, nothing is dropped. */
  lemma RecordedBelowCap(history: seq<HistoryEntry>, entry: HistoryEntry)
    requires |history| < MaxHistory
    ensures Recorded(history, entry) == [entry] + history
  {
    var r := Recorded(history, entry);
    assert forall i :: 0 <= i < |r| ==> r[i] == ([entry] + history)[i];
  }

  /** The history after recording `entries` one after the other. */
  function RecordAll(history: seq<HistoryEntry>, entries: seq<HistoryEntry>): seq<HistoryEntry>
  {
    if entries == [] then history
    else Recorded(RecordAll(history, entries[..|entries| - 1]), entries[|entries| - 1])
  }

  /** A history that never held more than the cap keeps to it however many entries are recorded. */
  lemma {:induction false} RecordedStaysCapped(history: seq<HistoryEntry>, entries: seq<HistoryEntry>)
    requires |history| <= MaxHistory
    ensures |RecordAll(history, entries)| <= MaxHistory
    ensures |entries| > 0 ==> RecordAll(history, entries)[0] == entries[|entries| - 1]
    decreases |entries|
  {
    if entries != [] {
      RecordedStaysCapped(history, entries[..|entries| - 1]);
    }
  }

  /** Puts the stamped entry at the front of the stored history and drops the oldest entry past the cap. */
  method AddExtractionHistory(store: SyncStorage, entry: map<string, string>, timestamp: string, id: int)
    modifies store
    ensures store.extractionHistory == Some(Recorded(ListOrEmpty(old(store.extractionHistory)), Stamp(entry, timestamp, id)))
    ensures store.configuredHeaders == old(store.configuredHeaders)
    ensures store.settings == old(store.settings)
  {
    var history := ListOrEmpty(store.extractionHistory);
    var newEntry := Stamp(entry, timestamp, id);
    history := [newEntry] + history;
    if |history| > MaxHistory {
      history := history[..|history| - 1];
    }
    store.extractionHistory := Some(history);
  }
}

/**
 * The extension's synced key-value storage record, as `chrome.storage.sync`
 * holds it: three keys, each of which may be missing.
 */
module Storage {
  import opened Wrappers

  /** The two settings the install handler writes; nothing reads them. */
  datatype Settings = Settings(autoRefresh: bool, showNotifications: bool)

  /**
   * One extraction-history entry: the caller's own fields, then the time
   * stamp and id the background worker adds (which replace any fields of
   * the caller's that carry those names).
   */
  datatype HistoryEntry = HistoryEntry(fields: map<string, string>, timestamp: string, id: int)

  class SyncStorage {
    var configuredHeaders: Option<seq<string>>
    var extractionHistory: Option<seq<HistoryEntry>>
    var settings: Option<Settings>

    /** Storage before anything was written: every key is missing. */
    constructor ()
      ensures configuredHeaders == None && extractionHistory == None && settings == None
    {
      configuredHeaders := None;
      extractionHistory := None;
      settings := None;
    }
  }

  /** JavaScript `stored || []`: a missing list reads as the empty list. */
  function ListOrEmpty<T>(stored: Option<seq<T>>): (r: seq<T>)
    ensures stored.None? ==> r == []
    ensures stored.Some? ==> r == stored.value
  {
    match stored
    case None => []
    case Some(list) => list
  }
}

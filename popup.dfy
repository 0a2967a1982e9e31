/**
 * The popup window: it holds the configured-header list in memory, saves it
 * to synced storage after every change, and extracts the current page's
 * cookies against it.
 */
module Popup {
  import opened Wrappers
  import opened Text
  import opened HeaderList
  import opened Storage
  import opened CookieMatch

  /** How an add request ended: the name was appended, or one of the two alerts was shown. */
  datatype AddOutcome = Added | EmptyName | AlreadyConfigured

  /** How an extraction ended: the alert for an empty configuration, or the rows to display. */
  datatype Extraction = NoHeadersConfigured | Extracted(rows: seq<ResultRow>)

  /** The inner `forEach`: one row per matching cookie, pushed in order. */
  method PushFoundRows(results: seq<ResultRow>, matching: seq<Cookie>) returns (r: seq<ResultRow>)
    ensures r == results + FoundRows(matching)
  {
    r := results;
    var j := 0;
    while j < |matching|
      invariant 0 <= j <= |matching|
      invariant r == results + FoundRows(matching[..j])
    {
      FoundRowsSnoc(matching, j);
      r := r + [FoundRow(matching[j])];
      j := j + 1;
    }
    assert matching[..j] == matching;
  }

  class CookieExtractorPopup {
    var configuredHeaders: seq<string>
    const storage: SyncStorage

    /** A new popup starts with no headers; `LoadConfiguredHeaders` then reads the stored list. */
    constructor (storage: SyncStorage)
      ensures this.storage == storage && configuredHeaders == []
    {
      this.storage := storage;
      configuredHeaders := [];
    }

    /** The in-memory list becomes the stored list, or the empty list when none is stored. */
    method LoadConfiguredHeaders()
      modifies this`configuredHeaders
      ensures storage.configuredHeaders.None? ==> configuredHeaders == []
      ensures storage.configuredHeaders.Some? ==> configuredHeaders == storage.configuredHeaders.value
    {
      configuredHeaders := ListOrEmpty(storage.configuredHeaders);
    }

    /** Writes the in-memory list under its storage key; the other keys are untouched. */
    method SaveConfiguredHeaders()
      modifies storage
      ensures storage.configuredHeaders == Some(configuredHeaders)
      ensures storage.extractionHistory == old(storage.extractionHistory)
      ensures storage.settings == old(storage.settings)
    {
      storage.configuredHeaders := Some(configuredHeaders);
    }

    /**
     * Adds the trimmed `input`. An empty name or one already configured is
     * refused and nothing changes; otherwise the name goes at the end and
     * the list is saved.
     */
    method AddHeader(input: string) returns (outcome: AddOutcome)
      modifies this`configuredHeaders, storage
      ensures var name := Trim(input);
        outcome == (if name == "" then EmptyName
                    else if name in old(configuredHeaders) then AlreadyConfigured
                    else Added)
      ensures outcome == Added ==>
        && configuredHeaders == old(configuredHeaders) + [Trim(input)]
        && storage.configuredHeaders == Some(configuredHeaders)
        && storage.extractionHistory == old(storage.extractionHistory)
        && storage.settings == old(storage.settings)
      ensures outcome != Added ==> configuredHeaders == old(configuredHeaders) && unchanged(storage)
      ensures NoDuplicates(old(configuredHeaders)) ==> NoDuplicates(configuredHeaders)
    {
      var name := Trim(input);
      if name == "" {
        return EmptyName;
      }
      if name in configuredHeaders {
        return AlreadyConfigured;
      }
      if NoDuplicates(configuredHeaders) {
        AppendFresh(configuredHeaders, name);
      }
      configuredHeaders := configuredHeaders + [name];
      SaveConfiguredHeaders();
      outcome := Added;
    }

    /** Drops every occurrence of `name`, keeps the rest in order, and saves the list. */
    method RemoveHeader(name: string)
      modifies this`configuredHeaders, storage
      ensures configuredHeaders == Without(old(configuredHeaders), name)
      ensures name !in configuredHeaders
      ensures storage.configuredHeaders == Some(configuredHeaders)
      ensures storage.extractionHistory == old(storage.extractionHistory)
      ensures storage.settings == old(storage.settings)
      ensures NoDuplicates(old(configuredHeaders)) ==> NoDuplicates(configuredHeaders)
    {
      if NoDuplicates(configuredHeaders) {
        WithoutKeepsNoDuplicates(configuredHeaders, name);
      }
      configuredHeaders := Without(configuredHeaders, name);
      SaveConfiguredHeaders();
    }

    /** When the user confirms, empties the list and saves it; otherwise nothing changes. */
    method ClearAll(confirmed: bool)
      modifies this`configuredHeaders, storage
      ensures confirmed ==> configuredHeaders == [] && storage.configuredHeaders == Some([])
      ensures confirmed ==> storage.extractionHistory == old(storage.extractionHistory)
      ensures confirmed ==> storage.settings == old(storage.settings)
      ensures !confirmed ==> configuredHeaders == old(configuredHeaders) && unchanged(storage)
    {
      if confirmed {
        configuredHeaders := [];
        SaveConfiguredHeaders();
      }
    }

    /**
     * Matches the page's cookies against the configured headers, header by
     * header: every matching cookie in enumeration order, or a not-found row
     * for a header nothing matches. An empty configuration stops early.
     */
    method ExtractCookies(cookies: seq<Cookie>) returns (outcome: Extraction)
      ensures outcome == NoHeadersConfigured <==> configuredHeaders == []
      ensures outcome.Extracted? ==> outcome.rows == Results(configuredHeaders, cookies)
    {
      var headers := configuredHeaders;
      if |headers| == 0 {
        return NoHeadersConfigured;
      }
      var results: seq<ResultRow> := [];
      var i := 0;
      while i < |headers|
        invariant 0 <= i <= |headers|
        invariant results == Results(headers[..i], cookies)
      {
        var header := headers[i];
        var matching := MatchingCookies(cookies, header);
        ghost var before := results;
        if |matching| > 0 {
          results := PushFoundRows(results, matching);
        } else {
          results := results + [NotFound(header)];
        }
        assert results == before + RowsFor(header, cookies);
        assert headers[..i + 1] == headers[..i] + [header];
        ResultsSnoc(headers[..i], header, cookies);
        i := i + 1;
      }
      assert headers[..i] == headers;
      outcome := Extracted(results);
    }
  }
}

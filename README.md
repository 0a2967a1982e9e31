# Cookie Header Extractor — a verified model

The Cookie Header Extractor browser extension lets a user configure a list of
cookie names ("headers"). It then pulls the matching cookies of the current
page out of the browser. This project models its core in Dafny:

- **Header list.** The popup window's configured-header list can be added to,
  removed from and cleared. After every change it is saved to synced storage.
- **Storage handlers.** The background worker has handlers that read and
  rewrite the same storage keys. It also writes the install defaults and keeps
  the extraction history, newest first and capped at 100 entries.
- **Matching.** Cookies are matched against the configured names: a
  case-insensitive substring test, or an exact match. The result rows are
  built from those matches: one row per matching cookie, or a not-found row
  per unmatched name.
- **Content script.** It parses the `document.cookie` string into a
  name-to-value map and picks the requested names out of that map. It also
  replaces the page's `document.cookie` property with a getter and setter
  over one cached string.

Modules, one per concern:

- `Wrappers` holds `Option`.
- `Text` holds the JavaScript string operations the code relies on: `trim`,
  `split`/`join` on one character, `toLowerCase`, and `includes`.
- `HeaderList` models `filter(h => h !== name)` on the list.
- `Storage` models the synced storage record, where any key may be missing.
- `CookieMatch` models the popup's matching and result rows, as functions.
- `Popup` is the popup class. It holds its header list as a field and writes
  the storage object.
- `Background` holds the handlers, each acting on the storage object.
- `CookieString` models the content script's `split`/`reduce` parser and its
  header pick-out.
- `Content` is the content script's cookie cache.

## Model

| member | source | states |
|---|---|---|
| Text.LeadingSpace | popup.js:55 | the whitespace prefix that `trim` removes: all whitespace, and followed by a non-whitespace code point or the end |
| Text.ContentEnd | popup.js:55 | the end of a string's content: everything after it is whitespace, and the code point before it is not |
| Text.Trim | popup.js:55 | `trim` gives the empty string exactly when the input is all whitespace; otherwise the result neither starts nor ends with whitespace, and it is no longer than the input |
| Text.TrimIsInfix | popup.js:55 | the trimmed string is the input with a whitespace prefix and a whitespace suffix cut off, and nothing else changed |
| Text.IndexOf | content.js:23 | the first occurrence of a character: it is absent before the returned index, and at that index unless the index is the length |
| Text.IndexOfUnique | content.js:23 | an index holding the character with no earlier occurrence is the first occurrence |
| Text.Split | content.js:22-23 | `split` on one character always yields at least one piece |
| Text.SplitPiecesLackSeparator | content.js:22-23 | no piece of a split contains the separator |
| Text.JoinSplit | content.js:23-25 | joining the pieces with the same separator gives back the original string, so `valueParts.join('=')` restores every `=` after the first |
| Text.SplitJoin | content.js:22-23 | splitting a join of separator-free pieces gives back exactly those pieces |
| Text.SplitAtFirst | content.js:23-25 | the first piece is the text before the first separator; there is more than one piece exactly when a separator occurs; the remaining pieces join back to the text after the first separator |
| Text.Lower | popup.js:125 | lower-casing keeps the length |
| Text.LowerAt | popup.js:125 | lower-casing maps each code point on its own |
| Text.ContainsSelf | popup.js:125 | every string `includes` itself |
| HeaderList.AppendFresh | popup.js:62-67 | pushing a name that is not in a duplicate-free list keeps it duplicate-free |
| HeaderList.Without | popup.js:74 | the filtered list holds exactly the old elements other than the name, and is no longer than the old list |
| HeaderList.WithoutAppend | popup.js:74 | filtering distributes over concatenation, so the order of the remaining names is kept |
| HeaderList.WithoutAbsent | background.js:100 | filtering out a name that is not in the list changes nothing |
| HeaderList.WithoutSplice | popup.js:74 | filtering out the one occurrence of a name closes the gap around it |
| HeaderList.OnlyOccurrence | popup.js:62-67 | in a duplicate-free list, the name at an index occurs nowhere else |
| HeaderList.WithoutOfDistinct | popup.js:73-74 | in a duplicate-free list, removing the name at an index removes that one element and nothing else |
| HeaderList.WithoutKeepsNoDuplicates | background.js:100 | filtering keeps a duplicate-free list duplicate-free |
| Storage.SyncStorage.constructor | background.js:6-13 | storage before anything is written has every key missing |
| Storage.ListOrEmpty | background.js:82 | `stored \|\| []`: a missing list reads as the empty list, and a stored list reads as itself |
| CookieMatch.ExpiryOf | popup.js:138 | a cookie shows an expiry exactly when it has a non-zero expiration date, which is the one shown; otherwise it is a session cookie |
| CookieMatch.MatchesIsContainment | popup.js:124-127 | a cookie matches a header exactly when its lower-cased name contains the lower-cased header; every header matches a cookie of the same name |
| CookieMatch.MatchingCookies | popup.js:124-127 | the matching cookies are no more than the page's cookies |
| CookieMatch.MatchingCookiesMembers | popup.js:124-127 | a cookie is among the matches exactly when it is one of the page's cookies and its name matches the header |
| CookieMatch.MatchingAppend | popup.js:124-127 | `filter` keeps the enumeration order: matching over two runs of cookies is the concatenation of the two matches |
| CookieMatch.FoundRows | popup.js:130-140 | there is one row per matching cookie |
| CookieMatch.FoundRowsAt | popup.js:130-140 | row k is the row built from cookie k |
| CookieMatch.FoundRowsSnoc | popup.js:130-140 | one more cookie appends exactly its row |
| CookieMatch.FlatMapAppend | popup.js:123-148 | the per-header concatenation distributes over concatenated header lists |
| CookieMatch.ResultsCoverHeaders | popup.js:123-148 | there are at least as many result rows as configured headers |
| CookieMatch.ResultsSnoc | popup.js:123-148 | processing one more header appends exactly that header's rows |
| CookieMatch.ResultsAppend | popup.js:123-148 | the rows of two header lists are the rows of the first followed by those of the second |
| CookieMatch.NotFoundExactly | popup.js:129-147 | a not-found row for a name appears exactly when the name is configured and no cookie matches it |
| CookieMatch.FoundRowsMatch | popup.js:123-140 | every found row was built from a page cookie whose name matches some configured header |
| Popup.PushFoundRows | popup.js:130-140 | the inner `forEach` appends the matching cookies' rows, in order, to the rows so far |
| Popup.CookieExtractorPopup.constructor | popup.js:2-6 | a new popup starts with an empty header list over the given storage |
| Popup.CookieExtractorPopup.LoadConfiguredHeaders | popup.js:25-28 | the in-memory list becomes the stored list, or the empty list when none is stored |
| Popup.CookieExtractorPopup.SaveConfiguredHeaders | popup.js:35-37 | the list is stored under its key, and the other keys are untouched |
| Popup.CookieExtractorPopup.AddHeader | popup.js:53-71 | an empty trimmed name or one already configured is refused, and nothing changes; otherwise the trimmed name is appended and saved; a duplicate-free list stays duplicate-free |
| Popup.CookieExtractorPopup.RemoveHeader | popup.js:73-77 | the list becomes the old list with every occurrence of the name dropped, and is saved; a duplicate-free list stays duplicate-free |
| Popup.CookieExtractorPopup.ClearAll | popup.js:79-86 | on confirmation, the list is emptied and saved; otherwise nothing changes |
| Popup.CookieExtractorPopup.ExtractCookies | popup.js:111-155 | an empty configuration stops with the alert; otherwise the rows are, header by header, every matching cookie's row or one not-found row |
| Background.OnInstalled | background.js:2-14 | install writes both lists empty, auto-refresh off and notifications on |
| Background.HandleGetExtractionHistory | background.js:59-62 | the reply is the stored history, or the empty list when none is stored |
| Background.HandleClearHistory | background.js:69-72 | the history becomes empty, and the other keys are untouched |
| Background.HandleAddConfiguredHeader | background.js:79-90 | a header that is not yet stored is appended and written back; one already stored leaves storage untouched; the reply is the list now stored; a duplicate-free list stays duplicate-free |
| Background.HandleRemoveConfiguredHeader | background.js:96-103 | the stored list and the reply are the old list with every occurrence of the header dropped |
| Background.HandleGetConfiguredHeaders | background.js:110-113 | the reply is the stored list, or the empty list when none is stored |
| Background.Stamp | background.js:127-131 | the new entry carries the given time stamp and id; the caller's other fields are kept with their values, and the added fields win |
| Background.Recorded | background.js:133-137 | the new entry comes first, followed by the old entries in order; the list grows by one unless it is already at the cap; a list within the cap stays within it |
| Background.RecordedWhenFull | background.js:133-137 | on a full history, exactly the oldest entry is dropped |
| Background.RecordedBelowCap | background.js:133-137 | below the cap, nothing is dropped |
| Background.RecordedStaysCapped | background.js:121-143 | any number of recordings keeps a capped history within 100 entries, with the newest entry in front |
| Background.AddExtractionHistory | background.js:121-143 | the stored history becomes the old history with the stamped entry recorded; the other keys are untouched |
| CookieString.ParseEntryMeaning | content.js:23-25 | a piece is kept exactly when its trimmed text has an `=` that is not its first character; the name is the trimmed text before the first `=`, and the value the trimmed text after it |
| CookieString.ParsedNameNonEmpty | content.js:23-25 | no kept entry has an empty name |
| CookieString.Entries | content.js:22-23 | there is one parsed entry per piece |
| CookieString.EntriesAt | content.js:22-23 | entry i is the parse of piece i |
| CookieString.CookieMapSnoc | content.js:22-28 | one more piece is one more step of the `reduce` |
| CookieString.EmptyCookieString | content.js:22-28 | an empty cookie string parses to the empty map |
| CookieString.AccumulateKeys | content.js:22-28 | a name is in the map exactly when some kept entry carries it |
| CookieString.LastEntryWins | content.js:25 | the stored value is the one from the last entry with that name |
| CookieString.CookieMapKeys | content.js:22-28 | a name is parsed exactly when some piece yields an entry with that name |
| CookieString.NoEmptyName | content.js:22-28 | the empty name is never parsed |
| CookieString.LaterPieceOverwrites | content.js:25 | of several pieces with one name, the last one's value is the parsed value |
| CookieString.ReducePieces | content.js:22-28 | the `reduce` loop computes the parsed map of its pieces |
| CookieString.ExtractHeaders | content.js:31-35 | a requested header is extracted exactly when it was parsed with a non-empty value, and it carries that value |
| Content.ContentScript.constructor | content.js:61 | the cache starts as the page's cookie string at load time |
| Content.ContentScript.GetCookie | content.js:64-66 | the getter returns the cached string |
| Content.ContentScript.SetCookie | content.js:67-68 | the setter replaces the cached string |
| Content.ContentScript.ExtractCookieHeaders | content.js:17-37 | all cookies is the parse of the cached string; a request without headers extracts nothing; a header is extracted exactly when it was requested and parsed with a non-empty value, with that value |
| Content.SetThenGet | content.js:63-68 | after a set, the getter returns exactly the string that was set |

## Left out

- Browser host APIs are replaced by parameters and fields: tabs, cookies, storage and runtime messaging. The page's cookies, the confirm dialog's answer, the time stamp and the id are parameters. Storage is an object with one field per key.
- Message routing, logging, the toolbar badge and the `getPageInfo` reply are left out because they are host calls that change no modelled state. Six listeners are covered by this line and the five that follow.
- The background worker's runtime `onMessage` switch (background.js:17-43) is left out as routing. Its `cookieChanged` case goes to `handleCookieChange`, which only logs and re-sends a `cookieUpdated` message (background.js:45-57).
- The content script's `onMessage` listener (content.js:6-39) is left out as routing. Its `getPageInfo` reply is built inline from the page's address, title and cookie string; its `extractCookieHeaders` reply is `Content.ContentScript.ExtractCookieHeaders`.
- The icon-click listener is left out because it only logs (background.js:146-149).
- The `tabs.onUpdated` listener is left out because it only clears the badge text when a page finishes loading (background.js:152-157).
- The `storage.onChanged` listener is left out because it only logs (background.js:160-164).
- The `onConnect` port listener is the only caller of `addExtractionHistory` (background.js:167-178). The history update itself is `Background.AddExtractionHistory`; the port and its `{ success: true }` reply are left out.
- Rendering and other user-interface effects are left out: the header list and results HTML, alerts, clearing the input box, and the event bindings.
- Popup.CookieExtractorPopup.RemoveHeader: the name it receives is a parameter. In the extension, that name reaches the handler through an HTML attribute written without escaping (`data-header`, popup.js:99) and read back through `dataset.header` (popup.js:105-106). A configured name that contains `"` or a character reference such as `&amp;` therefore arrives changed: for `a"b` the handler receives `a`, so `a"b` is never removed. The model does not capture this round trip.
- Storage failures and their `catch` branches are left out, along with the `{ success: false }` replies, because the model's storage does not fail.
- The ordering of asynchronous operations is left out; each handler runs to completion.
- Popup.CookieExtractorPopup.ExtractCookies: the expiration date is shown as an `Expiry` value, not as a locale-formatted date string, because locale formatting is host-dependent.
- The current tab's host name (`loadCurrentUrl`) is left out because it is only displayed.
- The fallback `originalSetCookie` is left out because nothing calls it. The `cookieChanged` message that the setter sends is left out because it is a message.
- Text.Lower: folds only ASCII `A`–`Z`, not the full Unicode case mapping of `toLowerCase`.
- CookieString.ExtractHeaders, CookieString.ParseCookieString, Content.ContentScript.ExtractCookieHeaders: the parsed map is a plain map, so property names inherited by JavaScript objects (for example `constructor`) and the special key `__proto__` are not modelled. In JavaScript, assigning to `acc["__proto__"]` creates no key, so a cookie named `__proto__` is dropped, while `CookieMap` keeps it (content.js:25). A request for `constructor` is extracted with the inherited, truthy value (content.js:32), while the model extracts it only when a cookie of that name was parsed.
- CookieMatch.ExpiryOf: the expiration date is a real number, so a `NaN` date, which is falsy in JavaScript, is not modelled.
- Background.Stamp: entry fields are modelled as strings, and the added `id` is an integer.

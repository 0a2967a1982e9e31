/**
 * The content script. It replaces the page's `document.cookie` property with
 * a getter and setter over one cached string (captured when the script
 * loads), and answers requests to pick configured headers out of that string.
 */
module Content {
  import opened Wrappers
  import opened Text
  import opened CookieString

  class ContentScript {
    /** The string the overridden `document.cookie` getter returns. */
    var cookieCache: string

    /** Loading the script captures the page's cookie string as it is at that moment. */
    constructor (documentCookie: string)
      ensures cookieCache == documentCookie
    {
      cookieCache := documentCookie;
    }

    /** The overridden getter: the cached string. */
    method GetCookie() returns (value: string)
      ensures value == cookieCache
    {
      value := cookieCache;
    }

    /** The overridden setter: the assigned string replaces the cached one. */
    method SetCookie(value: string)
      modifies this
      ensures cookieCache == value
    {
      cookieCache := value;
    }

    /**
     * The `extractCookieHeaders` request: parse the cookie string that the
     * getter returns, then keep each requested header that was parsed with a
     * non-empty value. A request without headers extracts nothing.
     */
    method ExtractCookieHeaders(headers: Option<seq<string>>) returns (extracted: map<string, string>, allCookies: map<string, string>)
      ensures allCookies == ParseCookieString(cookieCache)
      ensures headers.None? ==> extracted == map[]
      ensures forall h :: h in extracted <==>
        headers.Some? && h in headers.value && h in allCookies && allCookies[h] != ""
      ensures forall h :: h in extracted ==> extracted[h] == allCookies[h]
    {
      var requested := if headers.Some? then headers.value else [];
      var documentCookie := GetCookie();
      var pieces := Split(documentCookie, ';');
      allCookies := ReducePieces(pieces);
      extracted := ExtractHeaders(requested, allCookies);
    }
  }

  /** After a set, the getter returns exactly what was set. */
  method SetThenGet(script: ContentScript, value: string) returns (read: string)
    modifies script
    ensures read == value
  {
    script.SetCookie(value);
    read := script.GetCookie();
  }
}

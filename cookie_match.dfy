/**
 * The popup's extraction: which cookies of the current page match a
 * configured header, and the list of result rows built header by header.
 */
module CookieMatch {
  import opened Wrappers
  import opened Text

  /** A cookie as the browser's cookie enumeration reports it; `expirationDate` is in seconds, missing for session cookies. */
  datatype Cookie = Cookie(
    name: string,
    value: string,
    domain: string,
    path: string,
    secure: bool,
    httpOnly: bool,
    expirationDate: Option<real>)

  /** When a found cookie expires: a session cookie, or the instant that the popup formats for display. */
  datatype Expiry = SessionCookie | ExpiresAt(seconds: real)

  /** One displayed row: a cookie that matched, or the marker for a header that matched nothing. */
  datatype ResultRow =
    | Found(name: string, value: string, domain: string, path: string,
            secure: bool, httpOnly: bool, expiration: Expiry)
    | NotFound(name: string)
  {
    /** The value shown in the row; a not-found row shows a fixed label. */
    function Value(): string
    {
      match this
      case Found(_, value, _, _, _, _, _) => value
      case NotFound(_) => NotFoundLabel
    }
  }

  /** The label a not-found row carries as its value ("not found"). */
  const NotFoundLabel: string := "\U{672A}\U{627E}\U{5230}"

  /** A zero or missing expiration date is falsy, so the cookie is shown as a session cookie. */
  function ExpiryOf(c: Cookie): (e: Expiry)
    ensures e.ExpiresAt? <==> c.expirationDate.Some? && c.expirationDate.value != 0.0
    ensures e.ExpiresAt? ==> e.seconds == c.expirationDate.value
  {
    match c.expirationDate
    case Some(t) => if t != 0.0 then ExpiresAt(t) else SessionCookie
    case None => SessionCookie
  }

  function FoundRow(c: Cookie): ResultRow
  {
    Found(c.name, c.value, c.domain, c.path, c.secure, c.httpOnly, ExpiryOf(c))
  }

  /**
   * The match test: the lower-cased cookie name contains the lower-cased
   * header, or the two are equal.
   */
  predicate Matches(cookieName: string, header: string)
  {
    Contains(Lower(cookieName), Lower(header)) || cookieName == header
  }

  /** The equality disjunct adds nothing: matching is case-insensitive containment alone, and an exact name always matches. */
  lemma MatchesIsContainment(cookieName: string, header: string)
    ensures Matches(cookieName, header) <==> Contains(Lower(cookieName), Lower(header))
    ensures Matches(header, header)
  {
    ContainsSelf(Lower(header));
  }

  /** JavaScript `cookies.filter(c => Matches(c.name, header))`. */
  function MatchingCookies(cookies: seq<Cookie>, header: string): (m: seq<Cookie>)
    ensures |m| <= |cookies|
  {
    if cookies == [] then []
    else
      var init := MatchingCookies(cookies[..|cookies| - 1], header);
      var last := cookies[|cookies| - 1];
      if Matches(last.name, header) then init + [last] else init
  }

  /** The filter keeps exactly the cookies whose name matches the header. */
  lemma {:induction false} MatchingCookiesMembers(cookies: seq<Cookie>, header: string)
    ensures forall c :: c in MatchingCookies(cookies, header) <==> c in cookies && Matches(c.name, header)
    decreases |cookies|
  {
    if cookies != [] {
      MatchingCookiesMembers(cookies[..|cookies| - 1], header);
      assert cookies == cookies[..|cookies| - 1] + [cookies[|cookies| - 1]];
    }
  }

  /** The filter keeps enumeration order: matching a concatenation is concatenating the matches. */
  lemma {:induction false} MatchingAppend(a: seq<Cookie>, b: seq<Cookie>, header: string)
    ensures MatchingCookies(a + b, header) == MatchingCookies(a, header) + MatchingCookies(b, header)
    decreases |b|
  {
    if b == [] {
      assert a + b == a;
    } else {
      var b' := b[..|b| - 1];
      assert (a + b)[..|a + b| - 1] == a + b';
      MatchingAppend(a, b', header);
    }
  }

  function FoundRows(cookies: seq<Cookie>): (rows: seq<ResultRow>)
    ensures |rows| == |cookies|
  {
    if cookies == [] then [] else FoundRows(cookies[..|cookies| - 1]) + [FoundRow(cookies[|cookies| - 1])]
  }

  /** Row `k` is the row of cookie `k`. */
  lemma {:induction false} FoundRowsAt(cookies: seq<Cookie>)
    ensures forall k :: 0 <= k < |cookies| ==> FoundRows(cookies)[k] == FoundRow(cookies[k])
    decreases |cookies|
  {
    if cookies != [] {
      FoundRowsAt(cookies[..|cookies| - 1]);
    }
  }

  /** Taking one more cookie adds its row at the end. */
  lemma FoundRowsSnoc(cookies: seq<Cookie>, j: nat)
    requires j < |cookies|
    ensures FoundRows(cookies[..j + 1]) == FoundRows(cookies[..j]) + [FoundRow(cookies[j])]
  {
    assert cookies[..j + 1][..j] == cookies[..j];
  }

  /** The rows one header contributes: every matching cookie in order, or one not-found row naming the header. */
  function RowsFor(header: string, cookies: seq<Cookie>): seq<ResultRow>
  {
    var m := MatchingCookies(cookies, header);
    if |m| > 0 then FoundRows(m) else [NotFound(header)]
  }

  /** `xs.flatMap(f)`: the pieces `f` gives for each element, concatenated in order. */
  function FlatMap<A, B>(xs: seq<A>, f: A -> seq<B>): seq<B>
  {
    if xs == [] then [] else FlatMap(xs[..|xs| - 1], f) + f(xs[|xs| - 1])
  }

  /** Mapping a concatenation is concatenating the mapped parts. */
  lemma {:induction false} FlatMapAppend<A, B>(a: seq<A>, b: seq<A>, f: A -> seq<B>)
    ensures FlatMap(a + b, f) == FlatMap(a, f) + FlatMap(b, f)
    decreases |b|
  {
    if b == [] {
      assert a + b == a;
    } else {
      var b' := b[..|b| - 1];
      assert (a + b)[..|a + b| - 1] == a + b';
      FlatMapAppend(a, b', f);
    }
  }

  /** The rows of all headers, in header order. */
  function Results(headers: seq<string>, cookies: seq<Cookie>): seq<ResultRow>
  {
    FlatMap(headers, h => RowsFor(h, cookies))
  }

  /** Every header contributes at least one row. */
  lemma {:induction false} ResultsCoverHeaders(headers: seq<string>, cookies: seq<Cookie>)
    ensures |Results(headers, cookies)| >= |headers|
    decreases |headers|
  {
    if headers != [] {
      ResultsCoverHeaders(headers[..|headers| - 1], cookies);
    }
  }

  /** Adding one header at the end adds its rows at the end. */
  lemma ResultsSnoc(headers: seq<string>, header: string, cookies: seq<Cookie>)
    ensures Results(headers + [header], cookies) == Results(headers, cookies) + RowsFor(header, cookies)
  {
    assert (headers + [header])[..|headers|] == headers;
  }

  /** Rows are built header by header: the rows of a concatenation are the concatenated rows. */
  lemma ResultsAppend(a: seq<string>, b: seq<string>, cookies: seq<Cookie>)
    ensures Results(a + b, cookies) == Results(a, cookies) + Results(b, cookies)
  {
    FlatMapAppend(a, b, h => RowsFor(h, cookies));
  }

  /** A not-found row for `name` appears exactly when `name` is configured and no cookie matches it. */
  lemma {:induction false} NotFoundExactly(headers: seq<string>, cookies: seq<Cookie>, name: string)
    ensures NotFound(name) in Results(headers, cookies) <==>
      name in headers && forall c :: c in cookies ==> !Matches(c.name, name)
    decreases |headers|
  {
    if headers != [] {
      var init, last := headers[..|headers| - 1], headers[|headers| - 1];
      NotFoundExactly(init, cookies, name);
      assert headers == init + [last];
      var m := MatchingCookies(cookies, last);
      MatchingCookiesMembers(cookies, last);
      if |m| > 0 {
        FoundRowsAt(m);
        assert NotFound(name) !in FoundRows(m);
        assert last == name ==> m[0] in cookies && Matches(m[0].name, name);
      }
    }
  }

  /** Every found row is a cookie that matches some configured header. */
  lemma {:induction false} FoundRowsMatch(headers: seq<string>, cookies: seq<Cookie>, row: ResultRow)
    requires row in Results(headers, cookies) && row.Found?
    ensures exists h, c :: h in headers && c in cookies && Matches(c.name, h) && row == FoundRow(c)
    decreases |headers|
  {
    var init, last := headers[..|headers| - 1], headers[|headers| - 1];
    if row in Results(init, cookies) {
      FoundRowsMatch(init, cookies, row);
      var h, c :| h in init && c in cookies && Matches(c.name, h) && row == FoundRow(c);
      assert h in headers;
    } else {
      var m := MatchingCookies(cookies, last);
      MatchingCookiesMembers(cookies, last);
      FoundRowsAt(m);
      var k :| 0 <= k < |FoundRows(m)| && FoundRows(m)[k] == row;
      assert m[k] in m;
      assert last in headers;
    }
  }
}

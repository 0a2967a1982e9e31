/**
 * The content script's reading of a `document.cookie` string: split on `;`,
 * each piece trimmed and cut at its first `=`, later pieces overwriting
 * earlier ones with the same name; then the requested headers picked out.
 */
module CookieString {
  import opened Wrappers
  import opened Text

  /**
   * One piece of the cookie string as a `(name, value)` pair: the trimmed
   * piece split on `=`, kept only when the text before the first `=` is
   * non-empty and at least one `=` is present; the value is the remaining
   * parts joined back with `=`.
   */
  function ParseEntry(piece: string): Option<(string, string)>
  {
    var parts := Split(Trim(piece), '=');
    var name := parts[0];
    if name != "" && |parts| > 1 then Some((Trim(name), Trim(Join(parts[1..], '='))))
    else None
  }

  /**
   * An entry is kept exactly when its trimmed piece has an `=` that is not
   * its first character; the name is the trimmed text before the first `=`
   * and the value the trimmed text after it, later `=` characters included.
   */
  lemma ParseEntryMeaning(piece: string)
    ensures var t := Trim(piece); var k := IndexOf(t, '=');
      && (ParseEntry(piece).Some? <==> 0 < k < |t|)
      && (ParseEntry(piece).Some? ==> ParseEntry(piece).value == (Trim(t[..k]), Trim(t[k + 1..])))
  {
    SplitAtFirst(Trim(piece), '=');
  }

  /** A kept entry never has an empty name: the trimmed piece starts with a code point that is not whitespace. */
  lemma ParsedNameNonEmpty(piece: string)
    ensures ParseEntry(piece).Some? ==> ParseEntry(piece).value.0 != ""
  {
    if ParseEntry(piece).Some? {
      ParseEntryMeaning(piece);
      var t := Trim(piece);
      var k := IndexOf(t, '=');
      assert t[..k][0] == t[0];
      assert !AllWhitespace(t[..k]);
    }
  }

  /** Whether a parsed entry carries `name`. */
  predicate Names(entry: Option<(string, string)>, name: string)
  {
    entry.Some? && entry.value.0 == name
  }

  /** The entry parsed from each piece, in order. */
  function Entries(pieces: seq<string>): (entries: seq<Option<(string, string)>>)
    ensures |entries| == |pieces|
  {
    if pieces == [] then [] else Entries(pieces[..|pieces| - 1]) + [ParseEntry(pieces[|pieces| - 1])]
  }

  /** Entry `i` is the parse of piece `i`. */
  lemma {:induction false} EntriesAt(pieces: seq<string>, i: nat)
    requires i < |pieces|
    ensures Entries(pieces)[i] == ParseEntry(pieces[i])
    decreases |pieces|
  {
    if i < |pieces| - 1 {
      EntriesAt(pieces[..|pieces| - 1], i);
    }
  }

  /** One step of the `reduce`: a kept entry writes its value under its name. */
  function Step(acc: map<string, string>, entry: Option<(string, string)>): map<string, string>
  {
    match entry
    case Some((name, value)) => acc[name := value]
    case None => acc
  }

  /** The `reduce` over the entries, from the empty map. */
  function Accumulate(entries: seq<Option<(string, string)>>): map<string, string>
  {
    if entries == [] then map[]
    else Step(Accumulate(entries[..|entries| - 1]), entries[|entries| - 1])
  }

  /** The parsed form of a sequence of pieces. */
  function CookieMap(pieces: seq<string>): map<string, string>
  {
    Accumulate(Entries(pieces))
  }

  /** Parsing one more piece is one more step of the `reduce`. */
  lemma CookieMapSnoc(pieces: seq<string>, i: nat)
    requires i < |pieces|
    ensures CookieMap(pieces[..i + 1]) == Step(CookieMap(pieces[..i]), ParseEntry(pieces[i]))
  {
    assert pieces[..i + 1][..i] == pieces[..i];
  }

  /** The parsed form of a whole cookie string: its `;`-separated pieces, parsed. */
  function ParseCookieString(cookie: string): map<string, string>
  {
    CookieMap(Split(cookie, ';'))
  }

  /** The empty cookie string has one empty piece, which is dropped: nothing is parsed. */
  lemma EmptyCookieString()
    ensures ParseCookieString("") == map[]
  {
    assert Split("", ';') == [""];
    assert Split("", '=') == [""];
    assert ParseEntry("") == None;
    assert Entries([""]) == [None];
  }

  /** A name is in the map exactly when some entry carries it. */
  lemma {:induction false} AccumulateKeys(entries: seq<Option<(string, string)>>, name: string)
    ensures name in Accumulate(entries) <==> exists i :: 0 <= i < |entries| && Names(entries[i], name)
    decreases |entries|
  {
    if entries != [] {
      var init := entries[..|entries| - 1];
      AccumulateKeys(init, name);
      if exists i :: 0 <= i < |init| && Names(init[i], name) {
        var i :| 0 <= i < |init| && Names(init[i], name);
        assert entries[i] == init[i];
      }
      if exists i :: 0 <= i < |entries| && Names(entries[i], name) {
        var i :| 0 <= i < |entries| && Names(entries[i], name);
        if i < |init| {
          assert init[i] == entries[i];
        }
      }
    }
  }

  /** The value stored under a name is the one from the last entry that carries that name. */
  lemma {:induction false} LastEntryWins(entries: seq<Option<(string, string)>>, i: nat, name: string, value: string)
    requires i < |entries| && entries[i] == Some((name, value))
    requires forall j :: i < j < |entries| ==> !Names(entries[j], name)
    ensures name in Accumulate(entries) && Accumulate(entries)[name] == value
    decreases |entries|
  {
    var last := |entries| - 1;
    if i < last {
      var init := entries[..last];
      assert init[i] == entries[i];
      forall j | i < j < |init|
        ensures !Names(init[j], name)
      {
        assert init[j] == entries[j];
      }
      LastEntryWins(init, i, name, value);
      assert !Names(entries[last], name);
    }
  }

  /** A name is parsed exactly when one of the pieces carries it. */
  lemma CookieMapKeys(pieces: seq<string>, name: string)
    ensures name in CookieMap(pieces) <==> exists i :: 0 <= i < |pieces| && Names(ParseEntry(pieces[i]), name)
  {
    var entries := Entries(pieces);
    AccumulateKeys(entries, name);
    if name in Accumulate(entries) {
      var i :| 0 <= i < |entries| && Names(entries[i], name);
      EntriesAt(pieces, i);
    }
    if exists i :: 0 <= i < |pieces| && Names(ParseEntry(pieces[i]), name) {
      var i :| 0 <= i < |pieces| && Names(ParseEntry(pieces[i]), name);
      EntriesAt(pieces, i);
    }
  }

  /** No parsed name is empty. */
  lemma NoEmptyName(pieces: seq<string>)
    ensures "" !in CookieMap(pieces)
  {
    CookieMapKeys(pieces, "");
    forall i | 0 <= i < |pieces|
      ensures !Names(ParseEntry(pieces[i]), "")
    {
      ParsedNameNonEmpty(pieces[i]);
    }
  }

  /** Of several pieces with one name, the last one's value is the parsed value. */
  lemma LaterPieceOverwrites(pieces: seq<string>, i: nat, name: string, value: string)
    requires i < |pieces| && ParseEntry(pieces[i]) == Some((name, value))
    requires forall j :: i < j < |pieces| ==> !Names(ParseEntry(pieces[j]), name)
    ensures name in CookieMap(pieces) && CookieMap(pieces)[name] == value
  {
    var entries := Entries(pieces);
    forall j | i < j < |entries|
      ensures !Names(entries[j], name)
    {
      EntriesAt(pieces, j);
    }
    EntriesAt(pieces, i);
    LastEntryWins(entries, i, name, value);
  }

  /** The `reduce` itself: one entry at a time, into a map that starts empty. */
  method ReducePieces(pieces: seq<string>) returns (acc: map<string, string>)
    ensures acc == CookieMap(pieces)
  {
    acc := map[];
    var i := 0;
    while i < |pieces|
      invariant 0 <= i <= |pieces|
      invariant acc == CookieMap(pieces[..i])
    {
      var entry := ParseEntry(pieces[i]);
      CookieMapSnoc(pieces, i);
      acc := Step(acc, entry);
      i := i + 1;
    }
    assert pieces[..i] == pieces;
  }

  /**
   * Picks the requested headers out of the parsed cookies: a header is kept,
   * with its parsed value, exactly when it was parsed with a non-empty value.
   */
  method ExtractHeaders(headers: seq<string>, cookies: map<string, string>) returns (extracted: map<string, string>)
    ensures forall h :: h in extracted <==> h in headers && h in cookies && cookies[h] != ""
    ensures forall h :: h in extracted ==> extracted[h] == cookies[h]
  {
    extracted := map[];
    var i := 0;
    while i < |headers|
      invariant 0 <= i <= |headers|
      invariant forall h :: h in extracted <==> h in headers[..i] && h in cookies && cookies[h] != ""
      invariant forall h :: h in extracted ==> extracted[h] == cookies[h]
    {
      var header := headers[i];
      assert headers[..i + 1] == headers[..i] + [header];
      if header in cookies && cookies[header] != "" {
        extracted := extracted[header := cookies[header]];
      }
      i := i + 1;
    }
    assert headers[..i] == headers;
  }
}

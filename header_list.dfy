/**
 * The configured-header list: the ordered cookie-name patterns the user has
 * configured. Both the popup and the background worker keep it free of
 * duplicates by checking membership before appending, and both remove a
 * name with the same filter.
 */
module HeaderList {

  /** No name occurs twice. */
  predicate NoDuplicates(s: seq<string>)
  {
    forall i, j :: 0 <= i < j < |s| ==> s[i] != s[j]
  }

  /** Appending a name that is absent keeps the list free of duplicates. */
  lemma AppendFresh(s: seq<string>, name: string)
    requires NoDuplicates(s) && name !in s
    ensures NoDuplicates(s + [name])
  {
  }

  /**
   * JavaScript `s.filter(h => h !== name)`: every element equal to `name`
   * dropped, the others kept.
   */
  function Without(s: seq<string>, name: string): (r: seq<string>)
    ensures |r| <= |s|
    ensures name !in r
    ensures forall x :: x in r <==> x in s && x != name
  {
    if s == [] then []
    else
      var init := Without(s[..|s| - 1], name);
      assert s == s[..|s| - 1] + [s[|s| - 1]];
      if s[|s| - 1] == name then init else init + [s[|s| - 1]]
  }

  /** The filter works element by element, so the kept elements stay in their original order. */
  lemma {:induction false} WithoutAppend(a: seq<string>, b: seq<string>, name: string)
    ensures Without(a + b, name) == Without(a, name) + Without(b, name)
    decreases |b|
  {
    if b != [] {
      var b' := b[..|b| - 1];
      assert (a + b)[..|a + b| - 1] == a + b';
      WithoutAppend(a, b', name);
    } else {
      assert a + b == a;
    }
  }

  /** Removing a name the list does not hold changes nothing. */
  lemma {:induction false} WithoutAbsent(s: seq<string>, name: string)
    requires name !in s
    ensures Without(s, name) == s
    decreases |s|
  {
    if s != [] {
      WithoutAbsent(s[..|s| - 1], name);
      assert s == s[..|s| - 1] + [s[|s| - 1]];
    }
  }

  /** Removing a name that occurs once, between `before` and `after`, leaves `before + after`. */
  lemma WithoutSplice(before: seq<string>, name: string, after: seq<string>)
    requires name !in before && name !in after
    ensures Without(before + [name] + after, name) == before + after
  {
    assert Without([name], name) == [] by {
      assert [name][..0] == [];
    }
    WithoutAppend(before, [name], name);
    WithoutAppend(before + [name], after, name);
    WithoutAbsent(before, name);
    WithoutAbsent(after, name);
  }

  /** In a duplicate-free list, the name at index `i` occurs nowhere else. */
  lemma OnlyOccurrence(s: seq<string>, i: nat)
    requires NoDuplicates(s) && i < |s|
    ensures s[i] !in s[..i] && s[i] !in s[i + 1..]
  {
    forall j | 0 <= j < i ensures s[..i][j] != s[i] {
      assert s[..i][j] == s[j];
    }
    var after := s[i + 1..];
    forall j | 0 <= j < |after| ensures after[j] != s[i] {
      assert after[j] == s[i + 1 + j];
    }
  }

  /** In a duplicate-free list, removing the name at index `i` closes the gap and nothing else. */
  lemma WithoutOfDistinct(s: seq<string>, i: nat)
    requires NoDuplicates(s) && i < |s|
    ensures Without(s, s[i]) == s[..i] + s[i + 1..]
  {
    OnlyOccurrence(s, i);
    assert s == s[..i] + [s[i]] + s[i + 1..];
    WithoutSplice(s[..i], s[i], s[i + 1..]);
  }

  /** Filtering a duplicate-free list leaves it duplicate-free. */
  lemma {:induction false} WithoutKeepsNoDuplicates(s: seq<string>, name: string)
    requires NoDuplicates(s)
    ensures NoDuplicates(Without(s, name))
    decreases |s|
  {
    if s != [] {
      var init := s[..|s| - 1];
      WithoutKeepsNoDuplicates(init, name);
      assert s[|s| - 1] !in init;
    }
  }
}

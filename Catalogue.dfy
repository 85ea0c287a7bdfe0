/**
 * The search rule shared by the teacher directory and the lesson list: an
 * empty term shows the whole catalogue; otherwise a record is kept, in
 * order, when the lower-cased term is included in the lower-cased form of
 * either of two text fields of the record.
 */
module Catalogue {
  import opened Text

  /** `field.toLowerCase().includes(term.toLowerCase())` */
  predicate FieldMatches(field: string, term: string)
    ensures FieldMatches(field, term) <==> Contains(Lower(field), Lower(term))
  {
    IncludesIsContains(Lower(field), Lower(term));
    Includes(Lower(field), Lower(term))
  }

  /** The filter callback: the term matches the first or the second field. */
  predicate Matches<R>(r: R, term: string, first: R -> string, second: R -> string)
    ensures Matches(r, term, first, second) <==>
      Contains(Lower(first(r)), Lower(term)) || Contains(Lower(second(r)), Lower(term))
  {
    FieldMatches(first(r), term) || FieldMatches(second(r), term)
  }

  /** `list.filter(r => Matches(r, term, ...))` */
  function KeepMatching<R>(list: seq<R>, term: string, first: R -> string, second: R -> string): (kept: seq<R>)
    ensures |kept| <= |list|
    ensures forall x :: x in kept ==> x in list && Matches(x, term, first, second)
  {
    if list == [] then []
    else (if Matches(list[0], term, first, second) then [list[0]] else [])
         + KeepMatching(list[1..], term, first, second)
  }

  /** The memoised search: `if (!term) return list; return list.filter(...)`. */
  function Filter<R>(list: seq<R>, term: string, first: R -> string, second: R -> string): (shown: seq<R>)
    ensures |shown| <= |list|
    ensures forall x :: x in shown ==> x in list
    ensures term != "" ==> forall x :: x in shown ==> Matches(x, term, first, second)
  {
    if term == "" then list else KeepMatching(list, term, first, second)
  }

  /** a can be obtained from b by deleting elements, keeping the order of the rest. */
  ghost predicate IsSubsequence<R>(a: seq<R>, b: seq<R>)
    decreases |b|
  {
    a == [] || (b != [] && ((a[0] == b[0] && IsSubsequence(a[1..], b[1..])) || IsSubsequence(a, b[1..])))
  }

  lemma {:induction false} SubsequenceIsShorter<R>(a: seq<R>, b: seq<R>)
    requires IsSubsequence(a, b)
    ensures |a| <= |b|
    decreases |b|
  {
    if a != [] {
      if a[0] == b[0] && IsSubsequence(a[1..], b[1..]) {
        SubsequenceIsShorter(a[1..], b[1..]);
      } else {
        SubsequenceIsShorter(a, b[1..]);
      }
    }
  }

  /** Matching is by substring: a field matches exactly when the lower-cased
      term occurs in the lower-cased field; the empty term matches everything. */
  lemma MatchesIsSubstring<R>(r: R, term: string, first: R -> string, second: R -> string)
    ensures Matches(r, term, first, second)
        <==> Contains(Lower(first(r)), Lower(term)) || Contains(Lower(second(r)), Lower(term))
    ensures term == "" ==> Matches(r, term, first, second)
  {
    IncludesIsContains(Lower(first(r)), Lower(term));
    IncludesIsContains(Lower(second(r)), Lower(term));
    if term == "" {
      LowerFacts(term);
      IncludesEmpty(Lower(first(r)));
    }
  }

  /** The empty-term shortcut agrees with the general filter: the empty term
      is included in every field, so filtering by it keeps every record. */
  lemma {:induction false} ShortcutAgrees<R>(list: seq<R>, term: string, first: R -> string, second: R -> string)
    ensures Filter(list, term, first, second) == KeepMatching(list, term, first, second)
  {
    if term == "" && list != [] {
      MatchesIsSubstring(list[0], term, first, second);
      ShortcutAgrees(list[1..], term, first, second);
      assert list == [list[0]] + list[1..];
    }
  }

  /** Each record occurs in the result as often as in the catalogue when it
      matches, and not at all otherwise (soundness and completeness, counting
      duplicates). */
  lemma {:induction false} KeepMatchingCounts<R>(list: seq<R>, term: string, first: R -> string, second: R -> string, x: R)
    ensures multiset(KeepMatching(list, term, first, second))[x]
         == if Matches(x, term, first, second) then multiset(list)[x] else 0
  {
    if list != [] {
      KeepMatchingCounts(list[1..], term, first, second, x);
      assert list == [list[0]] + list[1..];
    }
  }

  /** The result keeps catalogue order: it is a subsequence of the catalogue. */
  lemma {:induction false} KeepMatchingIsSubsequence<R>(list: seq<R>, term: string, first: R -> string, second: R -> string)
    ensures IsSubsequence(KeepMatching(list, term, first, second), list)
  {
    if list != [] {
      var r := KeepMatching(list, term, first, second);
      KeepMatchingIsSubsequence(list[1..], term, first, second);
      if Matches(list[0], term, first, second) {
        assert r[0] == list[0] && r[1..] == KeepMatching(list[1..], term, first, second);
      } else {
        assert r == KeepMatching(list[1..], term, first, second);
      }
    }
  }

  /** Every record in the result is a record of the catalogue that matches. */
  lemma FilterSound<R>(list: seq<R>, term: string, first: R -> string, second: R -> string)
    ensures forall x :: x in Filter(list, term, first, second) ==>
      x in list && (Contains(Lower(first(x)), Lower(term)) || Contains(Lower(second(x)), Lower(term)))
  {
    ShortcutAgrees(list, term, first, second);
    forall x | x in Filter(list, term, first, second)
      ensures x in list && (Contains(Lower(first(x)), Lower(term)) || Contains(Lower(second(x)), Lower(term)))
    {
      KeepMatchingCounts(list, term, first, second, x);
      MatchesIsSubstring(x, term, first, second);
    }
  }

  /** Every record of the catalogue that matches is in the result. */
  lemma FilterComplete<R>(list: seq<R>, term: string, first: R -> string, second: R -> string)
    ensures forall x :: x in list && Contains(Lower(first(x)), Lower(term)) ==> x in Filter(list, term, first, second)
    ensures forall x :: x in list && Contains(Lower(second(x)), Lower(term)) ==> x in Filter(list, term, first, second)
  {
    ShortcutAgrees(list, term, first, second);
    forall x | x in list && (Contains(Lower(first(x)), Lower(term)) || Contains(Lower(second(x)), Lower(term)))
      ensures x in Filter(list, term, first, second)
    {
      KeepMatchingCounts(list, term, first, second, x);
      MatchesIsSubstring(x, term, first, second);
    }
  }

  /** The result is an order-preserving subsequence of the catalogue, hence no longer. */
  lemma FilterKeepsOrder<R>(list: seq<R>, term: string, first: R -> string, second: R -> string)
    ensures IsSubsequence(Filter(list, term, first, second), list)
    ensures |Filter(list, term, first, second)| <= |list|
  {
    ShortcutAgrees(list, term, first, second);
    KeepMatchingIsSubsequence(list, term, first, second);
    SubsequenceIsShorter(Filter(list, term, first, second), list);
  }

  /** Every record kept by a filter is kept again by the same filter. */
  lemma {:induction false} KeepMatchingIdempotent<R>(list: seq<R>, term: string, first: R -> string, second: R -> string)
    ensures KeepMatching(KeepMatching(list, term, first, second), term, first, second)
         == KeepMatching(list, term, first, second)
  {
    if list != [] {
      var r := KeepMatching(list, term, first, second);
      KeepMatchingIdempotent(list[1..], term, first, second);
      if Matches(list[0], term, first, second) {
        assert r == [list[0]] + KeepMatching(list[1..], term, first, second);
        assert r[0] == list[0] && r[1..] == KeepMatching(list[1..], term, first, second);
      } else {
        assert r == KeepMatching(list[1..], term, first, second);
      }
    }
  }

  /** Searching the search result again with the same term changes nothing. */
  lemma FilterIdempotent<R>(list: seq<R>, term: string, first: R -> string, second: R -> string)
    ensures Filter(Filter(list, term, first, second), term, first, second) == Filter(list, term, first, second)
  {
    KeepMatchingIdempotent(list, term, first, second);
  }

  /** Matching ignores case: terms with the same lower-cased form give the same result. */
  lemma FilterIgnoresCase<R>(list: seq<R>, term1: string, term2: string, first: R -> string, second: R -> string)
    requires Lower(term1) == Lower(term2)
    ensures Filter(list, term1, first, second) == Filter(list, term2, first, second)
  {
    LowerFacts(term1);
    LowerFacts(term2);
    ShortcutAgrees(list, term1, first, second);
    ShortcutAgrees(list, term2, first, second);
    KeepMatchingSameLower(list, term1, term2, first, second);
  }

  lemma {:induction false} KeepMatchingSameLower<R>(list: seq<R>, term1: string, term2: string, first: R -> string, second: R -> string)
    requires Lower(term1) == Lower(term2)
    ensures KeepMatching(list, term1, first, second) == KeepMatching(list, term2, first, second)
  {
    if list != [] {
      KeepMatchingSameLower(list[1..], term1, term2, first, second);
    }
  }

  /** The result is empty exactly when no record of the catalogue matches. */
  lemma FilterEmptyIff<R>(list: seq<R>, term: string, first: R -> string, second: R -> string)
    ensures Filter(list, term, first, second) == []
        <==> forall x :: x in list ==> !Matches(x, term, first, second)
  {
    ShortcutAgrees(list, term, first, second);
    var r := Filter(list, term, first, second);
    forall x | x in list
      ensures Matches(x, term, first, second) ==> x in r
    {
      KeepMatchingCounts(list, term, first, second, x);
    }
    if r != [] {
      KeepMatchingCounts(list, term, first, second, r[0]);
    }
  }

  /** When no record of the list matches, nothing is kept. */
  lemma {:induction false} KeepMatchingNone<R>(list: seq<R>, term: string, first: R -> string, second: R -> string)
    requires forall j :: 0 <= j < |list| ==> !Matches(list[j], term, first, second)
    ensures KeepMatching(list, term, first, second) == []
  {
    if list != [] {
      assert forall j :: 0 <= j < |list[1..]| ==> list[1..][j] == list[j + 1];
      KeepMatchingNone(list[1..], term, first, second);
    }
  }

  /** When exactly the record at position i matches, the result is that record alone. */
  lemma {:induction false} KeepMatchingOnlyOne<R>(list: seq<R>, term: string, first: R -> string, second: R -> string, i: nat)
    requires i < |list|
    requires forall j :: 0 <= j < |list| ==> (Matches(list[j], term, first, second) <==> j == i)
    ensures KeepMatching(list, term, first, second) == [list[i]]
  {
    assert forall j :: 0 <= j < |list[1..]| ==> list[1..][j] == list[j + 1];
    if i == 0 {
      KeepMatchingNone(list[1..], term, first, second);
    } else {
      KeepMatchingOnlyOne(list[1..], term, first, second, i - 1);
    }
  }
}

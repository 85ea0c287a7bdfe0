/**
 * The teacher directory: a constant list of teachers searched by name or
 * subject through the search bar.
 */
module Teachers {
  import opened Text
  import opened Catalogue
  import opened SearchBar

  /** A teacher card; the rating is kept in tenths (4.9 is 49). Avatar and
      colour are presentation only. */
  datatype Teacher = Teacher(name: string, subject: string, experience: string, ratingTenths: nat, students: nat)

  const AllTeachers: seq<Teacher> := [
    Teacher("Sarah Johnson", "會話英語", "10 年教學經驗", 49, 250),
    Teacher("Michael Chen", "商務英語", "8 年教學經驗", 48, 180),
    Teacher("Emily Davis", "學術英語", "12 年教學經驗", 50, 320)
  ]

  function Name(t: Teacher): string { t.name }
  function Subject(t: Teacher): string { t.subject }

  /** The teachers shown for a search term. */
  function FilteredTeachers(term: string): (shown: seq<Teacher>)
    ensures |shown| <= |AllTeachers|
    ensures forall t :: t in shown ==> t in AllTeachers
  {
    Filter(AllTeachers, term, Name, Subject)
  }

  /** The "no teacher matches" message replaces the grid when nothing is shown. */
  predicate NoResultsShown(term: string)
    ensures NoResultsShown(term) ==> term != ""
  {
    |FilteredTeachers(term)| == 0
  }

  /** What the directory shows for a term: everything for the empty term;
      otherwise exactly the teachers whose lower-cased name or subject
      contains the lower-cased term, in directory order; searching the shown
      list again by the same term shows the same list. */
  lemma FilteredTeachersSpec(term: string)
    ensures term == "" ==> FilteredTeachers(term) == AllTeachers
    ensures forall t :: t in FilteredTeachers(term) ==>
      t in AllTeachers && (Contains(Lower(t.name), Lower(term)) || Contains(Lower(t.subject), Lower(term)))
    ensures forall t :: t in AllTeachers && (Contains(Lower(t.name), Lower(term)) || Contains(Lower(t.subject), Lower(term))) ==>
      t in FilteredTeachers(term)
    ensures IsSubsequence(FilteredTeachers(term), AllTeachers) && |FilteredTeachers(term)| <= |AllTeachers|
    ensures Filter(FilteredTeachers(term), term, Name, Subject) == FilteredTeachers(term)
  {
    FilterSound(AllTeachers, term, Name, Subject);
    FilterComplete(AllTeachers, term, Name, Subject);
    FilterKeepsOrder(AllTeachers, term, Name, Subject);
    FilterIdempotent(AllTeachers, term, Name, Subject);
  }

  /** Search ignores case: terms that lower-case alike show the same teachers. */
  lemma TeacherSearchIgnoresCase(term1: string, term2: string)
    requires Lower(term1) == Lower(term2)
    ensures FilteredTeachers(term1) == FilteredTeachers(term2)
  {
    FilterIgnoresCase(AllTeachers, term1, term2, Name, Subject);
  }

  /** The "no results" message appears exactly when the term is non-empty and
      occurs in no teacher's name or subject. */
  lemma NoTeacherResultsIff(term: string)
    ensures NoResultsShown(term) <==>
      term != "" && forall t :: t in AllTeachers ==>
        !Contains(Lower(t.name), Lower(term)) && !Contains(Lower(t.subject), Lower(term))
  {
    FilterEmptyIff(AllTeachers, term, Name, Subject);
    forall t | t in AllTeachers {
      MatchesIsSubstring(t, term, Name, Subject);
    }
    if term == "" {
      assert AllTeachers[0] in AllTeachers;
    }
  }

  /** Neither case of the letter c occurs in the text, so "chen" is not in its lower-cased form. */
  lemma NoLetterC(text: string)
    requires 'c' !in text && 'C' !in text
    ensures !Includes(Lower(text), "chen")
  {
    var lowered := Lower(text);
    forall i | 0 <= i < |lowered| ensures lowered[i] != 'c' {
      assert text[i] != 'c' && text[i] != 'C';
    }
    AbsentFirstChar(lowered, "chen");
  }

  /** "CHEN", lower-cased, occurs in Michael Chen's name. */
  lemma MichaelMatchesChen()
    ensures Matches(AllTeachers[1], "CHEN", Name, Subject)
  {
    assert Lower("CHEN") == "chen";
    var lowered := Lower("Michael Chen");
    assert lowered[8..12] == "chen";
    PresentAt(lowered, "chen", 8);
  }

  /** A teacher whose name and subject hold no letter c does not match "CHEN". */
  lemma WithoutCNoChen(k: nat)
    requires k < |AllTeachers|
    requires 'c' !in AllTeachers[k].name && 'C' !in AllTeachers[k].name
    requires 'c' !in AllTeachers[k].subject && 'C' !in AllTeachers[k].subject
    ensures !Matches(AllTeachers[k], "CHEN", Name, Subject)
  {
    assert Lower("CHEN") == "chen";
    NoLetterC(AllTeachers[k].name);
    NoLetterC(AllTeachers[k].subject);
  }

  /** Of the three teachers, only Michael Chen matches "CHEN". */
  lemma ChenMatchesOnlyMichael(k: nat)
    requires k < |AllTeachers|
    ensures Matches(AllTeachers[k], "CHEN", Name, Subject) <==> k == 1
  {
    if k == 1 {
      MichaelMatchesChen();
    } else {
      WithoutCNoChen(k);
    }
  }

  /** Searching for "CHEN" shows Michael Chen alone: the match ignores case
      and is found inside the name. */
  lemma SearchingChenFindsMichael()
    ensures FilteredTeachers("CHEN") == [AllTeachers[1]]
  {
    forall k | 0 <= k < |AllTeachers|
      ensures Matches(AllTeachers[k], "CHEN", Name, Subject) <==> k == 1
    {
      ChenMatchesOnlyMichael(k);
    }
    KeepMatchingOnlyOne(AllTeachers, "CHEN", Name, Subject, 1);
  }

  /** Clearing the search bar brings the whole directory back. */
  method ClearShowsAllTeachers(bar: SearchBar) returns (shown: seq<Teacher>)
    modifies bar
    ensures shown == FilteredTeachers(bar.PageTerm())
    ensures shown == AllTeachers && !NoResultsShown(bar.PageTerm())
  {
    bar.Clear();
    shown := FilteredTeachers(bar.PageTerm());
  }
}

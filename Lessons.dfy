/**
 * The lesson list: a constant list of lessons searched by title or level
 * through the search bar.
 */
module Lessons {
  import opened Text
  import opened Catalogue
  import opened SearchBar

  /** A lesson card; its colour is presentation only. */
  datatype Lesson = Lesson(title: string, level: string, duration: string, students: nat)

  const AllLessons: seq<Lesson> := [
    Lesson("基礎英語會話", "初級", "4 週", 120),
    Lesson("商務英語寫作", "中級", "6 週", 85),
    Lesson("學術英語閱讀", "高級", "8 週", 45)
  ]

  function Title(l: Lesson): string { l.title }
  function Level(l: Lesson): string { l.level }

  /** The lessons shown for a search term. */
  function FilteredLessons(term: string): (shown: seq<Lesson>)
    ensures |shown| <= |AllLessons|
    ensures forall l :: l in shown ==> l in AllLessons
  {
    Filter(AllLessons, term, Title, Level)
  }

  /** The "no lesson matches" message replaces the grid when nothing is shown. */
  predicate NoResultsShown(term: string)
    ensures NoResultsShown(term) ==> term != ""
  {
    |FilteredLessons(term)| == 0
  }

  /** What the list shows for a term: everything for the empty term, and the
      general filter agrees with that shortcut; otherwise exactly the lessons
      whose lower-cased title or level contains the lower-cased term, in list
      order; searching the shown list again by the same term shows the same
      list. */
  lemma FilteredLessonsSpec(term: string)
    ensures term == "" ==> FilteredLessons(term) == AllLessons
    ensures FilteredLessons(term) == KeepMatching(AllLessons, term, Title, Level)
    ensures forall l :: l in FilteredLessons(term) ==>
      l in AllLessons && (Contains(Lower(l.title), Lower(term)) || Contains(Lower(l.level), Lower(term)))
    ensures forall l :: l in AllLessons && (Contains(Lower(l.title), Lower(term)) || Contains(Lower(l.level), Lower(term))) ==>
      l in FilteredLessons(term)
    ensures IsSubsequence(FilteredLessons(term), AllLessons) && |FilteredLessons(term)| <= |AllLessons|
    ensures Filter(FilteredLessons(term), term, Title, Level) == FilteredLessons(term)
  {
    ShortcutAgrees(AllLessons, term, Title, Level);
    FilterSound(AllLessons, term, Title, Level);
    FilterComplete(AllLessons, term, Title, Level);
    FilterKeepsOrder(AllLessons, term, Title, Level);
    FilterIdempotent(AllLessons, term, Title, Level);
  }

  /** Search ignores case: terms that lower-case alike show the same lessons. */
  lemma LessonSearchIgnoresCase(term1: string, term2: string)
    requires Lower(term1) == Lower(term2)
    ensures FilteredLessons(term1) == FilteredLessons(term2)
  {
    FilterIgnoresCase(AllLessons, term1, term2, Title, Level);
  }

  /** The "no results" message appears exactly when the term is non-empty and
      occurs in no lesson's title or level. */
  lemma NoLessonResultsIff(term: string)
    ensures NoResultsShown(term) <==>
      term != "" && forall l :: l in AllLessons ==>
        !Contains(Lower(l.title), Lower(term)) && !Contains(Lower(l.level), Lower(term))
  {
    FilterEmptyIff(AllLessons, term, Title, Level);
    forall l | l in AllLessons {
      MatchesIsSubstring(l, term, Title, Level);
    }
    if term == "" {
      assert AllLessons[0] in AllLessons;
    }
  }

  /** The character 高 does not occur in the text, so "高級" is not in its lower-cased form. */
  lemma NoGao(text: string)
    requires '高' !in text
    ensures !Includes(Lower(text), "高級")
  {
    var lowered := Lower(text);
    forall i | 0 <= i < |lowered| ensures lowered[i] != '高' {
      assert text[i] != '高';
    }
    AbsentFirstChar(lowered, "高級");
  }

  /** Of the three lessons, only the advanced one matches "高級", through its level. */
  lemma AdvancedMatchesOnlyThird(k: nat)
    requires k < |AllLessons|
    ensures Matches(AllLessons[k], "高級", Title, Level) <==> k == 2
  {
    LowerOfLowercase("高級");
    if k == 0 {
      NoGao("基礎英語會話");
      NoGao("初級");
    } else if k == 1 {
      NoGao("商務英語寫作");
      NoGao("中級");
    } else {
      LowerOfLowercase("高級");
      PresentAt(Lower("高級"), "高級", 0);
    }
  }

  /** Searching for the level "高級" shows the advanced lesson alone: the
      level field is searched as well as the title. */
  lemma SearchingAdvancedLevel()
    ensures FilteredLessons("高級") == [AllLessons[2]]
  {
    forall k | 0 <= k < |AllLessons|
      ensures Matches(AllLessons[k], "高級", Title, Level) <==> k == 2
    {
      AdvancedMatchesOnlyThird(k);
    }
    KeepMatchingOnlyOne(AllLessons, "高級", Title, Level, 2);
  }

  /** Clearing the search bar brings the whole lesson list back. */
  method ClearShowsAllLessons(bar: SearchBar) returns (shown: seq<Lesson>)
    modifies bar
    ensures shown == FilteredLessons(bar.PageTerm())
    ensures shown == AllLessons && !NoResultsShown(bar.PageTerm())
  {
    bar.Clear();
    shown := FilteredLessons(bar.PageTerm());
  }
}

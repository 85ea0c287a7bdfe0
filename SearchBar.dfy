/**
 * The search box shared by the teacher and lesson pages. It keeps the typed
 * text in `searchTerm` and reports values to the page through `onSearch`;
 * the page stores the last reported value as its own search term.
 */
module SearchBar {

  class SearchBar {
    /** The text in the input box. */
    var searchTerm: string
    /** Every value passed to `onSearch`, oldest first. */
    var reported: seq<string>

    /** The page's search term: its initial "" until the first report, then
        the last value reported. */
    function PageTerm(): string
      reads this
    {
      if reported == [] then "" else reported[|reported| - 1]
    }

    /** The page always searches for what the box shows. */
    ghost predicate Valid()
      reads this
    {
      PageTerm() == searchTerm
    }

    /** The clear button is rendered only while the box holds some text, that
        is, exactly while the page is searching for a non-empty term. */
    function ClearOffered(): (offered: bool)
      reads this
      requires Valid()
      ensures offered <==> PageTerm() != ""
    {
      searchTerm != ""
    }

    constructor ()
      ensures Valid()
      ensures searchTerm == "" && reported == []
    {
      searchTerm := "";
      reported := [];
    }

    /** Typing: the box takes the new value and reports exactly that value. */
    method Change(value: string)
      modifies this
      ensures searchTerm == value
      ensures reported == old(reported) + [value]
      ensures Valid()
    {
      searchTerm := value;
      reported := reported + [value];
    }

    /** Submitting the form reports the current text without changing it. */
    method Submit()
      modifies this
      ensures searchTerm == old(searchTerm)
      ensures reported == old(reported) + [old(searchTerm)]
      ensures Valid()
    {
      reported := reported + [searchTerm];
    }

    /** The clear button empties the box and reports the empty term. */
    method Clear()
      modifies this
      ensures searchTerm == ""
      ensures reported == old(reported) + [""]
      ensures Valid() && !ClearOffered()
    {
      searchTerm := "";
      reported := reported + [""];
    }
  }
}

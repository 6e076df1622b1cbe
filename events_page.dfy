/** The list page: search box, category multi-select and the visible events. */
module EventsPage {
  import opened EventModel
  import opened Text
  import Seqs

  /** The search check: the lower-cased term occurs in the lower-cased title,
      description, location, or some category. There is no special case for an
      empty term: it matches because every string includes the empty string. */
  predicate MatchesSearch(e: Event, searchTerm: string)
    ensures searchTerm == "" ==> MatchesSearch(e, searchTerm)
  {
    var t := Lower(searchTerm);
    Contains(Lower(e.title), t)
    || Contains(Lower(e.description), t)
    || Contains(Lower(e.location), t)
    || SomeCategoryContains(e.categories, t)
  }

  /** `categories.some(category => category.toLowerCase().includes(t))`. */
  predicate SomeCategoryContains(categories: seq<string>, t: string)
  {
    exists c :: c in categories && Contains(Lower(c), t)
  }

  /** The category check: no selection, or some category of the event is selected
      (exact, case-sensitive comparison). */
  predicate MatchesCategories(e: Event, selectedCategories: seq<string>)
    ensures selectedCategories == [] ==> MatchesCategories(e, selectedCategories)
    ensures e.categories == [] && selectedCategories != [] ==> !MatchesCategories(e, selectedCategories)
  {
    |selectedCategories| == 0 || exists c :: c in e.categories && c in selectedCategories
  }

  function SearchPred(searchTerm: string): Event -> bool
  {
    e => MatchesSearch(e, searchTerm)
  }

  function CategoryPred(selectedCategories: seq<string>): Event -> bool
  {
    e => MatchesCategories(e, selectedCategories)
  }

  function KeepPred(searchTerm: string, selectedCategories: seq<string>): Event -> bool
  {
    e => MatchesSearch(e, searchTerm) && MatchesCategories(e, selectedCategories)
  }

  /** `filteredEvents`: the events passing both checks, in list order. */
  function FilteredEvents(events: seq<Event>, searchTerm: string, selectedCategories: seq<string>): (r: seq<Event>)
    ensures Seqs.IsSubsequence(r, events)
    ensures forall e :: e in r <==> e in events && MatchesSearch(e, searchTerm) && MatchesCategories(e, selectedCategories)
  {
    Seqs.Filter(events, KeepPred(searchTerm, selectedCategories))
  }

  /** No search term and no selected category show the whole list. */
  lemma NoFilterShowsAll(events: seq<Event>)
    ensures FilteredEvents(events, "", []) == events
  {
    assert forall i :: 0 <= i < |events| ==> KeepPred("", [])(events[i]);
    Seqs.FilterKeepsAll(events, KeepPred("", []));
  }

  /** The two checks are independent: the visible list is the search result
      narrowed by the category filter, and the category result narrowed by the search. */
  lemma FilterIsConjunction(events: seq<Event>, searchTerm: string, selectedCategories: seq<string>)
    ensures FilteredEvents(events, searchTerm, []) == Seqs.Filter(events, SearchPred(searchTerm))
    ensures FilteredEvents(events, "", selectedCategories) == Seqs.Filter(events, CategoryPred(selectedCategories))
    ensures FilteredEvents(events, searchTerm, selectedCategories)
         == Seqs.Filter(FilteredEvents(events, searchTerm, []), CategoryPred(selectedCategories))
    ensures FilteredEvents(events, searchTerm, selectedCategories)
         == Seqs.Filter(FilteredEvents(events, "", selectedCategories), SearchPred(searchTerm))
  {
    Seqs.FilterCongruence(events, KeepPred(searchTerm, []), SearchPred(searchTerm));
    assert forall e :: KeepPred("", selectedCategories)(e) == CategoryPred(selectedCategories)(e);
    Seqs.FilterCongruence(events, KeepPred("", selectedCategories), CategoryPred(selectedCategories));
    Seqs.FilterConjunction(events, SearchPred(searchTerm), CategoryPred(selectedCategories),
      KeepPred(searchTerm, selectedCategories));
    Seqs.FilterConjunction(events, CategoryPred(selectedCategories), SearchPred(searchTerm),
      KeepPred(searchTerm, selectedCategories));
  }

  /** Matching ignores the case of the search term. */
  lemma SearchIgnoresTermCase(e: Event, searchTerm: string)
    ensures MatchesSearch(e, Lower(searchTerm)) == MatchesSearch(e, searchTerm)
  {
    LowerIdempotent(searchTerm);
  }

  /** Matching ignores case on both sides: events whose searched fields agree up to
      case, searched with terms that agree up to case, match alike. */
  lemma SearchIgnoresCase(e1: Event, e2: Event, t1: string, t2: string)
    requires Lower(t1) == Lower(t2)
    requires Lower(e1.title) == Lower(e2.title) && Lower(e1.description) == Lower(e2.description)
    requires Lower(e1.location) == Lower(e2.location)
    requires Seqs.Map(e1.categories, Lower) == Seqs.Map(e2.categories, Lower)
    ensures MatchesSearch(e1, t1) == MatchesSearch(e2, t2)
  {
    CategoriesAlikeUpToCase(e1.categories, e2.categories, Lower(t1));
    CategoriesAlikeUpToCase(e2.categories, e1.categories, Lower(t1));
  }

  lemma CategoriesAlikeUpToCase(cs1: seq<string>, cs2: seq<string>, t: string)
    requires Seqs.Map(cs1, Lower) == Seqs.Map(cs2, Lower)
    ensures SomeCategoryContains(cs1, t) ==> SomeCategoryContains(cs2, t)
  {
    if SomeCategoryContains(cs1, t) {
      var c :| c in cs1 && Contains(Lower(c), t);
      var k :| 0 <= k < |cs1| && cs1[k] == c;
      assert Seqs.Map(cs1, Lower)[k] == Lower(cs2[k]);
      assert cs2[k] in cs2;
    }
  }

  /** A term occurring verbatim in a searched field is always found. */
  lemma VerbatimOccurrenceIsFound(e: Event, searchTerm: string)
    requires Contains(e.title, searchTerm) || Contains(e.description, searchTerm)
          || Contains(e.location, searchTerm) || exists c :: c in e.categories && Contains(c, searchTerm)
    ensures MatchesSearch(e, searchTerm)
  {
    if Contains(e.title, searchTerm) {
      ContainsLower(e.title, searchTerm);
    } else if Contains(e.description, searchTerm) {
      ContainsLower(e.description, searchTerm);
    } else if Contains(e.location, searchTerm) {
      ContainsLower(e.location, searchTerm);
    } else {
      var c :| c in e.categories && Contains(c, searchTerm);
      ContainsLower(c, searchTerm);
    }
  }

  /** An event without categories never passes a non-empty category selection. */
  lemma UncategorisedNeverSelected(events: seq<Event>, e: Event, searchTerm: string, selectedCategories: seq<string>)
    requires e.categories == [] && selectedCategories != []
    ensures e !in FilteredEvents(events, searchTerm, selectedCategories)
  {
  }

  /** Search is case-insensitive but category selection is exact: an event tagged
      "Music" is found by the term "music" yet is hidden when "music" is selected. */
  lemma CategorySelectionIsCaseSensitive(e: Event)
    requires e.categories == ["Music"]
    ensures MatchesSearch(e, "music")
    ensures MatchesCategories(e, ["Music"])
    ensures !MatchesCategories(e, ["music"])
  {
    assert Lower("Music") == "music";
    assert StartsWith(Lower("Music"), Lower("music"));
    assert "Music" in e.categories;
  }

  function CategoriesOf(e: Event): seq<string>
  {
    e.categories
  }

  /** `events.flatMap(event => event.categories)`. */
  function EventCategories(events: seq<Event>): (r: seq<string>)
    ensures forall c :: c in r <==> exists e :: e in events && c in e.categories
  {
    var r := Seqs.FlatMap(events, CategoriesOf);
    assert forall c :: c in r ==> exists e :: e in events && c in e.categories by {
      forall c | c in r ensures exists e :: e in events && c in e.categories {
        var i :| 0 <= i < |events| && c in events[i].categories;
        assert events[i] in events;
      }
    }
    assert forall c :: (exists e :: e in events && c in e.categories) ==> c in r by {
      forall c, e | e in events && c in e.categories ensures c in r {
        var i :| 0 <= i < |events| && events[i] == e;
      }
    }
    r
  }

  /** The flattened list is the events' category lists laid end to end, in list
      order and with every repeat: no list gives nothing, one event gives its own
      list, and a concatenation of lists flattens piecewise. */
  lemma EventCategoriesConcatenate(a: seq<Event>, b: seq<Event>, e: Event)
    ensures EventCategories([]) == []
    ensures EventCategories([e]) == e.categories
    ensures EventCategories(a + b) == EventCategories(a) + EventCategories(b)
  {
    Seqs.FlatMapSingleton(e, CategoriesOf);
    Seqs.FlatMapAppend(a, b, CategoriesOf);
  }

  /** `allCategories`: every category of some event, once each. */
  function AllCategories(events: seq<Event>): (r: seq<string>)
    ensures Seqs.NoDuplicates(r)
    ensures forall c :: c in r <==> exists e :: e in events && c in e.categories
  {
    Seqs.Dedup(EventCategories(events))
  }

  /** `allCategories` lists the categories in the order they first appear in the list. */
  lemma AllCategoriesInFirstOccurrenceOrder(events: seq<Event>)
    ensures Seqs.IsSubsequence(AllCategories(events), EventCategories(events))
    ensures forall i, j :: 0 <= i < j < |AllCategories(events)| ==>
      Seqs.FirstIndex(EventCategories(events), AllCategories(events)[i])
      < Seqs.FirstIndex(EventCategories(events), AllCategories(events)[j])
  {
    Seqs.DedupFirstOccurrenceOrder(EventCategories(events));
  }

  /** Clicking a selected tag: the selection without that category, others in order. */
  function RemoveTag(selectedCategories: seq<string>, category: string): (r: seq<string>)
    ensures category !in r
    ensures forall c :: c in r <==> c in selectedCategories && c != category
    ensures Seqs.IsSubsequence(r, selectedCategories)
  {
    Seqs.Filter(selectedCategories, c => c != category)
  }

  /** "Clear all": the selection becomes empty. */
  function ClearAll(): (r: seq<string>)
    ensures forall e: Event :: MatchesCategories(e, r)
  {
    []
  }

  /** After "Clear all" every search match is shown, and nothing the selection showed is lost. */
  lemma ClearAllShowsEverySearchMatch(events: seq<Event>, searchTerm: string, selectedCategories: seq<string>)
    ensures |ClearAll()| == 0
    ensures FilteredEvents(events, searchTerm, ClearAll()) == Seqs.Filter(events, SearchPred(searchTerm))
    ensures Seqs.IsSubsequence(FilteredEvents(events, searchTerm, selectedCategories),
                               FilteredEvents(events, searchTerm, ClearAll()))
  {
    FilterIsConjunction(events, searchTerm, selectedCategories);
    Seqs.FilterMonotone(events, KeepPred(searchTerm, selectedCategories), KeepPred(searchTerm, []));
  }
}

/**
 * The home page: a search box and the filter bar's two selections narrow
 * the catalogue to the events that match all three.
 */
module Home {
  import opened Options
  import opened Catalogue
  import Text
  import Lists
  import FilterBar

  /** Some tag of `h`, lower-cased, contains `q`. */
  predicate SomeTagIncludes(h: Hackathon, q: string) {
    exists t :: t in h.tags && Text.Includes(Text.ToLower(t), q)
  }

  /** The search box test: empty, or found case-insensitively in the title, a tag or the description. */
  function MatchesSearch(h: Hackathon, query: string): (b: bool)
    ensures query == "" ==> b
    ensures |query| > |h.title| && |query| > |h.description| && (forall t :: t in h.tags ==> |query| > |t|)
      ==> !b
  {
    var q := Text.ToLower(query);
    query == "" ||
    Text.Includes(Text.ToLower(h.title), q) ||
    SomeTagIncludes(h, q) ||
    Text.Includes(Text.ToLower(h.description), q)
  }

  /** The three tests, all of which an event must pass. */
  function Matches(h: Hackathon, query: string, status: Option<string>, platform: Option<string>): (b: bool)
    ensures b ==> MatchesSearch(h, query)
    ensures !FilterBar.HasActiveFilters(status, platform) ==> (b <==> MatchesSearch(h, query))
  {
    && MatchesSearch(h, query)
    && (!FilterBar.IsSet(status) || h.status.Name() == status.value)
    && (!FilterBar.IsSet(platform) || h.source == platform.value)
  }

  /** The events shown for a search query and the two selections. */
  function FilterEvents(events: seq<Hackathon>, query: string, status: Option<string>, platform: Option<string>): (r: seq<Hackathon>)
    ensures Lists.IsSubsequence(r, events)
    ensures forall i :: 0 <= i < |r| ==> MatchesSearch(r[i], query)
    ensures FilterBar.IsSet(status) ==> forall i :: 0 <= i < |r| ==> r[i].status.Name() == status.value
    ensures FilterBar.IsSet(platform) ==> forall i :: 0 <= i < |r| ==> r[i].source == platform.value
    ensures forall i :: 0 <= i < |events| && Matches(events[i], query, status, platform) ==> events[i] in r
    ensures forall h :: multiset(r)[h] == if Matches(h, query, status, platform) then multiset(events)[h] else 0
  {
    Lists.FilterIsSubsequence(events, h => Matches(h, query, status, platform));
    Lists.FilterCount(events, h => Matches(h, query, status, platform));
    Lists.Filter(events, h => Matches(h, query, status, platform))
  }

  /** With nothing typed and nothing selected, every event is shown, in catalogue order. */
  lemma {:induction false} NoFiltersShowAll(events: seq<Hackathon>)
    ensures FilterEvents(events, "", None, None) == events
  {
    Lists.FilterKeepsAll(events, h => Matches(h, "", None, None));
  }

  /** `includes` on each field is a search for a position at which the lower-cased query occurs. */
  lemma SearchIsSubstringSearch(h: Hackathon, query: string)
    requires query != ""
    ensures MatchesSearch(h, query) <==>
      FieldContains(h.title, query) ||
      (exists t :: t in h.tags && FieldContains(t, query)) ||
      FieldContains(h.description, query)
  {
    var q := Text.ToLower(query);
    Text.IncludesIffOccurs(Text.ToLower(h.title), q);
    Text.IncludesIffOccurs(Text.ToLower(h.description), q);
    forall t | t in h.tags
      ensures Text.Includes(Text.ToLower(t), q) <==> FieldContains(t, query)
    {
      Text.IncludesIffOccurs(Text.ToLower(t), q);
    }
  }

  /** The lower-cased `query` occurs at some position of the lower-cased `field`. */
  ghost predicate FieldContains(field: string, query: string) {
    exists k :: Text.OccursAt(Text.ToLower(field), Text.ToLower(query), k)
  }

  /** Typing the query in lower case shows the same events. */
  lemma {:induction false} SearchIgnoresCase(events: seq<Hackathon>, query: string, status: Option<string>, platform: Option<string>)
    ensures FilterEvents(events, Text.ToLower(query), status, platform) == FilterEvents(events, query, status, platform)
  {
    Text.ToLowerIdempotent(query);
    assert (Text.ToLower(query) == "") == (query == "");
    Lists.FilterCongruent(events,
      h => Matches(h, Text.ToLower(query), status, platform),
      h => Matches(h, query, status, platform));
  }

  /** Selecting a status or a platform never adds an event: it keeps a subsequence of what was shown. */
  lemma {:induction false} SelectionsOnlyNarrow(events: seq<Hackathon>, query: string, status: Option<string>, platform: Option<string>)
    ensures Lists.IsSubsequence(FilterEvents(events, query, status, platform), FilterEvents(events, query, None, platform))
    ensures Lists.IsSubsequence(FilterEvents(events, query, status, platform), FilterEvents(events, query, status, None))
  {
    Lists.FilterMonotone(events,
      h => Matches(h, query, status, platform),
      h => Matches(h, query, None, platform));
    Lists.FilterMonotone(events,
      h => Matches(h, query, status, platform),
      h => Matches(h, query, status, None));
  }

  /** A selection that is null or empty filters nothing, which is when the reset control is hidden. */
  lemma {:induction false} InactiveSelectionsIgnored(events: seq<Hackathon>, query: string, status: Option<string>, platform: Option<string>)
    requires !FilterBar.HasActiveFilters(status, platform)
    ensures FilterEvents(events, query, status, platform) == FilterEvents(events, query, None, None)
  {
    Lists.FilterCongruent(events,
      h => Matches(h, query, status, platform),
      h => Matches(h, query, None, None));
  }

  /** The state of the home page. */
  class HomePage {
    /** The catalogue the page lists. */
    const events: seq<Hackathon>
    var searchQuery: string
    var selectedStatus: Option<string>
    var selectedPlatform: Option<string>

    /** The page over `catalogue`, which the application fills with `Hackathons`. */
    constructor(catalogue: seq<Hackathon>)
      ensures events == catalogue
      ensures searchQuery == "" && selectedStatus == None && selectedPlatform == None
      ensures Shown() == events
    {
      events := catalogue;
      searchQuery, selectedStatus, selectedPlatform := "", None, None;
      new;
      NoFiltersShowAll(events);
    }

    /** The events listed on the page. */
    function Shown(): (r: seq<Hackathon>)
      reads this
      ensures Lists.IsSubsequence(r, events)
    {
      FilterEvents(events, searchQuery, selectedStatus, selectedPlatform)
    }

    /** Whether the empty-results panel offers its own reset button. */
    function OffersResetWhenEmpty(): (b: bool)
      reads this
      ensures b ==> Shown() == []
      ensures Shown() == [] && !b ==> events == []
    {
      assert searchQuery == "" && !FilterBar.HasActiveFilters(selectedStatus, selectedPlatform) ==> Shown() == events by {
        if searchQuery == "" && !FilterBar.HasActiveFilters(selectedStatus, selectedPlatform) {
          InactiveSelectionsIgnored(events, searchQuery, selectedStatus, selectedPlatform);
          NoFiltersShowAll(events);
        }
      }
      Shown() == [] && (searchQuery != "" || FilterBar.IsSet(selectedStatus) || FilterBar.IsSet(selectedPlatform))
    }

    /** Typing in the search box. */
    method Search(query: string)
      modifies this
      ensures searchQuery == query
      ensures selectedStatus == old(selectedStatus) && selectedPlatform == old(selectedPlatform)
    {
      searchQuery := query;
    }

    /** Clicking a status badge. */
    method ClickStatus(status: string)
      modifies this
      ensures selectedStatus == FilterBar.Toggle(old(selectedStatus), status)
      ensures searchQuery == old(searchQuery) && selectedPlatform == old(selectedPlatform)
    {
      selectedStatus := FilterBar.Toggle(selectedStatus, status);
    }

    /** Clicking a platform badge. */
    method ClickPlatform(platform: string)
      modifies this
      ensures selectedPlatform == FilterBar.Toggle(old(selectedPlatform), platform)
      ensures searchQuery == old(searchQuery) && selectedStatus == old(selectedStatus)
    {
      selectedPlatform := FilterBar.Toggle(selectedPlatform, platform);
    }

    /** Clears the query and both selections, which shows the whole catalogue again. */
    method ResetFilters()
      modifies this
      ensures searchQuery == "" && selectedStatus == None && selectedPlatform == None
      ensures !FilterBar.HasActiveFilters(selectedStatus, selectedPlatform)
      ensures Shown() == events
    {
      searchQuery := "";
      selectedStatus := None;
      selectedPlatform := None;
      NoFiltersShowAll(events);
    }
  }
}

/**
 * The bookmarks page: the catalogue entries whose ids are in the stored
 * bookmark list, in catalogue order.
 */
module Bookmarks {
  import opened Catalogue
  import opened BookmarkStore
  import Lists
  import EventCard

  /** The catalogue entries whose id occurs in `ids`. */
  function BookmarkedEvents(events: seq<Hackathon>, ids: seq<string>): (r: seq<Hackathon>)
    ensures Lists.IsSubsequence(r, events)
    ensures forall i :: 0 <= i < |r| ==> r[i].id in ids
    ensures forall i :: 0 <= i < |events| && events[i].id in ids ==> events[i] in r
    ensures forall h :: multiset(r)[h] == if h.id in ids then multiset(events)[h] else 0
  {
    Lists.FilterIsSubsequence(events, (h: Hackathon) => h.id in ids);
    Lists.FilterCount(events, (h: Hackathon) => h.id in ids);
    Lists.Filter(events, (h: Hackathon) => h.id in ids)
  }

  /**
   * Only which ids are stored matters: their order, their repetitions and
   * ids that name no catalogue entry do not change the page.
   */
  lemma {:induction false} OnlyStoredIdsOfEventsMatter(events: seq<Hackathon>, a: seq<string>, b: seq<string>)
    requires forall i :: 0 <= i < |events| ==> (events[i].id in a <==> events[i].id in b)
    ensures BookmarkedEvents(events, a) == BookmarkedEvents(events, b)
  {
    forall h | h in events ensures (h.id in a) == (h.id in b) {
      var i :| 0 <= i < |events| && events[i] == h;
    }
    Lists.FilterCongruent(events, (h: Hackathon) => h.id in a, (h: Hackathon) => h.id in b);
  }

  /** Storing ids of no catalogue entry adds nothing to the page. */
  lemma UnknownIdsIgnored(events: seq<Hackathon>, ids: seq<string>, unknown: seq<string>)
    requires forall i :: 0 <= i < |events| ==> events[i].id !in unknown
    ensures BookmarkedEvents(events, ids + unknown) == BookmarkedEvents(events, ids)
  {
    OnlyStoredIdsOfEventsMatter(events, ids + unknown, ids);
  }

  /** A stored id listed twice still shows its event once. */
  lemma NoDuplicateEvents(events: seq<Hackathon>, ids: seq<string>)
    requires DistinctIds(events)
    ensures DistinctIds(BookmarkedEvents(events, ids))
  {
    Lists.SubsequenceKeepsDistinct(BookmarkedEvents(events, ids), events, Id);
  }

  /** A browser that never stored bookmarks shows none. */
  lemma NothingStoredShowsNothing(events: seq<Hackathon>)
    ensures BookmarkedEvents(events, []) == []
  {
  }

  /**
   * The list the page shows when it next loads: after a toggle on, it contains
   * the event; after a toggle off, it omits it.
   */
  lemma ToggleShowsOnPage(events: seq<Hackathon>, ids: seq<string>, h: Hackathon)
    requires h in events
    ensures h in BookmarkedEvents(events, Toggled(ids, h.id, false))
    ensures h !in BookmarkedEvents(events, Toggled(ids, h.id, true))
  {
    ToggleAgreesWithFlag(ids, h.id, false);
    ToggleAgreesWithFlag(ids, h.id, true);
  }

  /** The state of the bookmarks page. */
  class BookmarksPage {
    const events: seq<Hackathon>
    var bookmarked: seq<Hackathon>

    constructor(catalogue: seq<Hackathon>)
      ensures events == catalogue && bookmarked == []
    {
      events := catalogue;
      bookmarked := [];
    }

    /** Re-reads the stored list (on mount, and on storage events from other tabs). */
    method LoadBookmarks(store: Store)
      modifies this
      ensures bookmarked == BookmarkedEvents(events, store.Ids())
    {
      bookmarked := BookmarkedEvents(events, store.Ids());
    }
  }

  /**
   * Un-bookmarking an event from its card on this page rewrites the stored
   * list but not the page. The page re-reads storage only when it mounts and
   * on `storage` events, and the browser does not deliver those to the tab
   * that wrote. So the card stays listed although its event is no longer
   * among the stored bookmarks.
   */
  method ToggleOffOnPageKeepsCard(page: BookmarksPage, card: EventCard.Card) returns (message: string)
    requires card.hackathon in page.events
    requires card.isBookmarked && card.hackathon.id in card.store.Ids()
    requires page.bookmarked == BookmarkedEvents(page.events, card.store.Ids())
    modifies card, card.store
    ensures card.hackathon in page.bookmarked
    ensures card.hackathon !in BookmarkedEvents(page.events, card.store.Ids())
  {
    ghost var ids := card.store.Ids();
    message := card.ToggleBookmark();
    ToggleShowsOnPage(page.events, ids, card.hackathon);
  }
}

/**
 * The card shown for one event on the home and bookmarks pages: a
 * coloured status ribbon and a bookmark button backed by the stored list.
 */
module EventCard {
  import opened Catalogue
  import opened BookmarkStore
  import Text
  import FilterBar

  /** The background class of the status ribbon. */
  function StatusColor(status: string): (c: string)
    ensures status in StatusNames <==> c != "bg-muted"
    ensures status in StatusNames ==> c == "bg-" + status
  {
    match status
    case "upcoming" => "bg-upcoming"
    case "ongoing" => "bg-ongoing"
    case "ending-soon" => "bg-ending-soon"
    case "closed" => "bg-closed"
    case _ => "bg-muted"
  }

  /** The four known statuses get four different colours, none of them the fallback. */
  lemma StatusColorsDistinct(a: Status, b: Status)
    ensures StatusColor(a.Name()) != "bg-muted"
    ensures a != b ==> StatusColor(a.Name()) != StatusColor(b.Name())
  {
    if a != b {
      var ca, cb := StatusColor(a.Name()), StatusColor(b.Name());
      assert ca[3..] == a.Name() && cb[3..] == b.Name();
    }
  }

  /** The ribbon text: the status with its first dash as a space, upper-cased. */
  function StatusRibbon(status: string): (ribbon: string)
    ensures |ribbon| == |status|
    ensures forall i :: 0 <= i < |ribbon| ==> !Text.IsAsciiLower(ribbon[i])
    ensures ribbon == Text.ToUpper(FilterBar.BadgeLabel(status))
  {
    Text.ToUpper(Text.ReplaceFirst(status, '-', ' '))
  }

  /** One event card and its bookmark flag. */
  class Card {
    const hackathon: Hackathon
    const store: Store
    var isBookmarked: bool

    /** A freshly rendered card shows the event as not bookmarked. */
    constructor(hackathon: Hackathon, store: Store)
      ensures this.hackathon == hackathon && this.store == store
      ensures !isBookmarked
    {
      this.hackathon := hackathon;
      this.store := store;
      isBookmarked := false;
    }

    /** The effect run when the card mounts: the flag reads the stored list. */
    method Load()
      modifies this
      ensures isBookmarked == (hackathon.id in store.Ids())
    {
      isBookmarked := hackathon.id in store.Ids();
    }

    /** The bookmark button: rewrite the stored list, flip the flag, report what happened. */
    method ToggleBookmark() returns (message: string)
      modifies this, store
      ensures store.Ids() == Toggled(old(store.Ids()), hackathon.id, old(isBookmarked))
      ensures isBookmarked == !old(isBookmarked)
      ensures isBookmarked == (hackathon.id in store.Ids())
      ensures message == ToggleMessage(old(isBookmarked))
    {
      var ids := store.Ids();
      var updated := Toggled(ids, hackathon.id, isBookmarked);
      store.Save(updated);
      ToggleAgreesWithFlag(ids, hackathon.id, isBookmarked);
      message := ToggleMessage(isBookmarked);
      isBookmarked := !isBookmarked;
    }
  }

  /** Bookmarking an event that was not stored and un-bookmarking it leaves the list as it was. */
  method ToggleTwice(card: Card)
    requires !card.isBookmarked && card.hackathon.id !in card.store.Ids()
    modifies card, card.store
    ensures card.store.Ids() == old(card.store.Ids())
    ensures !card.isBookmarked
  {
    ghost var before := card.store.Ids();
    var added := card.ToggleBookmark();
    var removed := card.ToggleBookmark();
    ToggleTwiceRestores(before, card.hackathon.id);
  }
}

/**
 * The detail page of one event: lookup by the id in the address, the
 * same bookmark button as the cards, and up to three related events.
 */
module EventDetail {
  import opened Options
  import opened Catalogue
  import opened BookmarkStore
  import Lists

  /** `events.find(h => h.id === id)`. */
  function Find(events: seq<Hackathon>, id: string): (r: Option<Hackathon>)
    ensures r == None <==> forall i :: 0 <= i < |events| ==> events[i].id != id
    ensures r != None ==> r.value in events && r.value.id == id
    decreases |events|
  {
    if events == [] then None
    else if events[0].id == id then Some(events[0])
    else
      var r := Find(events[1..], id);
      assert forall i :: 1 <= i < |events| ==> events[i] == events[1..][i - 1];
      r
  }

  /** Lookup returns the first entry with the id. */
  lemma {:induction false} FindIsFirst(events: seq<Hackathon>, id: string, k: int)
    requires 0 <= k < |events| && events[k].id == id
    requires forall j :: 0 <= j < k ==> events[j].id != id
    ensures Find(events, id) == Some(events[k])
    decreases k
  {
    if k > 0 {
      FindIsFirst(events[1..], id, k - 1);
    }
  }

  /** In a catalogue with distinct ids, looking up an entry's id finds that entry. */
  lemma FindById(events: seq<Hackathon>, k: int)
    requires DistinctIds(events) && 0 <= k < |events|
    ensures Find(events, events[k].id) == Some(events[k])
  {
    FindIsFirst(events, events[k].id, k);
  }

  /** Some tag of `h` is also a tag of `current`. */
  predicate SharesTag(h: Hackathon, current: Hackathon) {
    exists t :: t in h.tags && t in current.tags
  }

  /** Another event that shares a tag or the source with `current`. */
  function IsRelated(h: Hackathon, current: Hackathon): (b: bool)
    ensures b ==> h != current
  {
    h.id != current.id && (SharesTag(h, current) || h.source == current.source)
  }

  /** The related events in catalogue order, before the cut to three. */
  function Candidates(events: seq<Hackathon>, current: Hackathon): seq<Hackathon> {
    Lists.Filter(events, h => IsRelated(h, current))
  }

  /** The related events listed beside `current`. */
  function RelatedEvents(events: seq<Hackathon>, current: Hackathon): (r: seq<Hackathon>)
    ensures |r| <= 3
    ensures forall i :: 0 <= i < |r| ==> r[i].id != current.id
    ensures forall i :: 0 <= i < |r| ==> SharesTag(r[i], current) || r[i].source == current.source
    ensures Lists.IsSubsequence(r, events)
    ensures |r| < 3 ==> forall i :: 0 <= i < |events| && IsRelated(events[i], current) ==> events[i] in r
    ensures |r| < 3 ==> forall h :: multiset(r)[h] == if IsRelated(h, current) then multiset(events)[h] else 0
    ensures |r| == if |Candidates(events, current)| < 3 then |Candidates(events, current)| else 3
    ensures r == Candidates(events, current)[..|r|]
  {
    var all := Candidates(events, current);
    var r := if |all| <= 3 then all else all[..3];
    Lists.FilterIsSubsequence(events, h => IsRelated(h, current));
    Lists.FilterCount(events, h => IsRelated(h, current));
    PrefixIsSubsequence(r, all, events);
    r
  }

  /** A prefix of a subsequence of `s` is a subsequence of `s`. */
  lemma {:induction false} PrefixIsSubsequence(p: seq<Hackathon>, r: seq<Hackathon>, s: seq<Hackathon>)
    requires |p| <= |r| && p == r[..|p|]
    requires Lists.IsSubsequence(r, s)
    ensures Lists.IsSubsequence(p, s)
    decreases |s|
  {
    if p != [] {
      if r[0] == s[0] && Lists.IsSubsequence(r[1..], s[1..]) {
        PrefixIsSubsequence(p[1..], r[1..], s[1..]);
      } else {
        PrefixIsSubsequence(p, r, s[1..]);
      }
    }
  }

  /** A qualifying event left out of the list comes after every listed one. */
  lemma RelatedAreEarliest(events: seq<Hackathon>, current: Hackathon, k: int)
    requires 0 <= k < |events| && IsRelated(events[k], current)
    requires events[k] !in RelatedEvents(events, current)
    ensures forall h :: h in RelatedEvents(events, current) ==> h in events[..k]
  {
    var p := h => IsRelated(h, current);
    var r := RelatedEvents(events, current);
    var front := Lists.Filter(events[..k], p);
    var all := front + [events[k]] + Lists.Filter(events[k + 1..], p);
    Lists.FilterSplitAt(events, p, k);
    assert Candidates(events, current) == all;
    assert r == all[..|r|];
    AbsentStaysInFront(all, front, events[k], Lists.Filter(events[k + 1..], p), |r|);
    forall h | h in r ensures h in events[..k] {
      var i :| 0 <= i < |r| && r[i] == h;
      assert h == front[i];
    }
  }

  /** A prefix that does not reach `x` ends before it. */
  lemma AbsentStaysInFront(all: seq<Hackathon>, front: seq<Hackathon>, x: Hackathon, rest: seq<Hackathon>, n: int)
    requires all == front + [x] + rest && 0 <= n <= |all|
    ensures x !in all[..n] ==> n <= |front|
  {
    if n > |front| {
      assert all[..n][|front|] == x;
    }
  }

  /** The detail page for the id in the address. */
  class DetailPage {
    /** The event found for the address, `None` on the not-found page. */
    const hackathon: Option<Hackathon>
    const events: seq<Hackathon>
    const store: Store
    var isBookmarked: bool

    constructor(catalogue: seq<Hackathon>, id: string, store: Store)
      ensures events == catalogue && this.store == store
      ensures hackathon == Find(catalogue, id)
      ensures !isBookmarked
    {
      events := catalogue;
      hackathon := Find(catalogue, id);
      this.store := store;
      isBookmarked := false;
    }

    /** The effect run on mount: without an event nothing happens, else the flag reads the stored list. */
    method Load()
      modifies this
      ensures hackathon == None ==> isBookmarked == old(isBookmarked)
      ensures hackathon != None ==> isBookmarked == (hackathon.value.id in store.Ids())
    {
      if hackathon == None {
        return;
      }
      isBookmarked := hackathon.value.id in store.Ids();
    }

    /** The bookmark button, which only the found-event page renders. */
    method ToggleBookmark() returns (message: string)
      requires hackathon != None
      modifies this, store
      ensures store.Ids() == Toggled(old(store.Ids()), hackathon.value.id, old(isBookmarked))
      ensures isBookmarked == !old(isBookmarked)
      ensures isBookmarked == (hackathon.value.id in store.Ids())
      ensures message == ToggleMessage(old(isBookmarked))
    {
      var id := hackathon.value.id;
      var ids := store.Ids();
      store.Save(Toggled(ids, id, isBookmarked));
      ToggleAgreesWithFlag(ids, id, isBookmarked);
      message := ToggleMessage(isBookmarked);
      isBookmarked := !isBookmarked;
    }

    /** The related events listed beside the found event. */
    function Related(): (r: seq<Hackathon>)
      reads this
      requires hackathon != None
      ensures hackathon.value !in r
      ensures |r| <= 3
    {
      RelatedEvents(events, hackathon.value)
    }
  }
}

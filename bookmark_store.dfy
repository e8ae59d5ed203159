/**
 * The bookmark list kept in the browser's local storage under the key
 * `"bookmarks"`, and the rule by which a bookmark button rewrites it.
 */
module BookmarkStore {
  import opened Options
  import Lists

  /** The list of bookmarked event ids as stored under the key `"bookmarks"`. */
  class Store {
    /** The stored list; `None` while nothing has been written under the key. */
    var stored: Option<seq<string>>

    /** A browser that has never stored bookmarks. */
    constructor()
      ensures stored == None && Ids() == []
    {
      stored := None;
    }

    /** What a reader gets: the stored list, or the empty list when the key is missing. */
    function Ids(): (ids: seq<string>)
      reads this
      ensures stored == None ==> ids == []
      ensures stored != None ==> ids == stored.value
    {
      stored.GetOr([])
    }

    /** Overwrites the stored list. */
    method Save(ids: seq<string>)
      modifies this
      ensures stored == Some(ids) && Ids() == ids
    {
      stored := Some(ids);
    }
  }

  /**
   * The list a bookmark button writes for event `id` when its flag reads
   * `bookmarked`: every occurrence of `id` removed, or `id` appended.
   */
  function Toggled(ids: seq<string>, id: string, bookmarked: bool): (r: seq<string>)
    ensures bookmarked ==> id !in r && Lists.IsSubsequence(r, ids)
    ensures bookmarked ==> forall x :: x != id ==> multiset(r)[x] == multiset(ids)[x]
    ensures !bookmarked ==> |r| == |ids| + 1 && r[..|ids|] == ids && r[|ids|] == id
  {
    if bookmarked then
      Lists.FilterIsSubsequence(ids, x => x != id);
      Lists.FilterCount(ids, x => x != id);
      Lists.Filter(ids, x => x != id)
    else
      ids + [id]
  }

  /** The message shown after a toggle, chosen from the flag before it. */
  function ToggleMessage(wasBookmarked: bool): (message: string)
    ensures message == "Removed from bookmarks" <==> wasBookmarked
    ensures message == "Added to bookmarks" <==> !wasBookmarked
  {
    if wasBookmarked then "Removed from bookmarks" else "Added to bookmarks"
  }

  /** After a toggle the list holds `id` exactly when the new flag is set. */
  lemma ToggleAgreesWithFlag(ids: seq<string>, id: string, bookmarked: bool)
    ensures (id in Toggled(ids, id, bookmarked)) == !bookmarked
  {
    if !bookmarked {
      var r := Toggled(ids, id, bookmarked);
      assert r[|ids|] == id;
    }
  }

  /** Ids other than the toggled one stay bookmarked or unbookmarked as they were. */
  lemma {:induction false} ToggleKeepsOthers(ids: seq<string>, id: string, bookmarked: bool, other: string)
    requires other != id
    ensures (other in Toggled(ids, id, bookmarked)) == (other in ids)
  {
    var r := Toggled(ids, id, bookmarked);
    if bookmarked {
      assert multiset(r)[other] == multiset(ids)[other];
    } else {
      assert r == ids + [id];
    }
  }

  /** Removing an id that is not stored leaves the list as it is. */
  lemma {:induction false} RemoveAbsent(ids: seq<string>, id: string)
    requires id !in ids
    ensures Toggled(ids, id, true) == ids
  {
    Lists.FilterKeepsAll(ids, x => x != id);
  }

  /** Adding an absent id and then removing it restores the exact list. */
  lemma {:induction false} ToggleTwiceRestores(ids: seq<string>, id: string)
    requires id !in ids
    ensures Toggled(Toggled(ids, id, false), id, true) == ids
  {
    var p := (x: string) => x != id;
    Lists.FilterAppend(ids, [id], p);
    assert Lists.Filter([id], p) == [];
    RemoveAbsent(ids, id);
    assert ids + [] == ids;
  }
}

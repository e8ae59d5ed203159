/**
 * The filter bar of the home page: a row of status badges and a row of
 * platform badges, each toggling one selection, and a reset control.
 */
module FilterBar {
  import opened Options
  import Text
  import Catalogue

  /** The status badges, in display order. */
  const Statuses: seq<string> := ["upcoming", "ongoing", "ending-soon", "closed"]

  /** The platform badges, in display order. */
  const Platforms: seq<string> := ["Devpost", "MLH", "Unstop", "DoraHacks", "Hack2Skill", "Devfolio", "LabAI"]

  /** A badge is drawn highlighted when it is the current selection. */
  predicate IsHighlighted(selection: Option<string>, badge: string) {
    selection == Some(badge)
  }

  /** A selection counts as set when it is truthy: neither null nor the empty string. */
  function IsSet(selection: Option<string>): (b: bool)
    ensures b <==> exists badge :: badge != "" && IsHighlighted(selection, badge)
  {
    assert selection.Some? ==> IsHighlighted(selection, selection.value);
    selection.Some? && selection.value != ""
  }

  /** The selection reported when `badge` is clicked: cleared if it was selected, else `badge`. */
  function Toggle(selection: Option<string>, badge: string): (r: Option<string>)
    ensures IsHighlighted(r, badge) == !IsHighlighted(selection, badge)
    ensures forall other :: other != badge ==> !IsHighlighted(r, other)
  {
    if selection == Some(badge) then None else Some(badge)
  }

  /** Clicking the same badge twice clears the selection, unless that badge was the one selected. */
  lemma ToggleTwice(selection: Option<string>, badge: string)
    ensures Toggle(Toggle(selection, badge), badge) == if selection == Some(badge) then selection else None
  {
  }

  /** Whether the reset control is shown. */
  function HasActiveFilters(status: Option<string>, platform: Option<string>): (b: bool)
    ensures b <==>
      exists badge :: badge != "" && (IsHighlighted(status, badge) || IsHighlighted(platform, badge))
  {
    IsSet(status) || IsSet(platform)
  }

  /** The text of a status badge: the first `-` becomes a space. */
  function BadgeLabel(status: string): (caption: string)
    ensures |caption| == |status|
    ensures forall i :: 0 <= i < |status| && status[i] != '-' ==> caption[i] == status[i]
  {
    Text.ReplaceFirst(status, '-', ' ')
  }

  /** Only the first dash is replaced; any later dash is shown as it is. */
  lemma BadgeLabelFirstDash(before: string, after: string)
    requires '-' !in before
    ensures BadgeLabel(before + "-" + after) == before + " " + after
  {
    var s := before + "-" + after;
    assert s[|before|] == '-' && s[..|before|] == before && s[|before| + 1..] == after;
    Text.IndexOfFirst(s, '-', |before|);
  }

  /** The status badges are exactly the names a catalogue status can have. */
  lemma BadgesAreStatusNames()
    ensures forall name :: name in Statuses <==> name in Catalogue.StatusNames
    ensures |Statuses| == |Catalogue.StatusNames|
    ensures forall i, j :: 0 <= i < j < |Statuses| ==> Statuses[i] != Statuses[j]
  {
  }

  /** Every event of the catalogue can be reached by one status badge and one platform badge. */
  lemma CatalogueCoveredByBadges()
    ensures forall h :: h in Catalogue.Hackathons ==> h.status.Name() in Statuses && h.source in Platforms
  {
    forall i | 0 <= i < |Catalogue.Hackathons|
      ensures Catalogue.Hackathons[i].status.Name() in Statuses && Catalogue.Hackathons[i].source in Platforms
    {
      EntryCoveredByBadges(i);
    }
  }

  /** Entry `i` of the catalogue has a status badge and a platform badge. */
  lemma EntryCoveredByBadges(i: int)
    requires 0 <= i < |Catalogue.Hackathons|
    ensures Catalogue.Hackathons[i].status.Name() in Statuses && Catalogue.Hackathons[i].source in Platforms
  {
    var h := Catalogue.Hackathons[i];
    BadgesAreStatusNames();
    assert h.source in Platforms;
  }
}

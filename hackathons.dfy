/**
 * The hackathon record and the constant catalogue that the home page,
 * the detail page and the bookmarks page all read.
 */
module Catalogue {
  import Text
  import Lists
  import Dates

  /** The four states an event can be in. */
  datatype Status = Upcoming | Ongoing | Closed | EndingSoon {

    /** The string the record stores for this state. */
    function Name(): (s: string)
      ensures s in StatusNames
    {
      match this
      case Upcoming => "upcoming"
      case Ongoing => "ongoing"
      case Closed => "closed"
      case EndingSoon => "ending-soon"
    }
  }

  /** Every string a status may be stored as. */
  const StatusNames: seq<string> := ["upcoming", "ongoing", "closed", "ending-soon"]

  datatype Hackathon = Hackathon(
    id: string,
    title: string,
    source: string,
    startDate: string,
    endDate: string,
    tags: seq<string>,
    prize: string,
    organizer: string,
    registrationUrl: string,
    description: string,
    status: Status)

  /** The events shipped with the front end, in display order. */
  const Hackathons: seq<Hackathon> := [
    Hackathon(
      "1", "AI Innovation Hackathon 2025", "Devpost", "2025-11-01", "2025-11-15",
      ["AI", "Machine Learning"], "$10,000", "AI Labs Global",
      "https://devpost.com/ai-innovation-hackathon",
      "A 2-week global AI hackathon focused on innovative ML projects.",
      Upcoming),
    Hackathon(
      "2", "MLH Global Hack Week", "MLH", "2025-10-25", "2025-10-31",
      ["Student", "Open Source"], "Swag, Internships", "Major League Hacking",
      "https://mlh.io/global-hack-week",
      "Join hackers around the world in MLH's week-long hackathon experience.",
      Ongoing),
    Hackathon(
      "3", "Web3 Builders Challenge", "DoraHacks", "2025-09-15", "2025-10-10",
      ["Blockchain", "Web3"], "$25,000 in crypto", "DoraHacks",
      "https://dorahacks.io/web3-builders",
      "Build decentralized apps and smart contracts to shape the future of Web3.",
      Closed),
    Hackathon(
      "4", "Hack2Skill National Coding Sprint", "Hack2Skill", "2025-11-10", "2025-11-20",
      ["Student", "Coding"], "\U{20B9}1 Lakh + Internship Offers", "Hack2Skill India",
      "https://hack2skill.com/sprint",
      "An India-wide hackathon for students passionate about competitive programming.",
      Upcoming),
    Hackathon(
      "5", "Sustainability Hack 2025", "Unstop", "2025-10-28", "2025-11-05",
      ["Environment", "Sustainability"], "$5,000", "Unstop",
      "https://unstop.com/sustainability-hack",
      "Innovate for a greener planet \U{2014} sustainability-themed global hackathon.",
      EndingSoon)
  ]

  function Id(h: Hackathon): string { h.id }

  /** No two catalogue entries share an id. */
  predicate DistinctIds(s: seq<Hackathon>) {
    Lists.DistinctBy(s, Id)
  }

  /** The properties every entry of the catalogue has. */
  predicate WellFormed(h: Hackathon) {
    && h.tags != []
    && Dates.IsIsoDate(h.startDate) && Dates.IsIsoDate(h.endDate)
    && Text.LessOrEqual(h.startDate, h.endDate)
  }

  /** Entry `i` has the one-digit id `i + 1`. */
  lemma EntryId(i: int)
    requires 0 <= i < |Hackathons|
    ensures Hackathons[i].id == [('1' as int + i) as char]
  {
  }

  lemma CatalogueIdsDistinct()
    ensures DistinctIds(Hackathons)
  {
    forall i, j | 0 <= i < j < |Hackathons| ensures Id(Hackathons[i]) != Id(Hackathons[j]) {
      EntryId(i);
      EntryId(j);
      assert Hackathons[i].id[0] != Hackathons[j].id[0];
    }
  }

  lemma CatalogueWellFormed()
    ensures forall h :: h in Hackathons ==> WellFormed(h)
  {
    CatalogueDatesIso();
    CatalogueDatesOrdered();
  }

  lemma CatalogueDatesIso()
    ensures forall h :: h in Hackathons ==> h.tags != [] && Dates.IsIsoDate(h.startDate) && Dates.IsIsoDate(h.endDate)
  {
    forall i | 0 <= i < |Hackathons|
      ensures Hackathons[i].tags != [] && Dates.IsIsoDate(Hackathons[i].startDate) && Dates.IsIsoDate(Hackathons[i].endDate)
    {
      EntryDatesIso(i);
    }
  }

  /** Each entry has tags, and both of its dates are ISO dates. */
  lemma EntryDatesIso(i: int)
    requires 0 <= i < |Hackathons|
    ensures Hackathons[i].tags != [] && Dates.IsIsoDate(Hackathons[i].startDate) && Dates.IsIsoDate(Hackathons[i].endDate)
  {
    var h := Hackathons[i];
    assert Dates.IsIsoDate(h.startDate);
    assert Dates.IsIsoDate(h.endDate);
  }

  lemma CatalogueDatesOrdered()
    ensures forall h :: h in Hackathons ==> Text.LessOrEqual(h.startDate, h.endDate)
  {
    forall i | 0 <= i < |Hackathons| ensures Text.LessOrEqual(Hackathons[i].startDate, Hackathons[i].endDate) {
      EntryDatesOrdered(i);
    }
  }

  /** Every event of the catalogue starts no later than the day it ends. */
  lemma CatalogueChronological()
    ensures forall h :: h in Hackathons ==> Dates.IsIsoDate(h.startDate) && Dates.IsIsoDate(h.endDate) && Dates.DayNumber(h.startDate) <= Dates.DayNumber(h.endDate)
  {
    CatalogueWellFormed();
    forall h | h in Hackathons
      ensures Dates.IsIsoDate(h.startDate) && Dates.IsIsoDate(h.endDate) && Dates.DayNumber(h.startDate) <= Dates.DayNumber(h.endDate)
    {
      Dates.IsoDateOrderIsChronological(h.startDate, h.endDate);
    }
  }

  /** Each entry's dates agree up to the first position at which the start is earlier. */
  lemma EntryDatesOrdered(i: int)
    requires 0 <= i < |Hackathons|
    ensures Text.LessOrEqual(Hackathons[i].startDate, Hackathons[i].endDate)
  {
    var h := Hackathons[i];
    if i == 2 {
      assert h.startDate[..5] == h.endDate[..5];
      Text.LessOrEqualAt(h.startDate, h.endDate, 5);
    } else if i == 4 {
      assert h.startDate[..6] == h.endDate[..6];
      Text.LessOrEqualAt(h.startDate, h.endDate, 6);
    } else {
      assert h.startDate[..8] == h.endDate[..8];
      Text.LessOrEqualAt(h.startDate, h.endDate, 8);
    }
  }
}

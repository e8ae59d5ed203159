/**
 * The organiser's analytics page: totals computed from the events the
 * backend returns for the organiser.
 */
module Analytics {
  import opened Options
  import Lists

  /** One row of the embedded `registrations(count)` aggregate. */
  datatype RegistrationCount = RegistrationCount(count: Option<nat>)

  /** An event row as fetched: its status and the embedded aggregate, which may be missing. */
  datatype EventRow = EventRow(status: string, registrations: Option<seq<RegistrationCount>>)

  /** The four numbers the page shows. */
  datatype Stats = Stats(totalEvents: nat, totalParticipants: nat, upcomingEvents: nat, completedEvents: nat)

  /** The numbers shown before any fetch has succeeded. */
  const InitialStats := Stats(0, 0, 0, 0)

  /** `event.registrations?.[0]?.count || 0`: the first aggregate's count, 0 when anything is missing. */
  function Participants(e: EventRow): (n: nat)
    ensures e.registrations == None || e.registrations == Some([]) ==> n == 0
    ensures e.registrations != None && e.registrations.value != [] ==> n == e.registrations.value[0].count.GetOr(0)
  {
    match e.registrations
    case None => 0
    case Some(rows) => if rows == [] then 0 else rows[0].count.GetOr(0)
  }

  /**
   * `rows.reduce((sum, e) => sum + Participants(e), 0)`, a fold from the left:
   * every event's own count is part of the total, and the total is 0 exactly
   * when every count is.
   */
  function TotalParticipants(rows: seq<EventRow>): (total: nat)
    ensures forall i :: 0 <= i < |rows| ==> Participants(rows[i]) <= total
    ensures total == 0 <==> forall i :: 0 <= i < |rows| ==> Participants(rows[i]) == 0
    decreases |rows|
  {
    if rows == [] then 0
    else
      var front := rows[..|rows| - 1];
      assert forall i :: 0 <= i < |front| ==> rows[i] == front[i];
      TotalParticipants(front) + Participants(rows[|rows| - 1])
  }

  /** The total over a concatenation is the sum of the two totals. */
  lemma {:induction false} TotalParticipantsAppend(a: seq<EventRow>, b: seq<EventRow>)
    ensures TotalParticipants(a + b) == TotalParticipants(a) + TotalParticipants(b)
    decreases |b|
  {
    if b == [] {
      assert a + b == a;
    } else {
      var b' := b[..|b| - 1];
      assert (a + b)[..|a + b| - 1] == a + b';
      TotalParticipantsAppend(a, b');
    }
  }

  /** The statuses of the rows, in order. */
  function RowStatuses(rows: seq<EventRow>): (r: seq<string>)
    ensures |r| == |rows| && forall i :: 0 <= i < |rows| ==> r[i] == rows[i].status
  {
    seq(|rows|, i requires 0 <= i < |rows| => rows[i].status)
  }

  /** `rows.filter(e => e.status === status).length`. */
  function CountStatus(rows: seq<EventRow>, status: string): (n: nat)
    ensures n <= |rows|
    ensures n == 0 <==> forall i :: 0 <= i < |rows| ==> rows[i].status != status
  {
    var p := (e: EventRow) => e.status == status;
    Lists.FilterIsSubsequence(rows, p);
    Lists.SubsequenceMembers(Lists.Filter(rows, p), rows);
    |Lists.Filter(rows, p)|
  }

  /** The filtered length is the number of times the status occurs among the rows' statuses. */
  lemma {:induction false} CountStatusIsOccurrences(rows: seq<EventRow>, status: string)
    ensures CountStatus(rows, status) == multiset(RowStatuses(rows))[status]
    decreases |rows|
  {
    if rows != [] {
      CountStatusIsOccurrences(rows[1..], status);
      assert RowStatuses(rows) == [rows[0].status] + RowStatuses(rows[1..]);
    }
  }

  /** The numbers shown for a successful fetch. */
  function ComputeStats(rows: seq<EventRow>): (s: Stats)
    ensures s.totalEvents == |rows|
    ensures s.upcomingEvents == multiset(RowStatuses(rows))["upcoming"]
    ensures s.completedEvents == multiset(RowStatuses(rows))["completed"]
    ensures s.upcomingEvents + s.completedEvents <= s.totalEvents
    ensures s.totalParticipants == TotalParticipants(rows)
    ensures forall i :: 0 <= i < |rows| ==> Participants(rows[i]) <= s.totalParticipants
  {
    CountStatusIsOccurrences(rows, "upcoming");
    CountStatusIsOccurrences(rows, "completed");
    Lists.FilterDisjointLengths(rows, (e: EventRow) => e.status == "upcoming", (e: EventRow) => e.status == "completed");
    Stats(|rows|, TotalParticipants(rows), CountStatus(rows, "upcoming"), CountStatus(rows, "completed"))
  }

  /** No events, all-zero numbers. */
  lemma NoEventsNoStats()
    ensures ComputeStats([]) == InitialStats
  {
  }

  /** The state of the analytics page. */
  class AnalyticsPage {
    var events: seq<EventRow>
    var stats: Stats

    /** The numbers on the page describe the events the page holds. */
    predicate Consistent()
      reads this
    {
      stats == ComputeStats(events)
    }

    constructor()
      ensures events == [] && stats == InitialStats
      ensures Consistent()
    {
      events := [];
      stats := InitialStats;
      new;
      NoEventsNoStats();
    }

    /** Applies the outcome of the organiser's query: on an error or no data nothing changes. */
    method FetchAnalytics(error: bool, data: Option<seq<EventRow>>)
      requires Consistent()
      modifies this
      ensures Consistent()
      ensures !error && data != None ==> events == data.value
      ensures error || data == None ==> events == old(events) && stats == old(stats)
    {
      if !error && data != None {
        events := data.value;
        stats := ComputeStats(data.value);
      }
    }
  }
}

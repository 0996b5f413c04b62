/**
  The summary the interrupt handler computes from `bark_sessions`: a
  dictionary from each session's start time to its duration, the number of
  sessions, and the total of the dictionary's durations. Printing and exiting
  are not modelled.
 */
module SessionSummary {
  import opened Wrappers
  import opened BarkSessions
  import opened BarkTrace

  /** One key/value pair of the summary dictionary. */
  datatype Entry = Entry(start: int, duration: int)

  /**
    The count, the dictionary as a list of pairs, and the total duration. The
    list keeps insertion order, as dictionaries do from Python 3.7 on; only the
    printed details, which are not modelled, depend on that order.
   */
  datatype Report = Report(count: nat, entries: seq<Entry>, total: int)

  predicate AllClosed(sessions: seq<Session>)
  {
    forall k :: 0 <= k < |sessions| ==> sessions[k].end.ClosedAt?
  }

  function Duration(x: Session): int
    requires x.end.ClosedAt?
  {
    x.end.time - x.start
  }

  function Keys(entries: seq<Entry>): set<int>
  {
    set x | x in entries :: x.start
  }

  function Starts(sessions: seq<Session>): set<int>
  {
    set x | x in sessions :: x.start
  }

  /** No key appears twice, as in a dictionary. */
  predicate DistinctKeys(entries: seq<Entry>)
  {
    forall i, j :: 0 <= i < j < |entries| ==> entries[i].start != entries[j].start
  }

  /**
    Dictionary assignment `d[e.start] = e.duration`: an existing key takes the
    new value and every other entry stays as it was; a new key is added (at
    the end of the list, which only fixes an order for the model).
   */
  function Put(entries: seq<Entry>, e: Entry): (r: seq<Entry>)
    ensures Keys(r) == Keys(entries) + {e.start}
    ensures DistinctKeys(entries) ==> DistinctKeys(r)
    ensures forall k :: 0 <= k < |r| && r[k].start == e.start ==> r[k] == e
    ensures |r| == |entries| + (if e.start in Keys(entries) then 0 else 1)
    ensures e.start !in Keys(entries) ==> r == entries + [e]
    ensures e.start in Keys(entries) ==> forall k :: 0 <= k < |r| && r[k].start != e.start ==> r[k] == entries[k]
    ensures forall x :: x in r && x.start != e.start ==> x in entries
  {
    if e.start in Keys(entries) then
      var r := seq(|entries|, k requires 0 <= k < |entries| => if entries[k].start == e.start then e else entries[k]);
      assert Keys(r) == Keys(entries) by {
        forall x | x in r ensures x.start in Keys(entries) {
          var k :| 0 <= k < |r| && r[k] == x;
          assert entries[k] in entries;
        }
        forall x | x in entries ensures x.start in Keys(r) {
          var k :| 0 <= k < |entries| && entries[k] == x;
          assert r[k] in r;
        }
      }
      r
    else
      assert Keys(entries + [e]) == Keys(entries) + {e.start} by {
        forall x | x in entries + [e] ensures x in entries || x == e {}
        assert e in entries + [e];
        forall x | x in entries ensures x in entries + [e] {}
      }
      entries + [e]
  }

  /** `sessions[k]` is the last session starting when it does. */
  predicate LastWithStart(sessions: seq<Session>, k: int)
  {
    0 <= k < |sessions| && forall j :: k < j < |sessions| ==> sessions[j].start != sessions[k].start
  }

  /** `e` is the entry the comprehension leaves for its key: the last session with that start, and its duration. */
  ghost predicate RecordsLast(sessions: seq<Session>, e: Entry)
    requires AllClosed(sessions)
  {
    exists k :: LastWithStart(sessions, k) && sessions[k].start == e.start && e.duration == Duration(sessions[k])
  }

  /** Assigning the last session's duration to its start keeps every entry the one its key's last session gives. */
  lemma PutRecordsLast(sessions: seq<Session>, prev: seq<Entry>)
    requires AllClosed(sessions) && sessions != []
    requires forall e :: e in prev ==> RecordsLast(sessions[..|sessions| - 1], e)
    ensures var x := sessions[|sessions| - 1];
            forall e :: e in Put(prev, Entry(x.start, Duration(x))) ==> RecordsLast(sessions, e)
  {
    var init := sessions[..|sessions| - 1];
    var x := sessions[|sessions| - 1];
    var r := Put(prev, Entry(x.start, Duration(x)));
    forall e | e in r
      ensures RecordsLast(sessions, e)
    {
      if e.start == x.start {
        var k :| 0 <= k < |r| && r[k] == e;
        assert LastWithStart(sessions, |sessions| - 1);
      } else {
        assert e in prev;
        var k :| LastWithStart(init, k) && init[k].start == e.start && e.duration == Duration(init[k]);
        assert sessions[k] == init[k];
        assert LastWithStart(sessions, k);
      }
    }
  }

  /**
    The dictionary comprehension, evaluated over the sessions in order: one
    entry per start time, holding the duration of the last session with that
    start, which overwrote any earlier one.
   */
  function Collect(sessions: seq<Session>): (r: seq<Entry>)
    requires AllClosed(sessions)
    ensures DistinctKeys(r)
    ensures Keys(r) == Starts(sessions)
    ensures |r| <= |sessions|
    ensures forall e :: e in r ==> RecordsLast(sessions, e)
    decreases |sessions|
  {
    if sessions == [] then []
    else
      var init := sessions[..|sessions| - 1];
      var x := sessions[|sessions| - 1];
      var prev := Collect(init);
      var r := Put(prev, Entry(x.start, Duration(x)));
      assert Starts(sessions) == Starts(init) + {x.start};
      PutRecordsLast(sessions, prev);
      r
  }

  /**
    `sum(summary.values(), timedelta(0))`: with no negative duration the total
    is not negative and no single duration exceeds it.
   */
  function Total(entries: seq<Entry>): (r: int)
    ensures (forall k :: 0 <= k < |entries| ==> entries[k].duration >= 0) ==>
              r >= 0 && forall k :: 0 <= k < |entries| ==> entries[k].duration <= r
  {
    if entries == [] then 0 else Total(entries[..|entries| - 1]) + entries[|entries| - 1].duration
  }

  /** The sum of every session's own duration. */
  function SumDurations(sessions: seq<Session>): int
    requires AllClosed(sessions)
  {
    if sessions == [] then 0 else SumDurations(sessions[..|sessions| - 1]) + Duration(sessions[|sessions| - 1])
  }

  /** One entry per session, in order. */
  function Itemize(sessions: seq<Session>): seq<Entry>
    requires AllClosed(sessions)
  {
    if sessions == [] then [] else Itemize(sessions[..|sessions| - 1]) + [Entry(sessions[|sessions| - 1].start, Duration(sessions[|sessions| - 1]))]
  }

  /**
    The summary. `None` when a session is still open: its `-1` end cannot be
    subtracted from a datetime, and the handler fails before reporting.
    The count is the number of sessions, while the dictionary has one entry
    per distinct start time.
   */
  function Summarize(sessions: seq<Session>): (r: Option<Report>)
    ensures r.Some? <==> AllClosed(sessions)
    ensures r.Some? ==> r.value.count == |sessions| && |r.value.entries| <= r.value.count
    ensures r.Some? ==> Keys(r.value.entries) == Starts(sessions) && DistinctKeys(r.value.entries)
    ensures r.Some? ==> forall e :: e in r.value.entries ==> RecordsLast(sessions, e)
    ensures r.Some? ==> r.value.total == Total(r.value.entries)
  {
    if AllClosed(sessions) then
      var entries := Collect(sessions);
      Some(Report(|sessions|, entries, Total(entries)))
    else None
  }

  /**
    When start times strictly increase, no dictionary key collapses: the
    summary holds one entry per session, in order, and its total is the sum of
    every session's duration.
   */
  lemma {:induction false} IncreasingStartsSummary(sessions: seq<Session>)
    requires AllClosed(sessions)
    requires forall i, j :: 0 <= i < j < |sessions| ==> sessions[i].start < sessions[j].start
    ensures Collect(sessions) == Itemize(sessions)
    ensures Total(Collect(sessions)) == SumDurations(sessions)
    decreases |sessions|
  {
    if sessions != [] {
      var init := sessions[..|sessions| - 1];
      var x := sessions[|sessions| - 1];
      IncreasingStartsSummary(init);
      var e := Entry(x.start, Duration(x));
      assert e.start !in Starts(init);
      var r := Itemize(init) + [e];
      assert Collect(sessions) == r;
      assert r[..|r| - 1] == Itemize(init);
    }
  }

  /** Each closed session lasting at least a microsecond makes the total at least the count. */
  lemma {:induction false} TotalAtLeastCount(sessions: seq<Session>)
    requires AllClosed(sessions)
    requires forall k :: 0 <= k < |sessions| ==> Duration(sessions[k]) > 0
    ensures SumDurations(sessions) >= |sessions|
    decreases |sessions|
  {
    if sessions != [] {
      TotalAtLeastCount(sessions[..|sessions| - 1]);
    }
  }

  /**
    In a state kept in time order (every run whose clock never runs backwards),
    start times are distinct, so the reported total is the sum of all session
    durations, each of them positive, and the dictionary has one entry per session.
   */
  lemma ChronologicalSummary(s: State)
    requires Chronological(s) && AllClosed(s.sessions)
    ensures Summarize(s.sessions) == Some(Report(|s.sessions|, Itemize(s.sessions), SumDurations(s.sessions)))
    ensures SumDurations(s.sessions) >= |s.sessions|
  {
    IncreasingStartsSummary(s.sessions);
    TotalAtLeastCount(s.sessions);
  }

  /**
    Two sessions with the same start collapse into one dictionary entry, the
    later one's, while the count still says two.
   */
  lemma DuplicateStartsCollapse()
    ensures var sessions := [Session(10, ClosedAt(20)), Session(10, ClosedAt(50))];
            Summarize(sessions) == Some(Report(2, [Entry(10, 40)], 40))
            && SumDurations(sessions) == 50
  {
    var sessions := [Session(10, ClosedAt(20)), Session(10, ClosedAt(50))];
    assert sessions[..1] == [Session(10, ClosedAt(20))];
    assert sessions[..1][..0] == [];
    assert Collect(sessions[..1]) == [Entry(10, 10)];
    assert Collect(sessions) == [Entry(10, 40)];
    assert [Entry(10, 40)][..0] == [];
  }

  /**
    For a run from the start of the script whose clock never runs backwards,
    an interrupt after every session has closed reports the sum of all
    session durations: no two sessions share a start time.
   */
  lemma OrderedRunSummary(rs: seq<Reading>)
    requires AllPlausible(rs) && Ordered(rs)
    requires AllClosed(Run(Init(), rs).final.sessions)
    ensures var sessions := Run(Init(), rs).final.sessions;
            Summarize(sessions) == Some(Report(|sessions|, Itemize(sessions), SumDurations(sessions)))
  {
    if rs != [] {
      assert Plausible(rs[0].at);
    }
    RunKeepsChronology(Init(), rs);
    ChronologicalSummary(Run(Init(), rs).final);
  }
}

/** Visitor analytics of `routes/visitor.py`: the per-day deduplicating
    visitor counter over `visitor_logs` and `visitor_stats`, and the
    online-session heartbeat over `online_users`.

    Tables are sequences of rows in insertion order. Dates are day numbers
    (one apart per calendar day) and times are seconds; both are passed in
    rather than read from a clock. */
module Visitor {
  import opened Common

  /** A row of `visitor_logs`; the table is unique on all three columns. */
  datatype LogEntry = LogEntry(ip: string, userAgent: string, date: int)

  /** A row of `visitor_stats`, keyed by `date`. */
  datatype StatsRow = StatsRow(date: int, today: nat, yesterday: nat, week: nat, month: nat, total: nat)

  /** The fields of a visit body; `visitDate` is `None` when it is missing
      or not a valid `YYYY-MM-DD` date, and the day number otherwise. */
  datatype VisitBody = VisitBody(userAgent: Option<string>, visitDate: Option<int>)

  /** A row of `online_users` (the session id is the key of the map). */
  datatype Session = Session(ip: string, lastActive: int)

  /** The week window covers the visit date and the six days before it. */
  const WeekDays: int := 7
  /** The month window covers the visit date and the 29 days before it. */
  const MonthDays: int := 30
  /** Sessions idle for longer than ten minutes are purged. */
  const InactivitySeconds: int := 600
  const UnknownAgent: string := "Unknown"

  // ------------------------------------------------------------ aggregates

  /** Index of the first row dated `d`, if any. */
  function FindDay(stats: seq<StatsRow>, d: int): (r: Option<nat>)
    ensures r.Some? ==> r.value < |stats| && stats[r.value].date == d
    ensures r.Some? ==> forall j :: 0 <= j < r.value ==> stats[j].date != d
    ensures r.None? ==> forall j :: 0 <= j < |stats| ==> stats[j].date != d
  {
    if stats == [] then None
    else if stats[0].date == d then Some(0)
    else match FindDay(stats[1..], d)
         case None => None
         case Some(i) => Some(i + 1)
  }

  /** `visitors_today` of the row for `d`, or 0 when there is none. */
  function VisitorsOn(stats: seq<StatsRow>, d: int): (r: nat)
    ensures (forall i :: 0 <= i < |stats| ==> stats[i].date != d) ==> r == 0
    ensures r > 0 ==> exists i :: 0 <= i < |stats| && stats[i].date == d && stats[i].today == r
  {
    match FindDay(stats, d)
    case Some(i) => stats[i].today
    case None => 0
  }

  /** With one row per date, a day's count is the one stored in its row. */
  lemma VisitorsOnRow(stats: seq<StatsRow>, i: nat)
    requires DatesUnique(stats) && i < |stats|
    ensures VisitorsOn(stats, stats[i].date) == stats[i].today
  {
    var k := FindDay(stats, stats[i].date).value;
    assert stats[k].date == stats[i].date;
  }

  /** `COALESCE(SUM(visitors_today), 0) ... WHERE date BETWEEN lo AND hi`. */
  function VisitorsBetween(stats: seq<StatsRow>, lo: int, hi: int): (r: nat)
    ensures (forall i :: 0 <= i < |stats| ==> !(lo <= stats[i].date <= hi)) ==> r == 0
    ensures (forall i :: 0 <= i < |stats| ==> lo <= stats[i].date <= hi) ==> r == TotalVisitors(stats)
  {
    if stats == [] then 0
    else
      var last := stats[|stats| - 1];
      VisitorsBetween(stats[..|stats| - 1], lo, hi) + (if lo <= last.date <= hi then last.today else 0)
  }

  /** `COALESCE(SUM(visitors_today), 0)` over the whole table. */
  function TotalVisitors(stats: seq<StatsRow>): (r: nat)
    ensures forall i :: 0 <= i < |stats| ==> stats[i].today <= r
    ensures (forall i :: 0 <= i < |stats| ==> stats[i].today == 0) ==> r == 0
  {
    if stats == [] then 0 else TotalVisitors(stats[..|stats| - 1]) + stats[|stats| - 1].today
  }

  /** One row inside the window counts toward the window sum. */
  lemma {:induction false} RowWithinWindow(stats: seq<StatsRow>, i: nat, lo: int, hi: int)
    requires i < |stats| && lo <= stats[i].date <= hi
    ensures stats[i].today <= VisitorsBetween(stats, lo, hi)
  {
    if i < |stats| - 1 {
      RowWithinWindow(stats[..|stats| - 1], i, lo, hi);
    }
  }

  /** A window that starts earlier sums at least as much. */
  lemma {:induction false} WindowWidens(stats: seq<StatsRow>, lo1: int, lo2: int, hi: int)
    requires lo2 <= lo1
    ensures VisitorsBetween(stats, lo1, hi) <= VisitorsBetween(stats, lo2, hi)
  {
    if stats != [] {
      WindowWidens(stats[..|stats| - 1], lo1, lo2, hi);
    }
  }

  /** No window sums more than the whole table. */
  lemma {:induction false} WindowWithinTotal(stats: seq<StatsRow>, lo: int, hi: int)
    ensures VisitorsBetween(stats, lo, hi) <= TotalVisitors(stats)
  {
    if stats != [] {
      WindowWithinTotal(stats[..|stats| - 1], lo, hi);
    }
  }

  /** The four aggregates read before a visit is logged are ordered:
      yesterday <= week <= month <= total. */
  lemma AggregatesOrdered(stats: seq<StatsRow>, date: int)
    ensures VisitorsOn(stats, date - 1) <= VisitorsBetween(stats, date - (WeekDays - 1), date)
    ensures VisitorsBetween(stats, date - (WeekDays - 1), date) <= VisitorsBetween(stats, date - (MonthDays - 1), date)
    ensures VisitorsBetween(stats, date - (MonthDays - 1), date) <= TotalVisitors(stats)
  {
    if FindDay(stats, date - 1).Some? {
      RowWithinWindow(stats, FindDay(stats, date - 1).value, date - (WeekDays - 1), date);
    }
    WindowWidens(stats, date - (WeekDays - 1), date - (MonthDays - 1), date);
    WindowWithinTotal(stats, date - (MonthDays - 1), date);
  }

  /** The window query, one row at a time. */
  method SumVisitorsBetween(stats: seq<StatsRow>, lo: int, hi: int) returns (s: nat)
    ensures s == VisitorsBetween(stats, lo, hi)
  {
    s := 0;
    for i := 0 to |stats|
      invariant s == VisitorsBetween(stats[..i], lo, hi)
    {
      assert stats[..i + 1][..i] == stats[..i];
      if lo <= stats[i].date <= hi {
        s := s + stats[i].today;
      }
    }
    assert stats[..|stats|] == stats;
  }

  /** The whole-table sum, one row at a time. */
  method SumAllVisitors(stats: seq<StatsRow>) returns (s: nat)
    ensures s == TotalVisitors(stats)
  {
    s := 0;
    for i := 0 to |stats|
      invariant s == TotalVisitors(stats[..i])
    {
      assert stats[..i + 1][..i] == stats[..i];
      s := s + stats[i].today;
    }
    assert stats[..|stats|] == stats;
  }

  // ---------------------------------------------------------- deduplication

  /** The user agent a visit is logged under: the body's, stripped, when it
      has a visible character; when it is absent or all white space, the
      `User-Agent` header as sent, or `Unknown` when there is no header. */
  function EffectiveUserAgent(bodyAgent: Option<string>, header: Option<string>): (ua: string)
    ensures bodyAgent.None? || AllSpace(bodyAgent.value) ==> ua == header.GetOr(UnknownAgent)
    ensures bodyAgent.Some? && !AllSpace(bodyAgent.value) ==> ua == Strip(bodyAgent.value)
  {
    StripEmptyIffBlank(bodyAgent.GetOr(""));
    var stripped := Strip(bodyAgent.GetOr(""));
    if stripped != "" then stripped else header.GetOr(UnknownAgent)
  }

  /** The number of log entries dated `d`. */
  function LogsOn(logs: seq<LogEntry>, d: int): nat
  {
    if logs == [] then 0
    else LogsOn(logs[..|logs| - 1], d) + (if logs[|logs| - 1].date == d then 1 else 0)
  }

  /** No two rows of the stats share a date (`date` is the primary key). */
  ghost predicate DatesUnique(stats: seq<StatsRow>)
  {
    forall i, j :: 0 <= i < |stats| && 0 <= j < |stats| && stats[i].date == stats[j].date ==> i == j
  }

  /** The stats table agrees with the log: dates are unique, every logged day
      has a row, and a row's `visitors_today` is the number of visits logged
      that day. */
  ghost predicate CountsMatch(logs: seq<LogEntry>, stats: seq<StatsRow>)
  {
    && DatesUnique(stats)
    && (forall k :: 0 <= k < |logs| ==> FindDay(stats, logs[k].date).Some?)
    && (forall i :: 0 <= i < |stats| ==> stats[i].today == LogsOn(logs, stats[i].date))
  }

  /** `visitor_stats` after a new visitor on `date`, with yesterday, week,
      month and total all read before the visit. A new day gets a row with
      one visitor and the total read; an existing row has `visitors_today`
      and `total_visitors` each increased by one and its yesterday, week and
      month overwritten. Rows of other dates are kept. */
  function AfterNewVisit(stats: seq<StatsRow>, date: int): (r: seq<StatsRow>)
    ensures FindDay(stats, date).Some? ==> |r| == |stats|
    ensures FindDay(stats, date).None? ==> |r| == |stats| + 1 && r[..|stats|] == stats
    ensures forall i :: 0 <= i < |stats| && stats[i].date != date ==> r[i] == stats[i]
    ensures forall i :: 0 <= i < |r| ==> r[i].date == if i < |stats| then stats[i].date else date
    ensures FindDay(r, date).Some? && var row := r[FindDay(r, date).value];
            && row.yesterday == VisitorsOn(stats, date - 1)
            && row.week == VisitorsBetween(stats, date - (WeekDays - 1), date)
            && row.month == VisitorsBetween(stats, date - (MonthDays - 1), date)
            && (FindDay(stats, date).Some? ==>
                  var oldRow := stats[FindDay(stats, date).value];
                  row.today == oldRow.today + 1 && row.total == oldRow.total + 1)
            && (FindDay(stats, date).None? ==> row.today == 1 && row.total == TotalVisitors(stats))
  {
    var y := VisitorsOn(stats, date - 1);
    var w := VisitorsBetween(stats, date - (WeekDays - 1), date);
    var m := VisitorsBetween(stats, date - (MonthDays - 1), date);
    match FindDay(stats, date)
    case Some(i) =>
      var row := stats[i];
      var r := stats[i := row.(today := row.today + 1, yesterday := y, week := w, month := m, total := row.total + 1)];
      assert FindDay(r, date) == Some(i) by { FindDaySameDates(stats, r, date); }
      r
    case None =>
      var r := stats + [StatsRow(date, 1, y, w, m, TotalVisitors(stats))];
      assert FindDay(r, date) == Some(|stats|) by { FindDayAppended(stats, r, date); }
      r
  }

  /** Rows with the same dates are found at the same index. */
  lemma {:induction false} FindDaySameDates(a: seq<StatsRow>, b: seq<StatsRow>, d: int)
    requires |a| == |b| && forall i :: 0 <= i < |a| ==> a[i].date == b[i].date
    ensures FindDay(a, d) == FindDay(b, d)
  {
    if a != [] && a[0].date != d {
      FindDaySameDates(a[1..], b[1..], d);
    }
  }

  /** A date absent from `a` is found at the row appended after `a`. */
  lemma FindDayAppended(a: seq<StatsRow>, b: seq<StatsRow>, d: int)
    requires FindDay(a, d).None? && |b| == |a| + 1 && b[..|a|] == a && b[|a|].date == d
    ensures FindDay(b, d) == Some(|a|)
  {
    assert forall j :: 0 <= j < |a| ==> b[j] == a[j];
  }

  /** A visit on `d` adds one to the count of `d` and nothing to other days. */
  lemma LogsOnAppend(logs: seq<LogEntry>, e: LogEntry, d: int)
    ensures LogsOn(logs + [e], d) == LogsOn(logs, d) + if e.date == d then 1 else 0
  {
    assert (logs + [e])[..|logs|] == logs;
  }

  /** A day nothing was logged on counts zero. */
  lemma {:induction false} LogsOnAbsent(logs: seq<LogEntry>, d: int)
    requires forall k :: 0 <= k < |logs| ==> logs[k].date != d
    ensures LogsOn(logs, d) == 0
  {
    if logs != [] {
      LogsOnAbsent(logs[..|logs| - 1], d);
    }
  }

  /** Logging a new entry and applying the upsert keeps the counts in step
      with the log. */
  lemma NewVisitKeepsCounts(logs: seq<LogEntry>, stats: seq<StatsRow>, e: LogEntry)
    requires CountsMatch(logs, stats)
    ensures CountsMatch(logs + [e], AfterNewVisit(stats, e.date))
  {
    var logs', stats' := logs + [e], AfterNewVisit(stats, e.date);
    var found := FindDay(stats, e.date);
    forall i | 0 <= i < |stats'| ensures stats'[i].today == LogsOn(logs', stats'[i].date) {
      LogsOnAppend(logs, e, stats'[i].date);
      if i == |stats| {
        forall k | 0 <= k < |logs| ensures logs[k].date != e.date {
          assert FindDay(stats, logs[k].date).Some?;
        }
        LogsOnAbsent(logs, e.date);
      } else if stats[i].date == e.date {
        assert found.Some? && found.value == i;
      }
    }
    forall k | 0 <= k < |logs'| ensures FindDay(stats', logs'[k].date).Some? {
      var d := logs'[k].date;
      if d != e.date {
        assert FindDay(stats, d).Some?;
        var j := FindDay(stats, d).value;
        assert stats'[j].date == d;
      }
    }
  }

  /** No entry is logged twice (the unique key of `visitor_logs`). */
  ghost predicate Distinct(logs: seq<LogEntry>)
  {
    forall i, j :: 0 <= i < j < |logs| ==> logs[i] != logs[j]
  }

  /** Appending an entry that is not yet logged keeps the log distinct. */
  lemma AppendFresh(logs: seq<LogEntry>, e: LogEntry)
    requires Distinct(logs) && e !in logs
    ensures Distinct(logs + [e])
  {
  }

  /** The sum of the log counts of the rows' dates. */
  ghost function CountSum(logs: seq<LogEntry>, stats: seq<StatsRow>): nat
  {
    if stats == [] then 0 else CountSum(logs, stats[..|stats| - 1]) + LogsOn(logs, stats[|stats| - 1].date)
  }

  /** The number of rows dated `d`. */
  ghost function RowsOn(stats: seq<StatsRow>, d: int): nat
  {
    if stats == [] then 0 else RowsOn(stats[..|stats| - 1], d) + if stats[|stats| - 1].date == d then 1 else 0
  }

  lemma {:induction false} TotalIsCountSum(logs: seq<LogEntry>, stats: seq<StatsRow>)
    requires forall i :: 0 <= i < |stats| ==> stats[i].today == LogsOn(logs, stats[i].date)
    ensures TotalVisitors(stats) == CountSum(logs, stats)
  {
    if stats != [] {
      TotalIsCountSum(logs, stats[..|stats| - 1]);
    }
  }

  lemma {:induction false} CountSumAppend(logs: seq<LogEntry>, e: LogEntry, stats: seq<StatsRow>)
    ensures CountSum(logs + [e], stats) == CountSum(logs, stats) + RowsOn(stats, e.date)
  {
    if stats != [] {
      CountSumAppend(logs, e, stats[..|stats| - 1]);
      LogsOnAppend(logs, e, stats[|stats| - 1].date);
    }
  }

  /** Searching a sequence agrees with searching it without its last row,
      unless only the last row carries the date. */
  lemma FindDayPrefix(stats: seq<StatsRow>, d: int)
    requires stats != []
    ensures var init := stats[..|stats| - 1];
            FindDay(stats, d).Some? <==> FindDay(init, d).Some? || stats[|stats| - 1].date == d
  {
    var init := stats[..|stats| - 1];
    if FindDay(init, d).Some? {
      assert stats[FindDay(init, d).value].date == d;
    }
    if FindDay(stats, d).Some? && FindDay(stats, d).value < |init| {
      assert init[FindDay(stats, d).value].date == d;
    }
  }

  /** With unique dates, a date that has a row has exactly one. */
  lemma {:induction false} RowsOnUnique(stats: seq<StatsRow>, d: int)
    requires DatesUnique(stats)
    ensures RowsOn(stats, d) == if FindDay(stats, d).Some? then 1 else 0
  {
    if stats != [] {
      var init := stats[..|stats| - 1];
      RowsOnUnique(init, d);
      FindDayPrefix(stats, d);
    }
  }

  lemma {:induction false} CountSumEmpty(stats: seq<StatsRow>)
    ensures CountSum([], stats) == 0
  {
    if stats != [] {
      CountSumEmpty(stats[..|stats| - 1]);
    }
  }

  lemma {:induction false} CountSumIsLogCount(logs: seq<LogEntry>, stats: seq<StatsRow>)
    requires DatesUnique(stats)
    requires forall k :: 0 <= k < |logs| ==> FindDay(stats, logs[k].date).Some?
    ensures CountSum(logs, stats) == |logs|
  {
    if logs == [] {
      CountSumEmpty(stats);
    } else {
      var init, e := logs[..|logs| - 1], logs[|logs| - 1];
      assert logs == init + [e];
      CountSumIsLogCount(init, stats);
      CountSumAppend(init, e, stats);
      RowsOnUnique(stats, e.date);
    }
  }

  /** When the counts match the log, the sum of all `visitors_today` is the
      number of log entries. */
  lemma TotalMatchesLogCount(logs: seq<LogEntry>, stats: seq<StatsRow>)
    requires CountsMatch(logs, stats)
    ensures TotalVisitors(stats) == |logs|
  {
    TotalIsCountSum(logs, stats);
    CountSumIsLogCount(logs, stats);
  }

  /** The first visitor of a day is not part of that day's `total_visitors`:
      with the counts matching the log, the new row's total is one less than
      the number of log entries after the visit. */
  lemma FreshDayTotalLagsByOne(logs: seq<LogEntry>, stats: seq<StatsRow>, e: LogEntry)
    requires CountsMatch(logs, stats) && FindDay(stats, e.date).None?
    ensures AfterNewVisit(stats, e.date)[|stats|].total + 1 == |logs + [e]|
  {
    TotalMatchesLogCount(logs, stats);
  }

  /** The `INSERT ... ON DUPLICATE KEY UPDATE` of `visitor_stats` for a new
      visitor on `date`, given the four values read before the visit: the
      result is `AfterNewVisit`. */
  method UpsertStats(stats: seq<StatsRow>, date: int, yesterday: nat, week: nat, month: nat, total: nat)
    returns (updated: seq<StatsRow>)
    requires yesterday == VisitorsOn(stats, date - 1)
    requires week == VisitorsBetween(stats, date - (WeekDays - 1), date)
    requires month == VisitorsBetween(stats, date - (MonthDays - 1), date)
    requires total == TotalVisitors(stats)
    ensures updated == AfterNewVisit(stats, date)
  {
    match FindDay(stats, date) {
      case Some(i) =>
        var row := stats[i];
        updated := stats[i := row.(today := row.today + 1, yesterday := yesterday, week := week,
                                   month := month, total := row.total + 1)];
      case None =>
        updated := stats + [StatsRow(date, 1, yesterday, week, month, total)];
    }
  }

  /** `visitor_logs` and `visitor_stats`. */
  class VisitorTables {
    var logs: seq<LogEntry>
    var stats: seq<StatsRow>

    /** The log holds each (ip, user agent, date) at most once, and the
        stats agree with it. */
    ghost predicate Valid()
      reads this
    {
      && Distinct(logs)
      && CountsMatch(logs, stats)
    }

    constructor ()
      ensures Valid() && logs == [] && stats == []
    {
      logs := [];
      stats := [];
    }

    /** `track_visitor`: a missing body or an unreadable date is answered
        with 400 and nothing changes. Otherwise 200 is returned; a repeated
        (ip, user agent, date) changes neither table, and a new one is logged
        and upserted into the stats as `AfterNewVisit` says. Matching counts
        are kept. */
    method TrackVisitor(body: Option<VisitBody>, ip: string, agentHeader: Option<string>)
      returns (resp: Response)
      modifies this
      ensures old(Valid()) ==> Valid()
      ensures body.None? ==> resp == Reply(400, "Invalid input") && unchanged(this)
      ensures body.Some? && body.value.visitDate.None? ==>
                resp == Reply(400, "Invalid date format, expected YYYY-MM-DD") && unchanged(this)
      ensures body.Some? && body.value.visitDate.Some? ==>
                var e := LogEntry(ip, EffectiveUserAgent(body.value.userAgent, agentHeader), body.value.visitDate.value);
                && resp == Reply(200, "Visitor logged and stats updated successfully")
                && (e in old(logs) ==> logs == old(logs) && stats == old(stats))
                && (e !in old(logs) ==> logs == old(logs) + [e] && stats == AfterNewVisit(old(stats), e.date))
    {
      if body.None? {
        return Reply(400, "Invalid input");
      }
      var agent := EffectiveUserAgent(body.value.userAgent, agentHeader);
      if body.value.visitDate.None? {
        return Reply(400, "Invalid date format, expected YYYY-MM-DD");
      }
      var entry := LogEntry(ip, agent, body.value.visitDate.value);
      var isNewVisitor := entry !in logs;
      if isNewVisitor {
        RecordNewVisit(entry);
      }
      resp := Reply(200, "Visitor logged and stats updated successfully");
    }

    /** A visit not yet logged: yesterday's count and the week, month and
        total sums are read first, then the entry is inserted into
        `visitor_logs` and the `INSERT ... ON DUPLICATE KEY UPDATE` of
        `visitor_stats` is applied with them. */
    method RecordNewVisit(entry: LogEntry)
      requires entry !in logs
      modifies this
      ensures old(Valid()) ==> Valid()
      ensures logs == old(logs) + [entry] && stats == AfterNewVisit(old(stats), entry.date)
    {
      var date := entry.date;
      var yesterday := VisitorsOn(stats, date - 1);
      var week := SumVisitorsBetween(stats, date - (WeekDays - 1), date);
      var month := SumVisitorsBetween(stats, date - (MonthDays - 1), date);
      var total := SumAllVisitors(stats);
      var updated := UpsertStats(stats, date, yesterday, week, month, total);
      ghost var wasValid := Valid();
      if wasValid {
        AppendFresh(logs, entry);
        NewVisitKeepsCounts(logs, stats, entry);
      }
      logs, stats := logs + [entry], updated;
    }
  }

  // ---------------------------------------------------------------- online

  /** The upsert of a heartbeat: the session's `last_active` becomes `now`;
      an existing session keeps its ip, a new one gets `ip`. */
  function Heartbeat(sessions: map<string, Session>, id: string, ip: string, now: int): (r: map<string, Session>)
    ensures id in r && r[id].lastActive == now
    ensures r[id].ip == if id in sessions then sessions[id].ip else ip
    ensures forall k :: k in r <==> k in sessions || k == id
    ensures forall k :: k in sessions && k != id ==> r[k] == sessions[k]
  {
    if id in sessions then sessions[id := sessions[id].(lastActive := now)]
    else sessions[id := Session(ip, now)]
  }

  /** A session is stale at `now` when it was last active more than ten
      minutes earlier. */
  predicate Stale(s: Session, now: int)
  {
    s.lastActive < now - InactivitySeconds
  }

  /** `r` is `sessions` after `DELETE ... WHERE last_active < NOW() - INTERVAL
      10 MINUTE`: exactly the sessions that are not stale remain, unchanged. */
  ghost predicate PurgedFrom(r: map<string, Session>, sessions: map<string, Session>, now: int)
  {
    && (forall k :: k in r <==> k in sessions && !Stale(sessions[k], now))
    && (forall k :: k in r ==> r[k] == sessions[k])
  }

  /** `online_users`. */
  class OnlineTable {
    var sessions: map<string, Session>

    constructor ()
      ensures sessions == map[]
    {
      sessions := map[];
    }

    /** `track_online`: a missing session id is answered with 400, and so is
        a blank one, with nothing changed. Otherwise the session is upserted
        with `last_active = now` and then every stale session is deleted,
        one row at a time. */
    method TrackOnline(sessionId: Option<string>, ip: string, now: int) returns (resp: Response)
      modifies this
      ensures sessionId.None? ==> resp == Reply(400, "Missing session_id") && unchanged(this)
      ensures sessionId.Some? && Strip(sessionId.value) == "" ==>
                resp == Reply(400, "Invalid session_id") && unchanged(this)
      ensures sessionId.Some? && Strip(sessionId.value) != "" ==>
                && resp == Reply(200, "Online user tracked successfully")
                && PurgedFrom(sessions, Heartbeat(old(sessions), Strip(sessionId.value), ip, now), now)
    {
      if sessionId.None? {
        return Reply(400, "Missing session_id");
      }
      var id := Strip(sessionId.value);
      if id == "" {
        return Reply(400, "Invalid session_id");
      }
      sessions := Heartbeat(sessions, id, ip, now);
      ghost var start := sessions;
      var pending := sessions.Keys;
      while pending != {}
        invariant forall k :: k in pending ==> k in start
        invariant forall k :: k in sessions ==> k in start && sessions[k] == start[k]
        invariant forall k :: k in pending ==> k in sessions
        invariant forall k :: k in start && k !in pending ==> (k in sessions <==> !Stale(start[k], now))
        decreases pending
      {
        var k :| k in pending;
        if Stale(sessions[k], now) {
          sessions := sessions - {k};
        }
        pending := pending - {k};
      }
      resp := Reply(200, "Online user tracked successfully");
    }
  }

  /** After a heartbeat at `now` the session is present and active now,
      nothing stale remains, every other session that was not stale is kept
      and every stale one is gone. */
  lemma HeartbeatThenPurge(sessions: map<string, Session>, id: string, ip: string, now: int,
                           r: map<string, Session>)
    requires PurgedFrom(r, Heartbeat(sessions, id, ip, now), now)
    ensures id in r && r[id].lastActive == now
    ensures id in sessions ==> r[id].ip == sessions[id].ip
    ensures forall k :: k in r ==> !Stale(r[k], now)
    ensures forall k :: k in sessions && k != id && !Stale(sessions[k], now) ==> k in r && r[k] == sessions[k]
    ensures forall k :: k in sessions && k != id && Stale(sessions[k], now) ==> k !in r
  {
  }
}

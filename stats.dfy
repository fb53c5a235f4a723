/** The read-only statistics endpoints of `routes/stats.py`: the latest
    `visitor_stats` row and the number of `online_users` rows. */
module Stats {
  import opened Common
  import opened Visitor

  const NoStats: Response := Reply(404, "No visitor statistics available")

  /** `SELECT ... FROM visitor_stats ORDER BY date DESC LIMIT 1`: the row with
      the greatest date, returned as stored; 404 when the table is empty. */
  function LatestStats(stats: seq<StatsRow>): (r: Result<StatsRow>)
    ensures r.Err? <==> stats == []
    ensures r.Err? ==> r.resp == NoStats
    ensures r.Ok? ==> r.value in stats
    ensures r.Ok? ==> forall i :: 0 <= i < |stats| ==> stats[i].date <= r.value.date
  {
    if stats == [] then Err(NoStats)
    else
      var init := stats[..|stats| - 1];
      var last := stats[|stats| - 1];
      match LatestStats(init)
      case Err(_) => Ok(last)
      case Ok(best) => if last.date > best.date then Ok(last) else Ok(best)
  }

  /** With unique dates the latest row is determined: it is the one row that
      no other row postdates. */
  lemma LatestIsTheMaximum(stats: seq<StatsRow>, i: nat)
    requires DatesUnique(stats) && i < |stats|
    requires forall j :: 0 <= j < |stats| ==> stats[j].date <= stats[i].date
    ensures LatestStats(stats) == Ok(stats[i])
  {
    var best := LatestStats(stats).value;
    var k :| 0 <= k < |stats| && stats[k] == best;
    assert stats[k].date == stats[i].date;
  }

  /** `SELECT COUNT(*) FROM online_users`: every row, stale or not. */
  function OnlineUsers(sessions: map<string, Session>): (n: nat)
    ensures n == |sessions.Keys|
    ensures n == 0 <==> sessions.Keys == {}
  {
    |sessions|
  }

  /** The count does not purge: while a stale session is still stored, the
      count exceeds the number of sessions that a purge at `now` keeps. */
  lemma CountIncludesStale(sessions: map<string, Session>, r: map<string, Session>, k: string, now: int)
    requires PurgedFrom(r, sessions, now)
    requires k in sessions && Stale(sessions[k], now)
    ensures OnlineUsers(r) < OnlineUsers(sessions)
  {
    SubsetCard(r.Keys, sessions.Keys - {k});
    RemoveCard(sessions.Keys, k);
  }

  /** The next purge follows a heartbeat. When that heartbeat comes from a
      session already stored, it adds no row, so a stale session stored now
      makes the count larger than what the heartbeat and purge leave. */
  lemma CountDropsAtKnownHeartbeat(sessions: map<string, Session>, id: string, ip: string, now: int,
                                   r: map<string, Session>, k: string)
    requires id in sessions && k in sessions && k != id && Stale(sessions[k], now)
    requires PurgedFrom(r, Heartbeat(sessions, id, ip, now), now)
    ensures OnlineUsers(r) < OnlineUsers(sessions)
  {
    var h := Heartbeat(sessions, id, ip, now);
    SetEq(h.Keys, sessions.Keys);
    CountIncludesStale(h, r, k, now);
  }

  /** Right after a purge at `now` the count is exactly the number of
      sessions active in the last ten minutes. */
  lemma CountAfterPurge(sessions: map<string, Session>, r: map<string, Session>, now: int)
    requires PurgedFrom(r, sessions, now)
    ensures OnlineUsers(r) == |set k | k in sessions && !Stale(sessions[k], now)|
  {
    SetEq(r.Keys, set k | k in sessions && !Stale(sessions[k], now));
  }
}

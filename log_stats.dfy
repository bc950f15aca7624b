/**
 * `get_log_stats`: a summary of one month's JSON log — how many commands,
 * how many of each type, which users, and the first and last timestamp.
 * The month's file is a parameter: `None` when it does not exist, otherwise
 * the records it holds.
 */
module LogStats {
  import opened Wrappers
  import opened PyStr
  import opened LogEntries

  const NoLogFileMessage := "No log file found for specified month"

  /** The earliest and latest timestamp seen, `None` before any record. */
  datatype DateRange = DateRange(start: Option<string>, end: Option<string>)

  datatype Stats = Stats(
    totalCommands: nat,
    commandTypes: map<string, nat>,
    users: set<string>,
    uniqueUsers: nat,
    dateRange: DateRange)

  /** The dictionary `get_log_stats` returns: the error entry alone, or the
      summary. */
  datatype StatsResult = Error(message: string) | Summary(stats: Stats)

  /** The command types of the records, in log order. */
  function CommandTypes(data: seq<LogEntry>): (kinds: seq<string>)
    ensures |kinds| == |data|
    ensures forall j :: 0 <= j < |data| ==> kinds[j] == data[j].commandType
  {
    if data == [] then []
    else CommandTypes(data[..|data| - 1]) + [data[|data| - 1].commandType]
  }

  /** The usernames that occur in the records. */
  ghost function Usernames(data: seq<LogEntry>): set<string> {
    set e | e in data :: e.username
  }

  /** The total of the values of a mapping. */
  ghost function SumValues(m: map<string, nat>): nat
    decreases |m|
  {
    if m == map[] then 0
    else
      var k :| k in m;
      assert (m - {k}).Keys == m.Keys - {k};
      m[k] + SumValues(m - {k})
  }

  /** Any key may be taken out first when summing. */
  lemma {:induction false} SumValuesRemove(m: map<string, nat>, k: string)
    requires k in m
    ensures SumValues(m) == m[k] + SumValues(m - {k})
    decreases |m|
  {
    var j :| j in m && SumValues(m) == m[j] + SumValues(m - {j}) && (m - {j}).Keys == m.Keys - {j};
    if j != k {
      assert (m - {k}).Keys == m.Keys - {k};
      assert m - {j} - {k} == m - {k} - {j};
      SumValuesRemove(m - {j}, k);
      SumValuesRemove(m - {k}, j);
    }
  }

  /** Setting one key's value changes the total by the difference. */
  lemma SumValuesUpdate(m: map<string, nat>, k: string, v: nat)
    ensures k in m ==> SumValues(m[k := v]) + m[k] == SumValues(m) + v
    ensures k !in m ==> SumValues(m[k := v]) == SumValues(m) + v
  {
    SumValuesRemove(m[k := v], k);
    if k in m {
      SumValuesRemove(m, k);
      assert m[k := v] - {k} == m - {k};
    } else {
      assert m[k := v] - {k} == m;
    }
  }

  /** The per-type counts: exactly the types that occur, each with its
      number of occurrences. */
  ghost predicate CountsOccurrences(counts: map<string, nat>, kinds: seq<string>) {
    forall t ::
      (t in counts <==> t in multiset(kinds)) &&
      (t in counts ==> counts[t] == multiset(kinds)[t])
  }

  /** The date range of some records: `None` for none, otherwise the least
      and the greatest timestamp, in string order, both taken from the
      records. */
  ghost predicate SpansTimestamps(data: seq<LogEntry>, range: DateRange) {
    (data == [] <==> range.start.None?) && (data == [] <==> range.end.None?) &&
    (data != [] ==>
       (exists j :: 0 <= j < |data| && data[j].timestamp == range.start.value) &&
       (exists j :: 0 <= j < |data| && data[j].timestamp == range.end.value) &&
       forall j :: 0 <= j < |data| ==>
         !Less(data[j].timestamp, range.start.value) && !Less(range.end.value, data[j].timestamp))
  }

  /** What the loop of `get_log_stats` knows after some records: their
      per-type counts, their users and their date range. */
  ghost predicate Summarises(seen: seq<LogEntry>, stats: Stats) {
    CountsOccurrences(stats.commandTypes, CommandTypes(seen)) &&
    SumValues(stats.commandTypes) == |seen| &&
    stats.users == Usernames(seen) && |stats.users| <= |seen| &&
    SpansTimestamps(seen, stats.dateRange)
  }

  /** `get_log_stats` over the month's log file. */
  method GetLogStats(logFile: Option<seq<LogEntry>>) returns (r: StatsResult)
    ensures logFile.None? <==> r.Error?
    ensures logFile.None? ==> r.message == NoLogFileMessage
    ensures logFile.Some? ==>
              var data := logFile.value;
              var s := r.stats;
              s.totalCommands == |data| &&
              CountsOccurrences(s.commandTypes, CommandTypes(data)) &&
              SumValues(s.commandTypes) == s.totalCommands &&
              s.users == Usernames(data) && s.uniqueUsers == |s.users| &&
              s.uniqueUsers <= s.totalCommands &&
              SpansTimestamps(data, s.dateRange)
  {
    if logFile.None? {
      return Error(NoLogFileMessage);
    }
    var stats := TallyAll(logFile.value);
    r := Summary(stats.(uniqueUsers := |stats.users|));
  }

  /** The loop of `get_log_stats`: every record counted, its user added and
      its timestamp compared with the range so far. */
  method TallyAll(data: seq<LogEntry>) returns (stats: Stats)
    ensures stats.totalCommands == |data|
    ensures Summarises(data, stats)
  {
    stats := Stats(|data|, map[], {}, 0, DateRange(None, None));
    ghost var seen: seq<LogEntry> := [];
    var i := 0;
    while i < |data|
      invariant 0 <= i <= |data|
      invariant seen == data[..i]
      invariant stats.totalCommands == |data|
      invariant Summarises(seen, stats)
    {
      var entry := data[i];
      stats := Tally(seen, stats, entry);
      Extend(data, i);
      seen := seen + [entry];
      i := i + 1;
    }
    assert data[..|data|] == data;
  }

  /** The records up to `i`, then record `i`, are the records up to `i + 1`. */
  lemma Extend(data: seq<LogEntry>, i: nat)
    requires i < |data|
    ensures data[..i + 1] == data[..i] + [data[i]]
  {
  }

  /** One turn of the loop: count the record's type, add its user, and
      compare its timestamp with the range so far. */
  method Tally(ghost seen: seq<LogEntry>, stats: Stats, entry: LogEntry) returns (after: Stats)
    requires Summarises(seen, stats)
    ensures Summarises(seen + [entry], after)
    ensures after.totalCommands == stats.totalCommands
  {
    assert (seen + [entry])[..|seen|] == seen;
    var commandTypes := CountCommandType(stats.commandTypes, CommandTypes(seen), entry.commandType);
    UsersStep(seen, entry, stats.users);
    var users := stats.users + {entry.username};
    var dateRange := TrackDateRange(seen, stats.dateRange, entry);
    after := stats.(commandTypes := commandTypes, users := users, dateRange := dateRange);
  }

  /** Counting one more record of type `kind`: its count goes up by one,
      starting from zero for a type not seen before. */
  method CountCommandType(counts: map<string, nat>, ghost kinds: seq<string>, kind: string)
    returns (after: map<string, nat>)
    requires CountsOccurrences(counts, kinds) && SumValues(counts) == |kinds|
    ensures CountsOccurrences(after, kinds + [kind]) && SumValues(after) == |kinds| + 1
  {
    var seen := if kind in counts then counts[kind] else 0;
    CountStep(counts, kinds, kind);
    SumValuesUpdate(counts, kind, seen + 1);
    after := counts[kind := seen + 1];
  }

  /** Comparing one more timestamp with the range so far: a strictly
      earlier one becomes the start, a strictly later one the end. */
  method TrackDateRange(ghost seen: seq<LogEntry>, range: DateRange, entry: LogEntry)
    returns (after: DateRange)
    requires SpansTimestamps(seen, range)
    ensures SpansTimestamps(seen + [entry], after)
  {
    var start := range.start;
    var end := range.end;
    var date := entry.timestamp;
    if start.None? || Less(date, start.value) {
      start := Some(date);
    }
    if end.None? || Less(end.value, date) {
      end := Some(date);
    }
    after := DateRange(start, end);
    RangeStep(seen, entry, range, after);
  }

  /** Counting one more record of type `kind`. */
  lemma CountStep(counts: map<string, nat>, kinds: seq<string>, kind: string)
    requires CountsOccurrences(counts, kinds)
    ensures CountsOccurrences(counts[kind := (if kind in counts then counts[kind] else 0) + 1],
                              kinds + [kind])
  {
    assert multiset(kinds + [kind]) == multiset(kinds) + multiset{kind};
  }

  /** Adding one more record's user. */
  lemma UsersStep(seen: seq<LogEntry>, entry: LogEntry, users: set<string>)
    requires users == Usernames(seen) && |users| <= |seen|
    ensures users + {entry.username} == Usernames(seen + [entry])
    ensures |users + {entry.username}| <= |seen + [entry]|
  {
    assert entry in seen + [entry];
    forall u | u in Usernames(seen + [entry]) ensures u in users + {entry.username} {
      var e :| e in seen + [entry] && e.username == u;
      if e != entry { assert e in seen; }
    }
    forall u | u in users ensures u in Usernames(seen + [entry]) {
      var e :| e in seen && e.username == u;
      assert e in seen + [entry];
    }
    if entry.username !in users {
      assert |users + {entry.username}| == |users| + 1;
    } else {
      assert users + {entry.username} == users;
    }
  }

  /** Comparing one more timestamp with the range so far: a strictly earlier
      one becomes the start, a strictly later one the end. */
  lemma RangeStep(seen: seq<LogEntry>, entry: LogEntry, before: DateRange, after: DateRange)
    requires SpansTimestamps(seen, before)
    requires after.start == (if before.start.None? || Less(entry.timestamp, before.start.value)
                             then Some(entry.timestamp) else before.start)
    requires after.end == (if before.end.None? || Less(before.end.value, entry.timestamp)
                           then Some(entry.timestamp) else before.end)
    ensures SpansTimestamps(seen + [entry], after)
  {
    var date := entry.timestamp;
    var all := seen + [entry];
    LessIrreflexive(date);
    assert all[|seen|] == entry;
    if seen == [] {
      assert after == DateRange(Some(date), Some(date));
    } else {
      var s := before.start.value;
      var e := before.end.value;
      if Less(date, s) {
        LaterThanNewStart(seen, date, s);
      } else {
        var j :| 0 <= j < |seen| && seen[j].timestamp == s;
        assert all[j] == seen[j];
      }
      if Less(e, date) {
        EarlierThanNewEnd(seen, e, date);
      } else {
        var j :| 0 <= j < |seen| && seen[j].timestamp == e;
        assert all[j] == seen[j];
      }
      forall j | 0 <= j < |all|
        ensures !Less(all[j].timestamp, after.start.value) && !Less(after.end.value, all[j].timestamp)
      {
        if j < |seen| { assert all[j] == seen[j]; }
      }
    }
  }

  /** A new earliest timestamp is still no later than every one before it. */
  lemma LaterThanNewStart(seen: seq<LogEntry>, date: string, start: string)
    requires Less(date, start)
    requires forall j :: 0 <= j < |seen| ==> !Less(seen[j].timestamp, start)
    ensures forall j :: 0 <= j < |seen| ==> !Less(seen[j].timestamp, date)
  {
    forall j | 0 <= j < |seen| ensures !Less(seen[j].timestamp, date) {
      if Less(seen[j].timestamp, date) {
        LessTransitive(seen[j].timestamp, date, start);
      }
    }
  }

  /** A new latest timestamp is still no earlier than every one before it. */
  lemma EarlierThanNewEnd(seen: seq<LogEntry>, end: string, date: string)
    requires Less(end, date)
    requires forall j :: 0 <= j < |seen| ==> !Less(end, seen[j].timestamp)
    ensures forall j :: 0 <= j < |seen| ==> !Less(date, seen[j].timestamp)
  {
    forall j | 0 <= j < |seen| ensures !Less(date, seen[j].timestamp) {
      if Less(date, seen[j].timestamp) {
        LessTransitive(end, date, seen[j].timestamp);
      }
    }
  }
}

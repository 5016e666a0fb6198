/** The rolling window of live activity: samples per address and per host, evicted by age. */
module LiveTracking {
  import opened Totals
  import opened Traffic

  /** hostCounts and topHost are used for addresses only. */
  datatype Sample = Sample(
    lastSeen: int, bytes: int, requests: int, hits: int, misses: int, topHost: string, hostCounts: map<string, int>)

  const NEW_SAMPLE := Sample(0, 0, 0, 0, 0, "", map[])

  datatype Live = Live(byIP: map<string, Sample>, byHost: map<string, Sample>)

  const NOBODY := Live(map[], map[])

  function CountOf(counts: map<string, int>, h: string): int {
    if h in counts then counts[h] else 0
  }

  function SampleOf(m: map<string, Sample>, k: string): Sample {
    if k in m then m[k] else NEW_SAMPLE
  }

  // ---- Transitions ----

  /** Lines without a status and without bytes are not tracked. */
  predicate Accepted(l: LogLine) {
    !(l.bytesSent <= 0 && l.status == 0)
  }

  function Hit(s: Sample, l: LogLine): Sample {
    s.(lastSeen := l.time, bytes := s.bytes + l.bytesSent, requests := s.requests + 1,
       hits := if l.IsHit() then s.hits + 1 else s.hits, misses := if l.IsHit() then s.misses else s.misses + 1)
  }

  function HitFrom(s: Sample, l: LogLine): Sample {
    var counts := s.hostCounts[l.host := CountOf(s.hostCounts, l.host) + 1];
    Hit(s, l).(hostCounts := counts,
               topHost := if counts[l.host] > CountOf(counts, s.topHost) then l.host else s.topHost)
  }

  function NotBefore(m: map<string, Sample>, cutoff: int): map<string, Sample> {
    map k | k in m && !(m[k].lastSeen < cutoff) :: m[k]
  }

  datatype Event = Track(line: LogLine) | Sweep(cutoff: int) | Reset

  function Next(v: Live, e: Event): Live {
    match e
    case Track(l) =>
      if Accepted(l) then
        Live(v.byIP[l.remoteAddr := HitFrom(SampleOf(v.byIP, l.remoteAddr), l)],
             v.byHost[l.host := Hit(SampleOf(v.byHost, l.host), l)])
      else v
    case Sweep(c) => Live(NotBefore(v.byIP, c), NotBefore(v.byHost, c))
    case Reset => NOBODY
  }

  function After(events: seq<Event>): Live {
    if events == [] then NOBODY else Next(After(events[..|events| - 1]), events[|events| - 1])
  }

  // ---- Entries as folds of their lines ----

  function ByIP(ip: string): LogLine -> bool {
    (l: LogLine) => l.remoteAddr == ip
  }

  function ByHost(h: string): LogLine -> bool {
    (l: LogLine) => l.host == h
  }

  function Any(): LogLine -> bool {
    (l: LogLine) => true
  }

  /** The accepted lines of one key since the last reset, or since a sweep found its newest line too old. */
  function History(mine: LogLine -> bool, events: seq<Event>): seq<LogLine> {
    if events == [] then []
    else HistoryNext(mine, History(mine, events[..|events| - 1]), events[|events| - 1])
  }

  function HistoryNext(mine: LogLine -> bool, lines: seq<LogLine>, e: Event): seq<LogLine> {
    match e
    case Track(l) => if Accepted(l) && mine(l) then lines + [l] else lines
    case Sweep(c) => if lines != [] && lines[|lines| - 1].time < c then [] else lines
    case Reset => []
  }

  function IPFold(lines: seq<LogLine>): Sample {
    if lines == [] then NEW_SAMPLE else HitFrom(IPFold(lines[..|lines| - 1]), lines[|lines| - 1])
  }

  function HostFold(lines: seq<LogLine>): Sample {
    if lines == [] then NEW_SAMPLE else Hit(HostFold(lines[..|lines| - 1]), lines[|lines| - 1])
  }

  /** The key is present exactly if it has lines, and then holds their fold. */
  predicate Holds(m: map<string, Sample>, k: string, lines: seq<LogLine>, fold: Sample) {
    (k in m) == (lines != []) && SampleOf(m, k) == fold
  }

  lemma FoldSnoc(lines: seq<LogLine>, l: LogLine)
    ensures IPFold(lines + [l]) == HitFrom(IPFold(lines), l)
    ensures HostFold(lines + [l]) == Hit(HostFold(lines), l)
  {
    assert (lines + [l])[..|lines|] == lines;
  }

  lemma EmptyFold()
    ensures IPFold([]) == HostFold([]) == NEW_SAMPLE
  {
  }

  lemma LastSeenIsLast(lines: seq<LogLine>)
    requires lines != []
    ensures IPFold(lines).lastSeen == HostFold(lines).lastSeen == lines[|lines| - 1].time
  {
    hide LogLine.IsHit;
  }

  lemma IPStep(v: Live, k: string, lines: seq<LogLine>, e: Event)
    requires Holds(v.byIP, k, lines, IPFold(lines))
    ensures var after := HistoryNext(ByIP(k), lines, e); Holds(Next(v, e).byIP, k, after, IPFold(after))
  {
    hide Hit, HitFrom, IPFold, HostFold;
    EmptyFold();
    if e.Track? {
      FoldSnoc(lines, e.line);
    } else if e.Sweep? && lines != [] {
      LastSeenIsLast(lines);
    }
  }

  lemma HostStep(v: Live, k: string, lines: seq<LogLine>, e: Event)
    requires Holds(v.byHost, k, lines, HostFold(lines))
    ensures var after := HistoryNext(ByHost(k), lines, e); Holds(Next(v, e).byHost, k, after, HostFold(after))
  {
    hide Hit, HitFrom, IPFold, HostFold;
    EmptyFold();
    if e.Track? {
      FoldSnoc(lines, e.line);
    } else if e.Sweep? && lines != [] {
      LastSeenIsLast(lines);
    }
  }

  /** In every reachable state each entry is the fold of its key's accepted lines since it last went away. */
  lemma {:induction false} EntriesAreFolds(events: seq<Event>, k: string)
    ensures var ips := History(ByIP(k), events); Holds(After(events).byIP, k, ips, IPFold(ips))
    ensures var hosts := History(ByHost(k), events); Holds(After(events).byHost, k, hosts, HostFold(hosts))
  {
    hide Next, HistoryNext, IPFold, HostFold;
    if events == [] {
      EmptyFold();
    } else {
      var front, e := events[..|events| - 1], events[|events| - 1];
      EntriesAreFolds(front, k);
      IPStep(After(front), k, History(ByIP(k), front), e);
      HostStep(After(front), k, History(ByHost(k), front), e);
    }
  }

  /** A line counts, for its address and its host, if it has bytes or a status, and otherwise nothing changes. */
  lemma LineCounts(v: Live, l: LogLine)
    ensures var v' := Next(v, Track(l));
            if l.bytesSent > 0 || l.status != 0 then
              && l.remoteAddr in v'.byIP && l.host in v'.byHost
              && v'.byIP[l.remoteAddr].requests == SampleOf(v.byIP, l.remoteAddr).requests + 1
              && v'.byIP[l.remoteAddr].bytes == SampleOf(v.byIP, l.remoteAddr).bytes + l.bytesSent
              && v'.byHost[l.host].requests == SampleOf(v.byHost, l.host).requests + 1
              && v'.byHost[l.host].bytes == SampleOf(v.byHost, l.host).bytes + l.bytesSent
            else v' == v
  {
    hide LogLine.IsHit;
  }

  // ---- Who is present ----

  /** The line of event i is the newest of its key, and nothing after it took the key away. */
  predicate LastsFrom(mine: LogLine -> bool, events: seq<Event>, i: nat)
    requires i < |events|
  {
    && events[i].Track? && Accepted(events[i].line) && mine(events[i].line)
    && forall j :: i < j < |events| ==> Spares(mine, events[i].line, events[j])
  }

  /** The event neither replaces the key's newest line l nor finds it too old nor forgets everything. */
  predicate Spares(mine: LogLine -> bool, l: LogLine, e: Event) {
    match e
    case Track(x) => !(Accepted(x) && mine(x))
    case Sweep(c) => l.time >= c
    case Reset => false
  }

  lemma LastsSnoc(mine: LogLine -> bool, front: seq<Event>, e: Event, i: nat)
    requires i < |front|
    ensures LastsFrom(mine, front + [e], i) <==> LastsFrom(mine, front, i) && Spares(mine, front[i].line, e)
  {
    var events := front + [e];
    assert events[i] == front[i];
    if LastsFrom(mine, events, i) {
      assert forall j :: i < j < |front| ==> events[j] == front[j];
      assert events[|front|] == e;
    }
  }

  /** A key has a history exactly if one of its lines lasts, and then that line is the last of the history. */
  lemma {:induction false} HistoryLasts(mine: LogLine -> bool, events: seq<Event>)
    ensures History(mine, events) != [] <==> exists i :: 0 <= i < |events| && LastsFrom(mine, events, i)
    ensures forall i :: 0 <= i < |events| && LastsFrom(mine, events, i) ==>
              History(mine, events) != [] && History(mine, events)[|History(mine, events)| - 1] == events[i].line
  {
    hide Accepted;
    if events != [] {
      var front, e := events[..|events| - 1], events[|events| - 1];
      assert events == front + [e];
      HistoryLasts(mine, front);
      var lines := History(mine, front);
      forall i | 0 <= i < |front| ensures LastsFrom(mine, events, i) <==> LastsFrom(mine, front, i) && Spares(mine, front[i].line, e) {
        LastsSnoc(mine, front, e, i);
      }
      assert LastsFrom(mine, events, |front|) <==> e.Track? && Accepted(e.line) && mine(e.line);
      if lines != [] {
        var i :| 0 <= i < |front| && LastsFrom(mine, front, i);
        assert lines[|lines| - 1] == front[i].line;
      }
    }
  }

  /**
   * Told from the events alone: an entry is there if and only if some accepted line of its key was followed by
   * no other line of the key, by no sweep whose cutoff was after it, and by no reset; its lastSeen is that
   * line's time. Sweeps in between change nothing else: the entry is still the fold of EntriesAreFolds.
   */
  lemma PresentIffLasting(events: seq<Event>, k: string)
    ensures var v := After(events);
            && (k in v.byIP <==> exists i :: 0 <= i < |events| && LastsFrom(ByIP(k), events, i))
            && (k in v.byHost <==> exists i :: 0 <= i < |events| && LastsFrom(ByHost(k), events, i))
            && (forall i :: 0 <= i < |events| && LastsFrom(ByIP(k), events, i) ==> v.byIP[k].lastSeen == events[i].line.time)
            && (forall i :: 0 <= i < |events| && LastsFrom(ByHost(k), events, i) ==> v.byHost[k].lastSeen == events[i].line.time)
  {
    hide LastsFrom, History, After, IPFold, HostFold;
    EntriesAreFolds(events, k);
    HistoryLasts(ByIP(k), events);
    HistoryLasts(ByHost(k), events);
    var ips, hosts := History(ByIP(k), events), History(ByHost(k), events);
    if ips != [] { LastSeenIsLast(ips); }
    if hosts != [] { LastSeenIsLast(hosts); }
  }

  // ---- What a fold says about its lines ----

  function Itself(): int -> int {
    (n: int) => n
  }

  lemma HostFoldIsPart(lines: seq<LogLine>)
    ensures HostFold(lines) == IPFold(lines).(topHost := "", hostCounts := map[])
  {
    hide LogLine.IsHit;
  }

  /** The counters of a fold are the tally of its lines. */
  lemma {:induction false} FoldTally(lines: seq<LogLine>)
    ensures var s, all := IPFold(lines), Tally(Any(), lines);
            && s.bytes == all.BytesTotal() && s.hits == all.requestsHit && s.misses == all.requestsMiss
            && s.hits + s.misses == s.requests == |lines|
  {
    hide LogLine.IsHit;
    if lines != [] {
      FoldTally(lines[..|lines| - 1]);
      TallyLast(Any(), lines);
    }
  }

  lemma {:induction false} HostCountIsTally(lines: seq<LogLine>, h: string)
    ensures CountOf(IPFold(lines).hostCounts, h) == Tally(ByHost(h), lines).RequestsTotal()
  {
    hide LogLine.IsHit;
    if lines != [] {
      HostCountIsTally(lines[..|lines| - 1], h);
      TallyLast(ByHost(h), lines);
    }
  }

  /** The host counts are a partition of the requests. */
  lemma {:induction false} HostCountsAddUp(lines: seq<LogLine>)
    ensures var s := IPFold(lines); MapTotal(s.hostCounts, Itself()) == s.requests
  {
    hide LogLine.IsHit;
    if lines != [] {
      var front, l := lines[..|lines| - 1], lines[|lines| - 1];
      HostCountsAddUp(front);
      var counts := IPFold(front).hostCounts;
      MapTotalPut(counts, Itself(), l.host, CountOf(counts, l.host) + 1);
    }
  }

  /** h was the first host to be counted n times. */
  ghost predicate FirstToReach(h: string, n: int, lines: seq<LogLine>) {
    exists i :: 0 <= i < |lines| && FirstAt(h, n, lines, i)
  }

  ghost predicate FirstAt(h: string, n: int, lines: seq<LogLine>, i: nat)
    requires i < |lines|
  {
    && CountOf(IPFold(lines[..i + 1]).hostCounts, h) == n
    && (forall j, x :: 0 <= j <= i ==> CountOf(IPFold(lines[..j]).hostCounts, x) < n)
  }

  ghost predicate AtMostEver(n: int, lines: seq<LogLine>) {
    forall j, x :: 0 <= j <= |lines| ==> CountOf(IPFold(lines[..j]).hostCounts, x) <= n
  }

  /** One more line moves the largest count by at most one, and topHost with it. */
  lemma HitFromLeads(s: Sample, l: LogLine, n: int)
    requires n == CountOf(s.hostCounts, s.topHost) && forall x :: CountOf(s.hostCounts, x) <= n
    ensures var s' := HitFrom(s, l); var n' := CountOf(s'.hostCounts, s'.topHost);
            && (n' == n + 1 || (n' == n && s'.topHost == s.topHost))
            && (forall x :: CountOf(s'.hostCounts, x) <= n')
  {
    hide Hit;
    var counts := HitFrom(s, l).hostCounts;
    assert forall x :: CountOf(counts, x) == CountOf(s.hostCounts, x) + if x == l.host then 1 else 0;
  }

  lemma AtMostEverSnoc(front: seq<LogLine>, l: LogLine, n: int, n': int)
    requires AtMostEver(n, front) && n <= n' && forall x :: CountOf(IPFold(front + [l]).hostCounts, x) <= n'
    ensures AtMostEver(n', front + [l])
  {
    hide IPFold;
    var lines := front + [l];
    forall j, x | 0 <= j <= |lines| ensures CountOf(IPFold(lines[..j]).hostCounts, x) <= n' {
      if j < |lines| {
        assert lines[..j] == front[..j];
      } else {
        assert lines[..j] == lines;
      }
    }
  }

  lemma FirstAtSnoc(h: string, n: int, front: seq<LogLine>, l: LogLine, i: nat)
    requires i < |front| && FirstAt(h, n, front, i)
    ensures FirstAt(h, n, front + [l], i)
  {
    hide IPFold;
    assert forall j :: 0 <= j <= i + 1 ==> (front + [l])[..j] == front[..j];
  }

  lemma FirstAtEnd(h: string, n: int, front: seq<LogLine>, l: LogLine)
    requires AtMostEver(n - 1, front) && CountOf(IPFold(front + [l]).hostCounts, h) == n
    ensures FirstAt(h, n, front + [l], |front|)
  {
    hide IPFold;
    assert (front + [l])[..|front| + 1] == front + [l];
    assert forall j :: 0 <= j <= |front| ==> (front + [l])[..j] == front[..j];
  }

  lemma NoLinesNoCounts()
    ensures AtMostEver(0, []) && CountOf(IPFold([]).hostCounts, "") == 0
  {
  }

  lemma LatestCounts(n: int, lines: seq<LogLine>)
    requires AtMostEver(n, lines)
    ensures forall x :: CountOf(IPFold(lines).hostCounts, x) <= n
  {
    hide IPFold;
    assert lines[..|lines|] == lines;
  }

  lemma FirstLineCounts(l: LogLine)
    ensures CountOf(HitFrom(NEW_SAMPLE, l).hostCounts, l.host) == 1
  {
    hide LogLine.IsHit;
  }

  function TopCount(lines: seq<LogLine>): int {
    CountOf(IPFold(lines).hostCounts, IPFold(lines).topHost)
  }

  lemma TopGrows(front: seq<LogLine>, l: LogLine)
    requires AtMostEver(TopCount(front), front)
    ensures TopCount(front + [l]) == TopCount(front) + 1 ||
            (TopCount(front + [l]) == TopCount(front) && front != [] && IPFold(front + [l]).topHost == IPFold(front).topHost)
    ensures forall x :: CountOf(IPFold(front + [l]).hostCounts, x) <= TopCount(front + [l])
  {
    hide HitFrom, IPFold, CountOf;
    FoldSnoc(front, l);
    LatestCounts(TopCount(front), front);
    HitFromLeads(IPFold(front), l, TopCount(front));
    FirstLineCounts(l);
    EmptyFold();
    NoLinesNoCounts();
  }

  /** topHost has the largest count of all hosts, and of those with that count it was the first to reach it. */
  lemma {:induction false} TopHostLeads(lines: seq<LogLine>)
    ensures AtMostEver(TopCount(lines), lines)
    ensures lines != [] ==> FirstToReach(IPFold(lines).topHost, TopCount(lines), lines)
  {
    hide FirstAt, AtMostEver, IPFold, TopCount, CountOf;
    if lines == [] {
      EmptyFold();
      NoLinesNoCounts();
      TopOfNothing();
    } else {
      var front, l := lines[..|lines| - 1], lines[|lines| - 1];
      assert lines == front + [l];
      TopHostLeads(front);
      TopGrows(front, l);
      AtMostEverSnoc(front, l, TopCount(front), TopCount(lines));
      if TopCount(lines) == TopCount(front) + 1 {
        TopIsCount(lines);
        FirstAtEnd(IPFold(lines).topHost, TopCount(lines), front, l);
      } else {
        var i :| 0 <= i < |front| && FirstAt(IPFold(front).topHost, TopCount(front), front, i);
        FirstAtSnoc(IPFold(front).topHost, TopCount(front), front, l, i);
      }
    }
  }

  lemma TopOfNothing()
    ensures TopCount([]) == 0
  {
  }

  lemma TopIsCount(lines: seq<LogLine>)
    ensures TopCount(lines) == CountOf(IPFold(lines).hostCounts, IPFold(lines).topHost)
  {
  }

  /** In every reachable state: hits and misses add up to requests, host counts too, and topHost leads. */
  lemma SampleInvariant(events: seq<Event>, ip: string, h: string)
    requires ip in After(events).byIP
    ensures var s := After(events).byIP[ip];
            && s.hits + s.misses == s.requests == MapTotal(s.hostCounts, Itself())
            && CountOf(s.hostCounts, h) <= CountOf(s.hostCounts, s.topHost)
  {
    var lines := History(ByIP(ip), events);
    EntriesAreFolds(events, ip);
    FoldTally(lines);
    HostCountsAddUp(lines);
    TopHostLeads(lines);
    LatestCounts(CountOf(IPFold(lines).hostCounts, IPFold(lines).topHost), lines);
  }

  // ---- Addresses against hosts ----

  /** No sweep has evicted anything since the last reset. */
  predicate NothingEvicted(events: seq<Event>) {
    events == [] ||
    var front, last := events[..|events| - 1], events[|events| - 1];
    last.Reset? || (NothingEvicted(front) && (last.Sweep? ==> After(events) == After(front)))
  }

  /** All accepted lines since the last reset. */
  function SinceReset(events: seq<Event>): seq<LogLine> {
    if events == [] then []
    else
      var lines, last := SinceReset(events[..|events| - 1]), events[|events| - 1];
      match last
      case Track(l) => if Accepted(l) then lines + [l] else lines
      case Sweep(_) => lines
      case Reset => []
  }

  function Bytes(): Sample -> int {
    (s: Sample) => s.bytes
  }

  function Requests(): Sample -> int {
    (s: Sample) => s.requests
  }

  /** The entries add up to the tally of the lines. */
  ghost predicate AddsUp(m: map<string, Sample>, lines: seq<LogLine>) {
    MapTotal(m, Bytes()) == Tally(Any(), lines).BytesTotal() && MapTotal(m, Requests()) == |lines|
  }

  lemma OneMoreLine(lines: seq<LogLine>, l: LogLine)
    ensures Tally(Any(), lines + [l]).BytesTotal() == Tally(Any(), lines).BytesTotal() + l.bytesSent
  {
    hide LogLine.IsHit, Tally;
    TallySnoc(Any(), lines, l);
  }

  lemma AddsUpStep(m: map<string, Sample>, k: string, s: Sample, l: LogLine, lines: seq<LogLine>)
    requires AddsUp(m, lines) && s.bytes == SampleOf(m, k).bytes + l.bytesSent && s.requests == SampleOf(m, k).requests + 1
    ensures AddsUp(m[k := s], lines + [l])
  {
    hide Tally, MapTotal;
    OneMoreLine(lines, l);
    MapTotalPut(m, Bytes(), k, s);
    MapTotalPut(m, Requests(), k, s);
  }

  lemma NobodyAddsUp()
    ensures AddsUp(map[], [])
  {
  }

  /** Until the first eviction after a reset, addresses and hosts both add up to the accepted lines. */
  lemma {:induction false} SumsAgree(events: seq<Event>)
    requires NothingEvicted(events)
    ensures AddsUp(After(events).byIP, SinceReset(events)) && AddsUp(After(events).byHost, SinceReset(events))
  {
    hide AddsUp, LogLine.IsHit, Accepted, NotBefore;
    NobodyAddsUp();
    if events != [] {
      var front, e := events[..|events| - 1], events[|events| - 1];
      var v, lines := After(front), SinceReset(front);
      if e.Track? && Accepted(e.line) {
        SumsAgree(front);
        AddsUpStep(v.byIP, e.line.remoteAddr, HitFrom(SampleOf(v.byIP, e.line.remoteAddr), e.line), e.line, lines);
        AddsUpStep(v.byHost, e.line.host, Hit(SampleOf(v.byHost, e.line.host), e.line), e.line, lines);
      } else if !e.Reset? {
        SumsAgree(front);
      }
    }
  }
}

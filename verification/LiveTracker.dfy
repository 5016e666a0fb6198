/** The live tracker as it runs: samples updated line by line, swept on a timer, listed for the dashboard. */
module LiveTrackers {
  import opened Traffic
  import opened LiveTracking
  import LineSums

  datatype IPSnapshot = IPSnapshot(ip: string, bytes: int, requests: int, hitRatio: real, topHost: string, lastSeen: int)

  datatype HostSnapshot = HostSnapshot(host: string, bytes: int, requests: int, hitRatio: real, lastSeen: int)

  function Ratio(hits: int, total: int): real {
    if total == 0 then 0.0 else hits as real / total as real
  }

  function IPRow(ip: string, s: Sample): IPSnapshot {
    IPSnapshot(ip, s.bytes, s.requests, Ratio(s.hits, s.requests), s.topHost, s.lastSeen)
  }

  function HostRow(h: string, s: Sample): HostSnapshot {
    HostSnapshot(h, s.bytes, s.requests, Ratio(s.hits, s.requests), s.lastSeen)
  }

  function IPRows(m: map<string, Sample>, keys: set<string>): set<IPSnapshot> {
    set k | k in keys && k in m :: IPRow(k, m[k])
  }

  function HostRows(m: map<string, Sample>, keys: set<string>): set<HostSnapshot> {
    set k | k in keys && k in m :: HostRow(k, m[k])
  }

  function IPBytes(): IPSnapshot -> int {
    (s: IPSnapshot) => s.bytes
  }

  function HostBytes(): HostSnapshot -> int {
    (s: HostSnapshot) => s.bytes
  }

  predicate Descending<T>(rows: seq<T>, weight: T -> int) {
    forall i, j :: 0 <= i < j < |rows| ==> weight(rows[i]) >= weight(rows[j])
  }

  function Insert<T>(rows: seq<T>, x: T, weight: T -> int): seq<T> {
    if rows == [] || weight(rows[0]) < weight(x) then [x] + rows else [rows[0]] + Insert(rows[1..], x, weight)
  }

  /** A sort by falling weight; the order of equal weights is not specified. */
  function Sort<T>(rows: seq<T>, weight: T -> int): seq<T> {
    if rows == [] then [] else Insert(Sort(rows[1..], weight), rows[0], weight)
  }

  lemma {:induction false} InsertKeepsAll<T>(rows: seq<T>, x: T, weight: T -> int)
    ensures multiset(Insert(rows, x, weight)) == multiset(rows) + multiset{x}
  {
    if rows != [] {
      InsertKeepsAll(rows[1..], x, weight);
      assert rows == [rows[0]] + rows[1..];
    }
  }

  lemma {:induction false} InsertKeepsOrder<T>(rows: seq<T>, x: T, weight: T -> int)
    requires Descending(rows, weight)
    ensures Descending(Insert(rows, x, weight), weight)
  {
    if rows != [] && weight(rows[0]) >= weight(x) {
      var rest := Insert(rows[1..], x, weight);
      InsertKeepsOrder(rows[1..], x, weight);
      InsertKeepsAll(rows[1..], x, weight);
      forall i | 0 <= i < |rest| ensures weight(rows[0]) >= weight(rest[i]) {
        assert rest[i] in multiset(rest);
        assert rest[i] in rows[1..] || rest[i] == x;
      }
    }
  }

  lemma {:induction false} SortSorts<T>(rows: seq<T>, weight: T -> int)
    ensures multiset(Sort(rows, weight)) == multiset(rows) && Descending(Sort(rows, weight), weight)
  {
    if rows != [] {
      SortSorts(rows[1..], weight);
      InsertKeepsAll(Sort(rows[1..], weight), rows[0], weight);
      InsertKeepsOrder(Sort(rows[1..], weight), rows[0], weight);
      assert rows == [rows[0]] + rows[1..];
    }
  }

  class LiveTracker {
    const window: int
    var byIP: map<string, Sample>
    var byHost: map<string, Sample>

    constructor (window: int)
      ensures this.window == window && Now() == NOBODY
    {
      this.window, byIP, byHost := window, map[], map[];
    }

    function Now(): Live
      reads this
    {
      Live(byIP, byHost)
    }

    method Track(line: LogLine)
      modifies this
      ensures Now() == Next(old(Now()), Event.Track(line))
    {
      if line.bytesSent <= 0 && line.status == 0 { return; }
      var ip := if line.remoteAddr in byIP then byIP[line.remoteAddr] else NEW_SAMPLE;
      ip := ip.(lastSeen := line.time, bytes := ip.bytes + line.bytesSent, requests := ip.requests + 1);
      if line.IsHit() {
        ip := ip.(hits := ip.hits + 1);
      } else {
        ip := ip.(misses := ip.misses + 1);
      }
      ip := ip.(hostCounts := ip.hostCounts[line.host := CountOf(ip.hostCounts, line.host) + 1]);
      if CountOf(ip.hostCounts, line.host) > CountOf(ip.hostCounts, ip.topHost) {
        ip := ip.(topHost := line.host);
      }
      assert ip == HitFrom(SampleOf(byIP, line.remoteAddr), line);
      byIP := byIP[line.remoteAddr := ip];

      var host := if line.host in byHost then byHost[line.host] else NEW_SAMPLE;
      host := host.(lastSeen := line.time, bytes := host.bytes + line.bytesSent, requests := host.requests + 1);
      if line.IsHit() {
        host := host.(hits := host.hits + 1);
      } else {
        host := host.(misses := host.misses + 1);
      }
      assert host == Hit(SampleOf(byHost, line.host), line);
      byHost := byHost[line.host := host];
    }

    method Sweep(now: int)
      modifies this
      ensures Now() == Next(old(Now()), Event.Sweep(now - window))
      ensures forall k :: k in byIP <==> k in old(byIP) && now <= old(byIP)[k].lastSeen + window
      ensures forall k :: k in byHost <==> k in old(byHost) && now <= old(byHost)[k].lastSeen + window
    {
      var cutoff := now - window;
      byIP := DropOld(byIP, cutoff);
      byHost := DropOld(byHost, cutoff);
    }

    /** Deletes old entries from a map while walking over its keys. */
    static method DropOld(entries: map<string, Sample>, cutoff: int) returns (kept: map<string, Sample>)
      ensures kept == NotBefore(entries, cutoff)
    {
      kept := entries;
      var rest := entries.Keys;
      while rest != {}
        invariant rest <= kept.Keys <= entries.Keys
        invariant forall k :: k in entries && k !in rest ==> (k in kept <==> entries[k].lastSeen >= cutoff)
        invariant forall k :: k in kept ==> kept[k] == entries[k]
        decreases rest
      {
        var k :| k in rest;
        if kept[k].lastSeen < cutoff { kept := kept - {k}; }
        rest := rest - {k};
      }
    }

    method Reset()
      modifies this
      ensures Now() == Next(old(Now()), Event.Reset)
    {
      byIP := map[];
      byHost := map[];
    }

    /** Every tracked address once, most bytes first. */
    method SnapshotIPs() returns (out: seq<IPSnapshot>)
      ensures multiset(out) == multiset(IPRows(byIP, byIP.Keys)) && Descending(out, IPBytes())
    {
      var rows: seq<IPSnapshot> := [];
      var rest := byIP.Keys;
      while rest != {}
        invariant rest <= byIP.Keys && multiset(rows) == multiset(IPRows(byIP, byIP.Keys - rest))
        decreases rest
      {
        var k :| k in rest;
        IPRowsGrow(byIP, byIP.Keys - rest, k);
        assert byIP.Keys - (rest - {k}) == byIP.Keys - rest + {k};
        rows := rows + [IPRow(k, byIP[k])];
        rest := rest - {k};
      }
      assert byIP.Keys - rest == byIP.Keys;
      SortSorts(rows, IPBytes());
      out := Sort(rows, IPBytes());
    }

    /** Every tracked host once, most bytes first. */
    method SnapshotHosts() returns (out: seq<HostSnapshot>)
      ensures multiset(out) == multiset(HostRows(byHost, byHost.Keys)) && Descending(out, HostBytes())
    {
      var rows: seq<HostSnapshot> := [];
      var rest := byHost.Keys;
      while rest != {}
        invariant rest <= byHost.Keys && multiset(rows) == multiset(HostRows(byHost, byHost.Keys - rest))
        decreases rest
      {
        var k :| k in rest;
        HostRowsGrow(byHost, byHost.Keys - rest, k);
        assert byHost.Keys - (rest - {k}) == byHost.Keys - rest + {k};
        rows := rows + [HostRow(k, byHost[k])];
        rest := rest - {k};
      }
      assert byHost.Keys - rest == byHost.Keys;
      SortSorts(rows, HostBytes());
      out := Sort(rows, HostBytes());
    }
  }

  lemma IPRowsGrow(m: map<string, Sample>, keys: set<string>, k: string)
    requires k in m && k !in keys
    ensures multiset(IPRows(m, keys + {k})) == multiset(IPRows(m, keys)) + multiset{IPRow(k, m[k])}
  {
    var row := IPRow(k, m[k]);
    forall x ensures x in IPRows(m, keys + {k}) <==> x in IPRows(m, keys) || x == row {
      if x == row { assert k in keys + {k}; }
    }
    assert row !in IPRows(m, keys);
    assert IPRows(m, keys + {k}) == IPRows(m, keys) + {row};
  }

  lemma HostRowsGrow(m: map<string, Sample>, keys: set<string>, k: string)
    requires k in m && k !in keys
    ensures multiset(HostRows(m, keys + {k})) == multiset(HostRows(m, keys)) + multiset{HostRow(k, m[k])}
  {
    var row := HostRow(k, m[k]);
    forall x ensures x in HostRows(m, keys + {k}) <==> x in HostRows(m, keys) || x == row {
      if x == row { assert k in keys + {k}; }
    }
    assert row !in HostRows(m, keys);
    assert HostRows(m, keys + {k}) == HostRows(m, keys) + {row};
  }

  lemma {:induction false} HitsNotNegative(lines: seq<LogLine>)
    ensures IPFold(lines).hits >= 0 && IPFold(lines).misses >= 0
  {
    hide LogLine.IsHit;
    if lines != [] { HitsNotNegative(lines[..|lines| - 1]); }
  }

  lemma RatioBounds(hits: int, total: int)
    requires 0 <= hits <= total
    ensures 0.0 <= Ratio(hits, total) <= 1.0
  {
  }

  /** In every reachable state the listed hit ratio of an address lies between 0 and 1. */
  lemma RatioInRange(events: seq<LiveTracking.Event>, ip: string)
    requires ip in LiveTracking.After(events).byIP
    ensures 0.0 <= IPRow(ip, LiveTracking.After(events).byIP[ip]).hitRatio <= 1.0
  {
    hide Tally, IPFold, HostFold, Ratio, LiveTracking.After, History;
    var lines := History(ByIP(ip), events);
    EntriesAreFolds(events, ip);
    FoldTally(lines);
    HitsNotNegative(lines);
    var s := LiveTracking.After(events).byIP[ip];
    RatioBounds(s.hits, s.requests);
  }

  // ---- The listed rows, in terms of the log lines ----

  lemma FoldSums(lines: seq<LogLine>)
    ensures var s := IPFold(lines);
            && s.bytes == LineSums.BytesOf(Any(), lines) && s.requests == |lines|
            && s.hits == LineSums.NumberOf(LineSums.Cached(Any()), lines)
  {
    hide IPFold, Tally, LineSums.BytesOf, LineSums.NumberOf;
    FoldTally(lines);
    LineSums.TallySums(Any(), lines);
    LineSums.CachedOrFetched(Any(), lines);
  }

  /** The ratio is the quotient, and nothing of nothing is 0. */
  lemma RatioTimes(hits: int, total: int)
    ensures total != 0 ==> Ratio(hits, total) * total as real == hits as real
    ensures Ratio(hits, 0) == 0.0
  {
  }

  /**
   * The row listed for an address: the bytes and the number of its lines, the share of those from the cache, a
   * host that no other host exceeds in lines, and the time of the last line; its lines are those accepted since it
   * last went away. The row of a host is the same without a top host.
   */
  lemma RowsSayLines(events: seq<LiveTracking.Event>, k: string)
    ensures var v, lines := LiveTracking.After(events), History(ByIP(k), events);
            k in v.byIP ==>
              && lines != []
              && var row := IPRow(k, v.byIP[k]);
                 && row.ip == k && row.bytes == LineSums.BytesOf(Any(), lines) && row.requests == |lines|
                 && row.hitRatio * |lines| as real == LineSums.NumberOf(LineSums.Cached(Any()), lines) as real
                 && row.lastSeen == lines[|lines| - 1].time
                 && forall h :: LineSums.NumberOf(ByHost(h), lines) <= LineSums.NumberOf(ByHost(row.topHost), lines)
    ensures var v, lines := LiveTracking.After(events), History(ByHost(k), events);
            k in v.byHost ==>
              && lines != []
              && var row := HostRow(k, v.byHost[k]);
                 && row.host == k && row.bytes == LineSums.BytesOf(Any(), lines) && row.requests == |lines|
                 && row.hitRatio * |lines| as real == LineSums.NumberOf(LineSums.Cached(Any()), lines) as real
                 && row.lastSeen == lines[|lines| - 1].time
  {
    hide IPFold, HostFold, Ratio, LiveTracking.After, History, LineSums.BytesOf, LineSums.NumberOf;
    EntriesAreFolds(events, k);
    var v, ips, hosts := LiveTracking.After(events), History(ByIP(k), events), History(ByHost(k), events);
    if k in v.byIP {
      LastSeenIsLast(ips);
      FoldSums(ips);
      RatioTimes(v.byIP[k].hits, |ips|);
      forall h ensures LineSums.NumberOf(ByHost(h), ips) <= LineSums.NumberOf(ByHost(v.byIP[k].topHost), ips) {
        SampleInvariant(events, k, h);
        HostCountIsNumber(ips, h);
        HostCountIsNumber(ips, v.byIP[k].topHost);
      }
    }
    if k in v.byHost {
      LastSeenIsLast(hosts);
      HostFoldIsPart(hosts);
      FoldSums(hosts);
      RatioTimes(v.byHost[k].hits, |hosts|);
    }
  }

  lemma HostCountIsNumber(lines: seq<LogLine>, h: string)
    ensures CountOf(IPFold(lines).hostCounts, h) == LineSums.NumberOf(ByHost(h), lines)
  {
    hide IPFold, Tally, LineSums.NumberOf;
    HostCountIsTally(lines, h);
    LineSums.TallySums(ByHost(h), lines);
    LineSums.CachedOrFetched(ByHost(h), lines);
  }
}

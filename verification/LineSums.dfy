/** The traffic counters stated on the log lines themselves: sums of bytes and numbers of lines. */
module LineSums {
  import opened Traffic
  import opened Aggregation
  import opened RowSums
  import opened Queries
  import opened Reports

  /** The bytes of the lines that satisfy f. */
  function BytesOf(f: LogLine -> bool, lines: seq<LogLine>): int {
    if lines == [] then 0
    else BytesOf(f, lines[..|lines| - 1]) + if f(lines[|lines| - 1]) then lines[|lines| - 1].bytesSent else 0
  }

  /** How many lines satisfy f. */
  function NumberOf(f: LogLine -> bool, lines: seq<LogLine>): int {
    if lines == [] then 0
    else NumberOf(f, lines[..|lines| - 1]) + if f(lines[|lines| - 1]) then 1 else 0
  }

  /** Served from the cache, as the log says it. */
  predicate FromCache(l: LogLine) {
    l.cacheStatus in {"HIT", "REVALIDATED"}
  }

  function Cached(sel: LogLine -> bool): LogLine -> bool {
    (l: LogLine) => sel(l) && FromCache(l)
  }

  function Fetched(sel: LogLine -> bool): LogLine -> bool {
    (l: LogLine) => sel(l) && !FromCache(l)
  }

  /** The counters say of the selected lines how many bytes and how many lines came from the cache, and how many did not. */
  predicate Sums(c: Counters, sel: LogLine -> bool, lines: seq<LogLine>) {
    && c.bytesHit == BytesOf(Cached(sel), lines) && c.bytesMiss == BytesOf(Fetched(sel), lines)
    && c.requestsHit == NumberOf(Cached(sel), lines) && c.requestsMiss == NumberOf(Fetched(sel), lines)
  }

  /** The tally of lines sums them. */
  lemma {:induction false} TallySums(sel: LogLine -> bool, lines: seq<LogLine>)
    ensures Sums(Tally(sel, lines), sel, lines)
  {
    if lines != [] {
      TallySums(sel, lines[..|lines| - 1]);
      TallyLast(sel, lines);
    }
  }

  /** Every line comes from the cache or does not. */
  lemma {:induction false} CachedOrFetched(sel: LogLine -> bool, lines: seq<LogLine>)
    ensures BytesOf(Cached(sel), lines) + BytesOf(Fetched(sel), lines) == BytesOf(sel, lines)
    ensures NumberOf(Cached(sel), lines) + NumberOf(Fetched(sel), lines) == NumberOf(sel, lines)
  {
    if lines != [] { CachedOrFetched(sel, lines[..|lines| - 1]); }
  }

  // ---- The rows of a closed database ----

  /** The unix minute of a time, negative ones counted towards zero. */
  predicate InMinute(m: int, time: int) {
    if m > 0 then 60 * m <= time < 60 * m + 60
    else if m < 0 then 60 * m - 60 < time <= 60 * m
    else -60 < time < 60
  }

  lemma MinuteIff(l: LogLine, m: int)
    ensures l.Minute() == m <==> InMinute(m, l.time)
  {
  }

  function During(m: int): LogLine -> bool {
    (l: LogLine) => InMinute(m, l.time)
  }

  function OfHost(m: int, host: string): LogLine -> bool {
    (l: LogLine) => InMinute(m, l.time) && l.host == host
  }

  function OfAddress(m: int, ip: string): LogLine -> bool {
    (l: LogLine) => InMinute(m, l.time) && l.remoteAddr == ip
  }

  /** Equal selections have equal tallies, so one may stand for the other. */
  lemma SelectedSums(sel: LogLine -> bool, f: LogLine -> bool, lines: seq<LogLine>)
    requires forall l :: l in lines ==> sel(l) == f(l)
    ensures Sums(Tally(sel, lines), f, lines)
  {
    hide Tally, BytesOf, NumberOf;
    TallySame(sel, f, lines);
    TallySums(f, lines);
  }

  /**
   * After a run in which every flush succeeds and which ends with Close, each row holds the bytes and the number
   * of the ingested lines of its minute, its host or its address, apart for those from the cache and the others.
   */
  lemma ClosedTablesSum(events: seq<Event>, m: int, h: string, ip: string)
    requires Timed(events) && AllFlushesSucceed(events) && Retained(events, m) && ip != ""
    requires events != [] && events[|events| - 1].Close?
    ensures var t, all := After(events).tables, Ingested(events);
            && Sums(Get(t.minutes, m), During(m), all)
            && Get(t.hosts, (m, h)).bytesHit == BytesOf(Cached(OfHost(m, h)), all)
            && Get(t.hosts, (m, h)).bytesMiss == BytesOf(Fetched(OfHost(m, h)), all)
            && Sums(Get(t.ips, (m, ip)), OfAddress(m, ip), all)
  {
    hide LogLine.Minute, InMinute, Tally, BytesOf, NumberOf, After, Ingested, Get;
    ClosedTablesAreGroupBy(events, m, h, ip);
    var all := Ingested(events);
    forall l | l in all
      ensures AtMinute(m)(l) == During(m)(l) && AtHost(m, h)(l) == OfHost(m, h)(l) && AtIP(m, ip)(l) == OfAddress(m, ip)(l)
    {
      MinuteIff(l, m);
    }
    SelectedSums(AtMinute(m), During(m), all);
    SelectedSums(AtHost(m, h), OfHost(m, h), all);
    SelectedSums(AtIP(m, ip), OfAddress(m, ip), all);
  }

  // ---- What the queries report ----

  /** The time is in this minute or a later one. */
  predicate InOrAfter(from: int, time: int) {
    if from > 0 then 60 * from <= time else 60 * from - 60 < time
  }

  lemma SinceIff(l: LogLine, from: int)
    ensures l.Minute() >= from <==> InOrAfter(from, l.time)
  {
  }

  function Later(from: int): LogLine -> bool {
    (l: LogLine) => InOrAfter(from, l.time)
  }

  function LaterOfHost(from: int, host: string): LogLine -> bool {
    (l: LogLine) => InOrAfter(from, l.time) && l.host == host
  }

  function LaterOfAddress(from: int, ip: string): LogLine -> bool {
    (l: LogLine) => InOrAfter(from, l.time) && l.remoteAddr == ip
  }

  /** The totals reported for a range are sums over the ingested lines whose time is in it, its first minute included. */
  lemma RangeTotalsSum(events: seq<Event>, from: int, h: string, ip: string)
    requires Timed(events) && AllFlushesSucceed(events) && Retained(events, from)
    requires events != [] && events[|events| - 1].Close?
    ensures var t, all := After(events).tables, Ingested(events);
            && Sums(SinceMinute(t, from), Later(from), all)
            && (h in HostTotals(t, Since(from)) ==>
                  && HostTotals(t, Since(from))[h].bytesHit == BytesOf(Cached(LaterOfHost(from, h)), all)
                  && HostTotals(t, Since(from))[h].bytesMiss == BytesOf(Fetched(LaterOfHost(from, h)), all))
            && (ip in IPTotals(t, Since(from)) ==> Sums(IPTotals(t, Since(from))[ip].counters, LaterOfAddress(from, ip), all))
  {
    hide LogLine.Minute, InOrAfter, Tally, BytesOf, NumberOf, After, Ingested, SinceMinute, HostTotals, IPTotals, Seen, NewestMinute;
    TotalsAreTallies(events, from);
    HostsAreTallies(events, from, h);
    IPsAreTallies(events, from, ip);
    var all, w := Ingested(events), Since(from);
    forall l | l in all
      ensures Over(w)(l) == Later(from)(l)
      ensures FromHost(w, h)(l) == LaterOfHost(from, h)(l) && FromIP(w, ip)(l) == LaterOfAddress(from, ip)(l)
    {
      SinceIff(l, from);
    }
    SelectedSums(Over(w), Later(from), all);
    SelectedSums(FromHost(w, h), LaterOfHost(from, h), all);
    SelectedSums(FromIP(w, ip), LaterOfAddress(from, ip), all);
  }
}

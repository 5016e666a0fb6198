/** What the dashboard's queries report, in terms of the log lines and across retention. */
module Reports {
  import opened Traffic
  import opened Aggregation
  import opened RowSums
  import opened Queries

  // ---- Totals per host and per address ----

  function FromHost(w: Where, h: string): LogLine -> bool {
    (l: LogLine) => w(l.Minute()) && l.host == h
  }

  function FromIP(w: Where, ip: string): LogLine -> bool {
    (l: LogLine) => w(l.Minute()) && l.remoteAddr == ip
  }

  /** A host's total is the bytes of its lines. */
  lemma HostTotalIsTally(t: Tables, lines: seq<LogLine>, w: Where, h: string)
    requires Rows(t, lines, w)
    ensures h in HostTotals(t, w) <==> Seen(FromHost(w, h), lines)
    ensures h in HostTotals(t, w) ==> HostTotals(t, w)[h] == Tally(FromHost(w, h), lines).BytesOnly()
  {
    hide LogLine.Minute, Tally, Seen, Sum, CountsBytes;
    var s := Group(Keys(t.hosts, w), NameOf(), h);
    forall l | l in lines && FromHost(w, h)(l) ensures HostOf()(l) in s {
      HostLineHasRow(t, lines, w, l);
    }
    GroupsCover(s, FromHost(w, h), HostOf(), lines);
    forall k | k in s
      ensures Value(t.hosts)(k) == PerKey(FromHost(w, h), HostOf(), lines)(k).BytesOnly() && Seen(FromHost(w, h), lines)
    {
      HostRowIsTally(t, lines, w, k);
      TallySame(AtHost(k.0, h), Of(FromHost(w, h), HostOf(), k), lines);
      SeenWider(AtHost(k.0, h), FromHost(w, h), lines);
    }
    SumBytesOnly(s, PerKey(FromHost(w, h), HostOf(), lines), Value(t.hosts));
    HostSeenInTable(t, lines, w, h);
    if h in HostTotals(t, w) {
      var k :| k in Keys(t.hosts, w) && NameOf()(k) == h;
      assert k in s;
    }
  }

  lemma SeenWider(sel: LogLine -> bool, wider: LogLine -> bool, lines: seq<LogLine>)
    requires Seen(sel, lines) && forall l :: l in lines && sel(l) ==> wider(l)
    ensures Seen(wider, lines)
  {
  }

  lemma HostLineHasRow(t: Tables, lines: seq<LogLine>, w: Where, l: LogLine)
    requires Rows(t, lines, w) && l in lines && w(l.Minute())
    ensures HostOf()(l) in Keys(t.hosts, w)
  {
    hide LogLine.Minute, Tally, Seen;
    assert RowsAt(t, lines, l.Minute()) && HostRow(t.hosts, lines, l.Minute(), l.host);
    SeenIn(AtHost(l.Minute(), l.host), lines, l);
  }

  lemma HostRowIsTally(t: Tables, lines: seq<LogLine>, w: Where, k: Key)
    requires Rows(t, lines, w) && k in Keys(t.hosts, w)
    ensures Get(t.hosts, k) == Tally(AtHost(k.0, k.1), lines).BytesOnly() && Seen(AtHost(k.0, k.1), lines)
  {
    hide LogLine.Minute, Tally, Seen;
    assert RowsAt(t, lines, k.0) && HostRow(t.hosts, lines, k.0, k.1);
  }

  lemma HostSeenInTable(t: Tables, lines: seq<LogLine>, w: Where, h: string)
    requires Rows(t, lines, w)
    ensures Seen(FromHost(w, h), lines) ==> h in HostTotals(t, w)
  {
    hide LogLine.Minute, Sum, Rows;
    if Seen(FromHost(w, h), lines) {
      var l :| l in lines && FromHost(w, h)(l);
      HostLineHasRow(t, lines, w, l);
      assert NameOf()(HostOf()(l)) in Image(Keys(t.hosts, w), NameOf());
    }
  }

  /** An address's total is the tally of its lines, and its last minute is the newest of theirs. */
  lemma IPTotalIsTally(t: Tables, lines: seq<LogLine>, w: Where, ip: string)
    requires Rows(t, lines, w)
    ensures ip in IPTotals(t, w) <==> ip != "" && Seen(FromIP(w, ip), lines)
    ensures ip in IPTotals(t, w) ==> IPTotals(t, w)[ip].counters == Tally(FromIP(w, ip), lines)
    ensures ip in IPTotals(t, w) ==> NewestMinute(IPTotals(t, w)[ip].lastTS, FromIP(w, ip), lines)
  {
    if ip == "" {
      NoEmptyAddress(t, lines, w);
    } else {
      AddressSeen(t, lines, w, ip);
      if ip in IPTotals(t, w) {
        AddressTotal(t, lines, w, ip);
        AddressNewest(t, lines, w, ip);
      }
    }
  }

  predicate NewestMinute(m: int, sel: LogLine -> bool, lines: seq<LogLine>) {
    (exists l :: l in lines && sel(l) && l.Minute() == m) && (forall l :: l in lines && sel(l) ==> l.Minute() <= m)
  }

  lemma IPLineHasRow(t: Tables, lines: seq<LogLine>, w: Where, l: LogLine)
    requires Rows(t, lines, w) && l in lines && w(l.Minute()) && l.remoteAddr != ""
    ensures IPOf()(l) in Keys(t.ips, w)
  {
    hide LogLine.Minute, Tally, Seen;
    assert RowsAt(t, lines, l.Minute()) && IPRow(t.ips, lines, l.Minute(), l.remoteAddr);
    SeenIn(AtIP(l.Minute(), l.remoteAddr), lines, l);
  }

  lemma IPRowIsTally(t: Tables, lines: seq<LogLine>, w: Where, k: Key)
    requires Rows(t, lines, w) && k in Keys(t.ips, w)
    ensures k.1 != "" && Get(t.ips, k) == Tally(AtIP(k.0, k.1), lines) && Seen(AtIP(k.0, k.1), lines)
  {
    hide LogLine.Minute, Tally, Seen;
    assert RowsAt(t, lines, k.0) && IPRow(t.ips, lines, k.0, k.1);
  }

  lemma NoEmptyAddress(t: Tables, lines: seq<LogLine>, w: Where)
    requires Rows(t, lines, w)
    ensures "" !in IPTotals(t, w)
  {
    hide LogLine.Minute, Sum, Rows;
    if "" in IPTotals(t, w) {
      var k :| k in Keys(t.ips, w) && NameOf()(k) == "";
      IPRowIsTally(t, lines, w, k);
      assert false;
    }
  }

  lemma AddressSeen(t: Tables, lines: seq<LogLine>, w: Where, ip: string)
    requires Rows(t, lines, w) && ip != ""
    ensures ip in IPTotals(t, w) <==> Seen(FromIP(w, ip), lines)
  {
    hide LogLine.Minute, Sum, Rows;
    if ip in IPTotals(t, w) {
      var k :| k in Keys(t.ips, w) && NameOf()(k) == ip;
      IPRowIsTally(t, lines, w, k);
      SeenWider(AtIP(k.0, ip), FromIP(w, ip), lines);
    }
    if Seen(FromIP(w, ip), lines) {
      var l :| l in lines && FromIP(w, ip)(l);
      IPLineHasRow(t, lines, w, l);
      assert NameOf()(IPOf()(l)) in Image(Keys(t.ips, w), NameOf());
    }
  }

  lemma AddressTotal(t: Tables, lines: seq<LogLine>, w: Where, ip: string)
    requires Rows(t, lines, w) && ip in IPTotals(t, w) && ip != ""
    ensures IPTotals(t, w)[ip].counters == Tally(FromIP(w, ip), lines)
  {
    hide LogLine.Minute, Tally, Seen, Sum, Rows;
    var s := Group(Keys(t.ips, w), NameOf(), ip);
    forall l | l in lines && FromIP(w, ip)(l) ensures IPOf()(l) in s {
      IPLineHasRow(t, lines, w, l);
    }
    GroupsCover(s, FromIP(w, ip), IPOf(), lines);
    forall k | k in s ensures Value(t.ips)(k) == PerKey(FromIP(w, ip), IPOf(), lines)(k) {
      IPRowIsTally(t, lines, w, k);
      TallySame(AtIP(k.0, ip), Of(FromIP(w, ip), IPOf(), k), lines);
    }
    SumSame(s, Value(t.ips), PerKey(FromIP(w, ip), IPOf(), lines));
  }

  lemma AddressNewest(t: Tables, lines: seq<LogLine>, w: Where, ip: string)
    requires Rows(t, lines, w) && ip in IPTotals(t, w) && ip != ""
    ensures NewestMinute(IPTotals(t, w)[ip].lastTS, FromIP(w, ip), lines)
  {
    hide LogLine.Minute, Tally, Sum, Rows;
    var s, last := Group(Keys(t.ips, w), NameOf(), ip), IPTotals(t, w)[ip].lastTS;
    assert IsLatest(s, last);
    var k :| k in s && k.0 == last;
    IPRowIsTally(t, lines, w, k);
    var line :| line in lines && AtIP(last, ip)(line);
    assert FromIP(w, ip)(line) && line.Minute() == last;
    forall l | l in lines && FromIP(w, ip)(l) ensures l.Minute() <= last {
      IPLineHasRow(t, lines, w, l);
      assert IPOf()(l) in s;
    }
  }

  // ---- Host totals against the grand total ----

  ghost function SumHosts(rows: seq<HostTotal>): Counters {
    if rows == [] then ZERO else SumHosts(rows[..|rows| - 1]).Plus(rows[|rows| - 1].counters)
  }

  lemma {:induction false} SumOfHosts(rows: seq<HostTotal>, f: string -> Counters, s: set<string>)
    requires forall i, j :: 0 <= i < j < |rows| ==> rows[i].host != rows[j].host
    requires forall r :: r in rows ==> r.counters == f(r.host)
    requires s == set r | r in rows :: r.host
    ensures SumHosts(rows) == Sum(s, f)
  {
    if rows != [] {
      var front, last := rows[..|rows| - 1], rows[|rows| - 1];
      var s' := set r | r in front :: r.host;
      assert last in rows && forall r :: r in rows <==> r in front || r == last;
      assert last.host !in s';
      SumOfHosts(front, f, s');
      assert s == s' + {last.host};
      SumAdd(s', last.host, f);
      PlusSwap(f(last.host), Sum(s', f), ZERO);
    }
  }

  /** A list of distinct members as long as the set names every member. */
  lemma {:induction false} AllNamed(names: seq<string>, s: set<string>)
    requires forall i, j :: 0 <= i < j < |names| ==> names[i] != names[j]
    requires (forall x :: x in names ==> x in s) && |names| == |s|
    ensures forall x :: x in s ==> x in names
    decreases |names|
  {
    if names == [] {
      assert s == {};
    } else {
      var front, last := names[..|names| - 1], names[|names| - 1];
      assert last in names && forall x :: x in names <==> x in front || x == last;
      AllNamed(front, s - {last});
    }
  }

  lemma CompleteTopNamesAll(t: Tables, from: int, n: int)
    requires n < 0 || n >= |HostTotals(t, Since(from))|
    ensures var rows, all := TopHostsSince(t, from, n), HostTotals(t, Since(from)); all.Keys == set r | r in rows :: r.host
  {
    hide HostTotals;
    var rows, all := TopHostsSince(t, from, n), HostTotals(t, Since(from));
    var names := Top(all, Bytes(), n);
    TopIsTop(all, Bytes(), n);
    AllNamed(names, all.Keys);
    forall h | h in all ensures h in (set r | r in rows :: r.host) {
      var i :| 0 <= i < |names| && names[i] == h;
      assert rows[i] in rows && rows[i].host == h;
    }
  }

  /** When the limit leaves no host out, the host totals add up to the bytes of SinceMinute over the same range. */
  lemma TopHostsAddUp(events: seq<Event>, from: int, n: int)
    requires Timed(events) && Retained(events, from)
    requires n < 0 || n >= |HostTotals(After(events).tables, Since(from))|
    ensures var t := After(events).tables; SumHosts(TopHostsSince(t, from, n)) == SinceMinute(t, from).BytesOnly()
  {
    hide LogLine.Minute, Tally, After, Accounts, Sum, Rows, SumHosts;
    var t, stored, w := After(events).tables, Accounts(events).stored, Since(from);
    ReachableRows(events, from, w);
    var s, hosts := Keys(t.hosts, w), HostTotals(t, w).Keys;
    var f := h => Sum(Group(s, NameOf(), h), Value(t.hosts));
    CompleteTopNamesAll(t, from, n);
    TopHostsAreTop(t, from, n);
    SumOfHosts(TopHostsSince(t, from, n), f, hosts);
    SumByGroups(s, Value(t.hosts), NameOf(), hosts);
    HostSum(t, stored, w);
    MinuteSum(t, stored, w);
  }

  // ---- Runs and retention ----

  lemma ClosedRows(events: seq<Event>, from: int)
    requires Timed(events) && AllFlushesSucceed(events) && Retained(events, from)
    requires events != [] && events[|events| - 1].Close?
    ensures Rows(After(events).tables, Ingested(events), Since(from))
  {
    hide LogLine.Minute, Rows, After, Accounts, Ingested;
    StoredThenPending(events);
    ClosedHasNothingPending(events);
    assert Accounts(events).stored == Ingested(events);
    ReachableRows(events, from, Since(from));
  }

  /**
   * After a run in which every flush succeeds and which ends with Close, the totals for a range that
   * retention spared are those of the lines ingested since the last clear.
   */
  lemma TotalsAreTallies(events: seq<Event>, from: int)
    requires Timed(events) && AllFlushesSucceed(events) && Retained(events, from)
    requires events != [] && events[|events| - 1].Close?
    ensures SinceMinute(After(events).tables, from) == Tally(Over(Since(from)), Ingested(events))
  {
    hide LogLine.Minute, Tally, Sum, Rows, After, Ingested;
    ClosedRows(events, from);
    MinuteSum(After(events).tables, Ingested(events), Since(from));
  }

  /** So are the totals of each host. */
  lemma HostsAreTallies(events: seq<Event>, from: int, h: string)
    requires Timed(events) && AllFlushesSucceed(events) && Retained(events, from)
    requires events != [] && events[|events| - 1].Close?
    ensures var totals, all := HostTotals(After(events).tables, Since(from)), Ingested(events);
            && (h in totals <==> Seen(FromHost(Since(from), h), all))
            && (h in totals ==> totals[h] == Tally(FromHost(Since(from), h), all).BytesOnly())
  {
    hide LogLine.Minute, Tally, Seen, Rows, HostTotals, After, Ingested;
    ClosedRows(events, from);
    HostTotalIsTally(After(events).tables, Ingested(events), Since(from), h);
  }

  /** And those of each address, with the newest minute of its lines. */
  lemma IPsAreTallies(events: seq<Event>, from: int, ip: string)
    requires Timed(events) && AllFlushesSucceed(events) && Retained(events, from)
    requires events != [] && events[|events| - 1].Close?
    ensures var totals, all := IPTotals(After(events).tables, Since(from)), Ingested(events);
            && (ip in totals <==> ip != "" && Seen(FromIP(Since(from), ip), all))
            && (ip in totals ==> totals[ip].counters == Tally(FromIP(Since(from), ip), all))
            && (ip in totals ==> NewestMinute(totals[ip].lastTS, FromIP(Since(from), ip), all))
  {
    hide LogLine.Minute, Tally, Seen, Rows, IPTotals, NewestMinute, After, Ingested;
    ClosedRows(events, from);
    IPTotalIsTally(After(events).tables, Ingested(events), Since(from), ip);
  }

  /** Every query gives the same answer for the range. */
  ghost predicate SameAnswers(t: Tables, t': Tables, from: int) {
    && LastMinutesFrom(t', from) == LastMinutesFrom(t, from)
    && HourlyFrom(t', from) == HourlyFrom(t, from)
    && SinceMinute(t', from) == SinceMinute(t, from)
    && (forall n :: TopHostsSince(t', from, n) == TopHostsSince(t, from, n))
    && (forall n :: TopIPsSince(t', from, n) == TopIPsSince(t, from, n))
  }

  lemma SameMinutes(t: Tables, t': Tables, from: int)
    requires Selected(t', Since(from)) == Selected(t, Since(from))
    ensures LastMinutesFrom(t', from) == LastMinutesFrom(t, from)
    ensures HourlyFrom(t', from) == HourlyFrom(t, from)
    ensures SinceMinute(t', from) == SinceMinute(t, from)
  {
    hide Hour, Sum;
    var w := Since(from);
    var s := Minutes(t.minutes, w);
    assert Selected(t, w).Keys == s && Selected(t', w).Keys == Minutes(t'.minutes, w);
    assert forall m :: m in s ==> Selected(t', w)[m] == Selected(t, w)[m];
    SumSame(s, Value(t'.minutes), Value(t.minutes));
    forall h | h in Image(s, HourOf()) ensures HourTotals(t', w)[h] == HourTotals(t, w)[h] {
      SumSame(Group(s, HourOf(), h), Value(t'.minutes), Value(t.minutes));
    }
    assert HourTotals(t', w) == HourTotals(t, w);
  }

  lemma SameHosts(t: Tables, t': Tables, from: int)
    requires Keys(t'.hosts, Since(from)) == Keys(t.hosts, Since(from))
    requires forall k :: k in Keys(t.hosts, Since(from)) ==> t'.hosts[k] == t.hosts[k]
    ensures forall n :: TopHostsSince(t', from, n) == TopHostsSince(t, from, n)
  {
    hide Sum;
    var w := Since(from);
    var s := Keys(t.hosts, w);
    forall h | h in Image(s, NameOf()) ensures HostTotals(t', w)[h] == HostTotals(t, w)[h] {
      SumSame(Group(s, NameOf(), h), Value(t'.hosts), Value(t.hosts));
    }
    assert HostTotals(t', w) == HostTotals(t, w);
  }

  lemma SameIPs(t: Tables, t': Tables, from: int)
    requires Keys(t'.ips, Since(from)) == Keys(t.ips, Since(from))
    requires forall k :: k in Keys(t.ips, Since(from)) ==> t'.ips[k] == t.ips[k]
    ensures forall n :: TopIPsSince(t', from, n) == TopIPsSince(t, from, n)
  {
    hide Sum;
    var w := Since(from);
    var s := Keys(t.ips, w);
    forall ip | ip in Image(s, NameOf()) ensures IPTotals(t', w)[ip] == IPTotals(t, w)[ip] {
      SumSame(Group(s, NameOf(), ip), Value(t'.ips), Value(t.ips));
    }
    assert IPTotals(t', w) == IPTotals(t, w);
  }

  /** The rows of one table that are not older than the cutoff, unchanged. */
  ghost predicate KeptFrom<K(!new)>(rows: map<K, Counters>, rows': map<K, Counters>, ts: K -> int, cutoff: int) {
    forall k, c :: Holds(rows', k, c) <==> Holds(rows, k, c) && ts(k) >= cutoff
  }

  predicate Holds<K(==)>(rows: map<K, Counters>, k: K, c: Counters) {
    k in rows && rows[k] == c
  }

  function OwnMinute(): int -> int {
    (m: int) => m
  }

  function MinuteOfKey(): Key -> int {
    (k: Key) => k.0
  }

  /** The three steps of retention delete from each table exactly the rows older than the cutoff. */
  lemma RetentionDeletes(s: State, cutoff: int)
    ensures var t, t' := s.tables, Next(Next(Next(s, DeleteMinutes(cutoff)), DeleteHosts(cutoff)), DeleteIPs(cutoff)).tables;
            && KeptFrom(t.minutes, t'.minutes, OwnMinute(), cutoff)
            && KeptFrom(t.hosts, t'.hosts, MinuteOfKey(), cutoff) && KeptFrom(t.ips, t'.ips, MinuteOfKey(), cutoff)
  {
  }

  /** No step of retention changes an answer for a range that starts at or after its cutoff. */
  lemma RetentionKeepsAnswers(s: State, e: Event, from: int)
    requires e.DeleteMinutes? || e.DeleteHosts? || e.DeleteIPs?
    requires Spares(e, from)
    ensures SameAnswers(s.tables, Next(s, e).tables, from)
  {
    var t, t', w := s.tables, Next(s, e).tables, Since(from);
    assert Keys(t'.hosts, w) == Keys(t.hosts, w);
    assert Keys(t'.ips, w) == Keys(t.ips, w);
    assert Minutes(t'.minutes, w) == Minutes(t.minutes, w);
    assert Selected(t', w) == Selected(t, w);
    SameMinutes(t, t', from);
    SameHosts(t, t', from);
    SameIPs(t, t', from);
  }
}

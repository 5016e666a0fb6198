/** The dashboard's SQL queries as functions of the tables, related to each other and to the log lines. */
module Queries {
  import opened Traffic
  import opened Aggregation
  import opened RowSums

  // ---- ORDER BY ts ASC ----

  ghost function Pick<K>(s: set<K>): (r: K)
    requires s != {}
    ensures r in s
  {
    var x :| x in s;
    x
  }

  lemma {:induction false} LeastExists(s: set<int>)
    requires s != {}
    ensures exists m :: m in s && forall x :: x in s ==> m <= x
    decreases s
  {
    var x := Pick(s);
    var rest := s - {x};
    assert forall y :: y in s <==> y == x || y in rest;
    if rest != {} {
      LeastExists(rest);
      var m :| m in rest && forall y :: y in rest ==> m <= y;
      var least := if m <= x then m else x;
      assert least in s && forall y :: y in s ==> least <= y;
    }
  }

  ghost function Ascending(s: set<int>): (r: seq<int>)
    ensures forall i, j :: 0 <= i < j < |r| ==> r[i] < r[j]
    ensures forall x :: x in r <==> x in s
  {
    if s == {} then []
    else
      LeastExists(s);
      var m :| m in s && forall x :: x in s ==> m <= x;
      [m] + Ascending(s - {m})
  }

  datatype Row = Row(ts: int, counters: Counters)

  /** The rows of a grouped table in ascending order. */
  ghost function InOrder(m: map<int, Counters>): (r: seq<Row>)
    ensures |r| == |Ascending(m.Keys)|
  {
    var ks := Ascending(m.Keys);
    seq(|ks|, (i: nat) requires i < |ks| => Row(ks[i], m[ks[i]]))
  }

  lemma InOrderFacts(m: map<int, Counters>)
    ensures var rows := InOrder(m);
            && (forall i, j :: 0 <= i < j < |rows| ==> rows[i].ts < rows[j].ts)
            && (forall k, c :: Row(k, c) in rows <==> k in m && c == m[k])
  {
    var ks, rows := Ascending(m.Keys), InOrder(m);
    forall k | k in m ensures Row(k, m[k]) in rows {
      assert k in ks;
      var i :| 0 <= i < |ks| && ks[i] == k;
      assert rows[i] == Row(k, m[k]);
    }
  }

  ghost function SumRows(sel: int -> bool, rows: seq<Row>): Counters {
    if rows == [] then ZERO
    else
      var front, last := SumRows(sel, rows[..|rows| - 1]), rows[|rows| - 1];
      if sel(last.ts) then front.Plus(last.counters) else front
  }

  function Everything(): int -> bool {
    (m: int) => true
  }

  /** Adding up selected rows is summing over the set of selected keys. */
  lemma {:induction false} SumOfRows(sel: int -> bool, rows: seq<Row>, f: int -> Counters, s: set<int>)
    requires forall i, j :: 0 <= i < j < |rows| ==> rows[i].ts < rows[j].ts
    requires forall r :: r in rows ==> r.counters == f(r.ts)
    requires s == set r | r in rows && sel(r.ts) :: r.ts
    ensures SumRows(sel, rows) == Sum(s, f)
  {
    if rows != [] {
      var front, last := rows[..|rows| - 1], rows[|rows| - 1];
      var s' := set r | r in front && sel(r.ts) :: r.ts;
      assert last in rows && forall r :: r in rows <==> r in front || r == last;
      assert last.ts !in s';
      SumOfRows(sel, front, f, s');
      if sel(last.ts) {
        assert s == s' + {last.ts};
        SumAdd(s', last.ts, f);
        PlusSwap(f(last.ts), Sum(s', f), ZERO);
      } else {
        assert s == s';
      }
    }
  }

  // ---- The queries on minute_stats ----

  function Selected(t: Tables, w: Where): map<int, Counters> {
    map m | m in Minutes(t.minutes, w) :: t.minutes[m]
  }

  ghost function LastMinutesFrom(t: Tables, from: int): seq<Row> {
    InOrder(Selected(t, Since(from)))
  }

  /** (ts / 60) * 60 with SQLite's truncating division. */
  function Hour(ts: int): int {
    if ts >= 0 then (ts / 60) * 60 else -(((-ts) / 60) * 60)
  }

  function HourOf(): int -> int {
    (ts: int) => Hour(ts)
  }

  /** GROUP BY h */
  ghost function HourTotals(t: Tables, w: Where): map<int, Counters> {
    map h | h in Image(Minutes(t.minutes, w), HourOf()) :: Sum(Group(Minutes(t.minutes, w), HourOf(), h), Value(t.minutes))
  }

  ghost function HourlyFrom(t: Tables, from: int): seq<Row> {
    InOrder(HourTotals(t, Since(from)))
  }

  ghost function SinceMinute(t: Tables, from: int): Counters {
    Sum(Minutes(t.minutes, Since(from)), Value(t.minutes))
  }

  function InHour(h: int): int -> bool {
    (ts: int) => Hour(ts) == h
  }

  /** The rows of an hour add up to the sum of the minutes in it. */
  lemma MinuteRowsOfHour(t: Tables, from: int, h: int)
    ensures SumRows(InHour(h), LastMinutesFrom(t, from)) ==
            Sum(Group(Minutes(t.minutes, Since(from)), HourOf(), h), Value(t.minutes))
  {
    hide Hour;
    var rows, s := LastMinutesFrom(t, from), Group(Minutes(t.minutes, Since(from)), HourOf(), h);
    InOrderFacts(Selected(t, Since(from)));
    assert forall m :: m in s ==> Row(m, t.minutes[m]) in rows;
    assert s == set r | r in rows && InHour(h)(r.ts) :: r.ts;
    SumOfRows(InHour(h), rows, Value(t.minutes), s);
  }

  lemma RowsAreMinutes(t: Tables, from: int)
    ensures var rows := LastMinutesFrom(t, from);
            Minutes(t.minutes, Since(from)) == set r | r in rows && Everything()(r.ts) :: r.ts
  {
    var rows, s := LastMinutesFrom(t, from), Minutes(t.minutes, Since(from));
    InOrderFacts(Selected(t, Since(from)));
    forall m ensures m in s <==> exists r :: r in rows && r.ts == m {
      if m in s { assert Row(m, t.minutes[m]) in rows; }
    }
  }

  lemma MinuteRowsSum(t: Tables, from: int)
    ensures SumRows(Everything(), LastMinutesFrom(t, from)) == SinceMinute(t, from)
  {
    var rows, s := LastMinutesFrom(t, from), Minutes(t.minutes, Since(from));
    InOrderFacts(Selected(t, Since(from)));
    RowsAreMinutes(t, from);
    SumOfRows(Everything(), rows, Value(t.minutes), s);
  }

  lemma HourlySums(t: Tables, from: int)
    ensures SumRows(Everything(), HourlyFrom(t, from)) == SinceMinute(t, from)
  {
    hide Image, Since, Minutes, Get, HourOf, Sum, InOrder;
    hide Hour;
    var minutes, totals := Minutes(t.minutes, Since(from)), HourTotals(t, Since(from));
    var rows, hours := HourlyFrom(t, from), Image(minutes, HourOf());
    var f := h => Sum(Group(minutes, HourOf(), h), Value(t.minutes));
    InOrderFacts(totals);
    assert totals.Keys == hours;
    assert forall h :: h in hours ==> Row(h, totals[h]) in rows;
    assert hours == set r | r in rows && Everything()(r.ts) :: r.ts;
    SumOfRows(Everything(), rows, f, hours);
    SumByGroups(minutes, Value(t.minutes), HourOf(), hours);
  }

  /** The sixty minutes from h on; before the epoch hours count towards zero, so those around it are one of 119 minutes. */
  predicate Covers(h: int, ts: int) {
    if h > 0 then h <= ts < h + 60
    else if h < 0 then h - 60 < ts <= h
    else -60 < ts < 60
  }

  function CoveredBy(h: int): int -> bool {
    (ts: int) => Covers(h, ts)
  }

  lemma HourIff(ts: int, h: int)
    ensures Hour(ts) == h <==> h % 60 == 0 && Covers(h, ts)
  {
  }

  lemma {:induction false} SumRowsSame(f: int -> bool, g: int -> bool, rows: seq<Row>)
    requires forall r :: r in rows ==> f(r.ts) == g(r.ts)
    ensures SumRows(f, rows) == SumRows(g, rows)
  {
    if rows != [] {
      var front, last := rows[..|rows| - 1], rows[|rows| - 1];
      assert last in rows && forall r :: r in front ==> r in rows;
      SumRowsSame(f, g, front);
    }
  }

  predicate HasRow(rows: seq<Row>, ts: int) {
    exists r :: r in rows && r.ts == ts
  }

  predicate HasMinuteIn(rows: seq<Row>, h: int) {
    exists r :: r in rows && Covers(h, r.ts)
  }

  lemma HourRowHasMinute(t: Tables, from: int, h: int)
    requires HasRow(HourlyFrom(t, from), h)
    ensures exists m :: m in LastMinutesFrom(t, from) && Hour(m.ts) == h
  {
    hide Group, Hour, InOrder, Since, Sum, Value;
    var totals := HourTotals(t, Since(from));
    InOrderFacts(Selected(t, Since(from)));
    InOrderFacts(totals);
    var r :| r in HourlyFrom(t, from) && r.ts == h;
    assert Row(r.ts, r.counters) in HourlyFrom(t, from);
    var m :| m in Minutes(t.minutes, Since(from)) && HourOf()(m) == h;
    assert Row(m, t.minutes[m]) in LastMinutesFrom(t, from);
  }

  lemma MinuteHasHourRow(t: Tables, from: int, r: Row)
    requires r in LastMinutesFrom(t, from)
    ensures HasRow(HourlyFrom(t, from), Hour(r.ts))
  {
    hide Group, Hour, InOrder, Since, Sum, Value;
    var totals := HourTotals(t, Since(from));
    InOrderFacts(Selected(t, Since(from)));
    InOrderFacts(totals);
    assert Row(r.ts, r.counters) in LastMinutesFrom(t, from);
    assert HourOf()(r.ts) in totals;
    assert Row(Hour(r.ts), totals[Hour(r.ts)]) in HourlyFrom(t, from);
  }

  /** There is an hourly row for exactly the hours that a minute row falls into. */
  lemma HourHasRow(t: Tables, from: int, h: int)
    ensures HasRow(HourlyFrom(t, from), h) <==> h % 60 == 0 && HasMinuteIn(LastMinutesFrom(t, from), h)
  {
    hide Hour, Covers, HasRow, HourlyFrom, LastMinutesFrom;
    forall ts ensures Hour(ts) == h <==> h % 60 == 0 && Covers(h, ts) {
      HourIff(ts, h);
    }
    if HasRow(HourlyFrom(t, from), h) { HourRowHasMinute(t, from, h); }
    if r :| r in LastMinutesFrom(t, from) && Hour(r.ts) == h { MinuteHasHourRow(t, from, r); }
  }

  /** An hourly row is the sum of the minute rows of its hour. */
  lemma HourRow(t: Tables, from: int, r: Row)
    requires r in HourlyFrom(t, from)
    ensures r.ts % 60 == 0 && r.counters == SumRows(CoveredBy(r.ts), LastMinutesFrom(t, from))
  {
    hide Hour, Covers, SumRows, Sum;
    InOrderFacts(HourTotals(t, Since(from)));
    assert Row(r.ts, r.counters) in HourlyFrom(t, from);
    var m :| m in Minutes(t.minutes, Since(from)) && HourOf()(m) == r.ts;
    HourIff(m, r.ts);
    MinuteRowsOfHour(t, from, r.ts);
    forall ts: int ensures InHour(r.ts)(ts) == CoveredBy(r.ts)(ts) {
      HourIff(ts, r.ts);
    }
    SumRowsSame(InHour(r.ts), CoveredBy(r.ts), LastMinutesFrom(t, from));
  }

  lemma HourRowsAscend(t: Tables, from: int)
    ensures var hours := HourlyFrom(t, from); forall i, j :: 0 <= i < j < |hours| ==> hours[i].ts < hours[j].ts
  {
    InOrderFacts(HourTotals(t, Since(from)));
  }

  /**
   * HourlyFrom refines LastMinutesFrom. Its timestamps increase strictly and are multiples of 60; there is
   * a row for exactly the hours of the minute rows; each row is the sum of the minute rows of its hour; and
   * both queries add up to SinceMinute.
   */
  lemma HourlyRefinesMinutes(t: Tables, from: int)
    ensures var minutes, hours := LastMinutesFrom(t, from), HourlyFrom(t, from);
            && (forall i, j :: 0 <= i < j < |hours| ==> hours[i].ts < hours[j].ts)
            && (forall r :: r in hours ==> r.ts % 60 == 0)
            && (forall h :: HasRow(hours, h) <==> h % 60 == 0 && HasMinuteIn(minutes, h))
            && (forall r :: r in hours ==> r.counters == SumRows(CoveredBy(r.ts), minutes))
            && SumRows(Everything(), hours) == SumRows(Everything(), minutes) == SinceMinute(t, from)
  {
    hide Hour, Covers, LastMinutesFrom, HourlyFrom, SumRows, Sum;
    var minutes, hours := LastMinutesFrom(t, from), HourlyFrom(t, from);
    HourRowsAscend(t, from);
    MinuteRowsSum(t, from);
    HourlySums(t, from);
    forall r | r in hours ensures r.ts % 60 == 0 && r.counters == SumRows(CoveredBy(r.ts), minutes) {
      HourRow(t, from, r);
    }
    forall h ensures HasRow(hours, h) <==> h % 60 == 0 && HasMinuteIn(minutes, h) {
      HourHasRow(t, from, h);
    }
  }

  /** The minute rows are those of the table from the given minute on, that minute included, in ascending order. */
  lemma MinuteRowsAre(t: Tables, from: int)
    ensures var rows := LastMinutesFrom(t, from);
            && (forall i, j :: 0 <= i < j < |rows| ==> rows[i].ts < rows[j].ts)
            && (forall ts, c :: Row(ts, c) in rows <==> ts in t.minutes && ts >= from && c == t.minutes[ts])
  {
    InOrderFacts(Selected(t, Since(from)));
  }

  // ---- ORDER BY ... DESC LIMIT n ----

  /** Which of several equal totals comes first is not specified, so it is a choice. SQLite reads a negative limit as none. */
  ghost function Top<V(!new)>(m: map<string, V>, weight: V -> int, n: int): (r: seq<string>)
    ensures forall k :: k in r ==> k in m
    decreases m.Keys
  {
    if n == 0 || m.Keys == {} then []
    else
      var k := Heaviest(m, weight);
      [k] + Top(m - {k}, weight, n - 1)
  }

  ghost function Heaviest<V(!new)>(m: map<string, V>, weight: V -> int): (k: string)
    requires m.Keys != {}
    ensures k in m && forall j :: j in m ==> weight(m[j]) <= weight(m[k])
  {
    HeaviestExists(m, weight, m.Keys);
    var k :| k in m && forall j :: j in m ==> weight(m[j]) <= weight(m[k]);
    k
  }

  lemma {:induction false} HeaviestExists<V(!new)>(m: map<string, V>, weight: V -> int, s: set<string>)
    requires s != {} && s <= m.Keys
    ensures exists k :: k in s && forall j :: j in s ==> weight(m[j]) <= weight(m[k])
    decreases s
  {
    var x := Pick(s);
    var rest := s - {x};
    assert forall j :: j in s ==> j == x || j in rest;
    if rest != {} {
      HeaviestExists(m, weight, rest);
      var k :| k in rest && forall j :: j in rest ==> weight(m[j]) <= weight(m[k]);
      assert (if weight(m[k]) >= weight(m[x]) then k else x) in s;
    }
  }

  /** Distinct keys, heaviest first. */
  ghost predicate Descending<V(!new)>(m: map<string, V>, weight: V -> int, r: seq<string>)
    requires forall k :: k in r ==> k in m
  {
    forall i, j :: 0 <= i < j < |r| ==> r[i] != r[j] && weight(m[r[i]]) >= weight(m[r[j]])
  }

  /** No omitted key is heavier. */
  ghost predicate NoneHeavier<V(!new)>(m: map<string, V>, weight: V -> int, r: seq<string>)
    requires forall k :: k in r ==> k in m
  {
    forall k, i :: k in m && k !in r && 0 <= i < |r| ==> weight(m[k]) <= weight(m[r[i]])
  }

  /** Putting the heaviest key in front keeps the order. */
  lemma HeaviestFirst<V(!new)>(m: map<string, V>, weight: V -> int, k: string, t: seq<string>)
    requires k in m && forall j :: j in m ==> weight(m[j]) <= weight(m[k])
    requires (forall j :: j in t ==> j in m - {k}) && Descending(m - {k}, weight, t)
    ensures Descending(m, weight, [k] + t)
  {
    var r := [k] + t;
    assert forall i :: 0 < i < |r| ==> r[i] == t[i - 1] && t[i - 1] in t;
    forall i, j | 0 <= i < j < |r| ensures r[i] != r[j] && weight(m[r[i]]) >= weight(m[r[j]]) {
      assert r[j] == t[j - 1] && t[j - 1] in t;
      assert i > 0 ==> r[i] == t[i - 1] && t[i - 1] in t;
    }
  }

  lemma HeaviestCovers<V(!new)>(m: map<string, V>, weight: V -> int, k: string, t: seq<string>)
    requires k in m && forall j :: j in m ==> weight(m[j]) <= weight(m[k])
    requires (forall j :: j in t ==> j in m - {k}) && NoneHeavier(m - {k}, weight, t)
    ensures NoneHeavier(m, weight, [k] + t)
  {
    var r := [k] + t;
    forall j, i | j in m && j !in r && 0 <= i < |r| ensures weight(m[j]) <= weight(m[r[i]]) {
      assert j != k && j !in t by { assert r[0] == k; assert forall x :: x in t ==> x in r; }
      assert i > 0 ==> r[i] == t[i - 1] && t[i - 1] in t;
    }
  }

  lemma {:induction false} TopLength<V(!new)>(m: map<string, V>, weight: V -> int, n: int)
    ensures |Top(m, weight, n)| == if n < 0 || n > |m| then |m| else n
    decreases m.Keys
  {
    if n != 0 && m.Keys != {} {
      var k := Heaviest(m, weight);
      TopLength(m - {k}, weight, n - 1);
      assert (m - {k}).Keys == m.Keys - {k};
    }
  }

  /** Distinct names, heaviest first, at most n of them (all if n is negative), and no omitted name is heavier. */
  lemma {:induction false} TopIsTop<V(!new)>(m: map<string, V>, weight: V -> int, n: int)
    ensures var r := Top(m, weight, n);
            && |r| == (if n < 0 || n > |m| then |m| else n)
            && Descending(m, weight, r) && NoneHeavier(m, weight, r)
    decreases m.Keys
  {
    hide Descending, NoneHeavier;
    TopLength(m, weight, n);
    if n != 0 && m.Keys != {} {
      var k := Heaviest(m, weight);
      assert (m - {k}).Keys == m.Keys - {k};
      TopIsTop(m - {k}, weight, n - 1);
      hide Top;
      HeaviestFirst(m, weight, k, Top(m - {k}, weight, n - 1));
      HeaviestCovers(m, weight, k, Top(m - {k}, weight, n - 1));
      TopStep(m, weight, n);
    } else {
      NoneOnTop(m, weight, Top(m, weight, n));
    }
  }

  lemma TopStep<V(!new)>(m: map<string, V>, weight: V -> int, n: int)
    requires n != 0 && m.Keys != {}
    ensures var k := Heaviest(m, weight); Top(m, weight, n) == [k] + Top(m - {k}, weight, n - 1)
  {
  }

  lemma NoneOnTop<V(!new)>(m: map<string, V>, weight: V -> int, r: seq<string>)
    requires r == []
    ensures Descending(m, weight, r) && NoneHeavier(m, weight, r)
  {
  }

  // ---- The queries on minute_host_stats and minute_ip_stats ----

  function NameOf(): Key -> string {
    (k: Key) => k.1
  }

  function Bytes(): Counters -> int {
    (c: Counters) => c.BytesTotal()
  }

  /** GROUP BY host */
  ghost function HostTotals(t: Tables, w: Where): map<string, Counters> {
    map h | h in Image(Keys(t.hosts, w), NameOf()) :: Sum(Group(Keys(t.hosts, w), NameOf(), h), Value(t.hosts))
  }

  datatype HostTotal = HostTotal(host: string, counters: Counters)

  ghost function TopHostsSince(t: Tables, from: int, n: int): (r: seq<HostTotal>)
    ensures |r| == |Top(HostTotals(t, Since(from)), Bytes(), n)|
  {
    var totals := HostTotals(t, Since(from));
    var names := Top(totals, Bytes(), n);
    seq(|names|, (i: nat) requires i < |names| => HostTotal(names[i], totals[names[i]]))
  }

  /** The counters of an address and the newest minute it was seen in. */
  datatype Activity = Activity(counters: Counters, lastTS: int)

  ghost predicate IsLatest(s: set<Key>, ts: int) {
    (exists k :: k in s && k.0 == ts) && (forall k :: k in s ==> k.0 <= ts)
  }

  lemma {:induction false} LatestExists(s: set<Key>)
    requires s != {}
    ensures exists ts :: IsLatest(s, ts)
    decreases s
  {
    var x := Pick(s);
    var rest := s - {x};
    assert forall k :: k in s ==> k == x || k in rest;
    if rest == {} {
      assert IsLatest(s, x.0);
    } else {
      LatestExists(rest);
      var ts :| IsLatest(rest, ts);
      assert IsLatest(s, if ts >= x.0 then ts else x.0);
    }
  }

  /** MAX(ts) */
  ghost function Latest(s: set<Key>): (ts: int)
    requires s != {}
    ensures IsLatest(s, ts)
  {
    LatestExists(s);
    var ts :| IsLatest(s, ts);
    ts
  }

  lemma GroupInhabited(s: set<Key>, name: string)
    requires name in Image(s, NameOf())
    ensures Group(s, NameOf(), name) != {}
  {
    var k :| k in s && NameOf()(k) == name;
    assert k in Group(s, NameOf(), name);
  }

  /** GROUP BY ip */
  ghost function IPTotals(t: Tables, w: Where): map<string, Activity> {
    map ip | ip in Image(Keys(t.ips, w), NameOf()) ::
      GroupInhabited(Keys(t.ips, w), ip);
      Activity(Sum(Group(Keys(t.ips, w), NameOf(), ip), Value(t.ips)), Latest(Group(Keys(t.ips, w), NameOf(), ip)))
  }

  function ActivityBytes(): Activity -> int {
    (a: Activity) => a.counters.BytesTotal()
  }

  datatype IPTotal = IPTotal(ip: string, counters: Counters, lastTS: int)

  ghost function TopIPsSince(t: Tables, from: int, n: int): (r: seq<IPTotal>)
    ensures |r| == |Top(IPTotals(t, Since(from)), ActivityBytes(), n)|
  {
    var totals := IPTotals(t, Since(from));
    var names := Top(totals, ActivityBytes(), n);
    seq(|names|, (i: nat) requires i < |names| => IPTotal(names[i], totals[names[i]].counters, totals[names[i]].lastTS))
  }

  predicate Limited(count: nat, all: nat, n: int) {
    count == if n < 0 || n > all then all else n
  }

  predicate NamesHost(rows: seq<HostTotal>, h: string) {
    exists r :: r in rows && r.host == h
  }

  predicate NamesIP(rows: seq<IPTotal>, ip: string) {
    exists r :: r in rows && r.ip == ip
  }

  /** At most n distinct hosts with their group totals, in descending total, none omitted that is heavier. */
  lemma TopHostsAreTop(t: Tables, from: int, n: int)
    ensures var rows, all := TopHostsSince(t, from, n), HostTotals(t, Since(from));
            && Limited(|rows|, |all|, n)
            && (forall i, j :: 0 <= i < j < |rows| ==>
                  rows[i].host != rows[j].host && rows[i].counters.BytesTotal() >= rows[j].counters.BytesTotal())
            && (forall r :: r in rows ==> r.host in all && r.counters == all[r.host])
            && (forall h, i :: h in all && !NamesHost(rows, h) && 0 <= i < |rows| ==>
                  all[h].BytesTotal() <= rows[i].counters.BytesTotal())
  {
    hide HostTotals;
    var rows, all := TopHostsSince(t, from, n), HostTotals(t, Since(from));
    var names := Top(all, Bytes(), n);
    TopIsTop(all, Bytes(), n);
    forall h | h in names ensures NamesHost(rows, h) {
      var i :| 0 <= i < |names| && names[i] == h;
      assert rows[i] in rows;
    }
  }

  /** The same for addresses. */
  lemma TopIPsAreTop(t: Tables, from: int, n: int)
    ensures var rows, all := TopIPsSince(t, from, n), IPTotals(t, Since(from));
            && Limited(|rows|, |all|, n)
            && (forall i, j :: 0 <= i < j < |rows| ==>
                  rows[i].ip != rows[j].ip && rows[i].counters.BytesTotal() >= rows[j].counters.BytesTotal())
            && (forall r :: r in rows ==> r.ip in all && r.counters == all[r.ip].counters && r.lastTS == all[r.ip].lastTS)
            && (forall ip, i :: ip in all && !NamesIP(rows, ip) && 0 <= i < |rows| ==>
                  all[ip].counters.BytesTotal() <= rows[i].counters.BytesTotal())
  {
    hide IPTotals;
    var rows, all := TopIPsSince(t, from, n), IPTotals(t, Since(from));
    var names := Top(all, ActivityBytes(), n);
    TopIsTop(all, ActivityBytes(), n);
    forall ip | ip in names ensures NamesIP(rows, ip) {
      var i :| 0 <= i < |names| && names[i] == ip;
      assert rows[i] in rows;
    }
  }
}

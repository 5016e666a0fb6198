/**
 * The aggregator as a state machine: a bucket for the current minute in memory, flushed into three
 * tables in the database. Every flush and every clear may fail.
 */
module Aggregation {
  import opened Traffic

  // ---- State ----

  /** The in-memory counters of one minute. Host counters keep bytes only. */
  datatype Bucket = Bucket(total: Counters, hosts: map<string, Counters>, ips: map<string, Counters>)

  const EMPTY := Bucket(ZERO, map[], map[])

  type Key = (int, string)

  /** minute_stats, minute_host_stats and minute_ip_stats, by primary key. */
  datatype Tables = Tables(minutes: map<int, Counters>, hosts: map<Key, Counters>, ips: map<Key, Counters>)

  const NO_ROWS := Tables(map[], map[], map[])

  /** currentMinute 0 means that there is no current bucket. */
  datatype State = State(currentMinute: int, bucket: Bucket, tables: Tables)

  const INITIAL := State(0, EMPTY, NO_ROWS)

  function Get<K>(m: map<K, Counters>, k: K): Counters {
    if k in m then m[k] else ZERO
  }

  /** INSERT ... ON CONFLICT DO UPDATE: the row's counters grow by c. */
  function Upsert<K>(m: map<K, Counters>, k: K, c: Counters): map<K, Counters> {
    m[k := Get(m, k).Plus(c)]
  }

  /** One upsert for every entry of a bucket map. */
  function UpsertAll(m: map<Key, Counters>, minute: int, b: map<string, Counters>): map<Key, Counters> {
    map k | k in m.Keys + (set s | s in b :: (minute, s)) ::
      if k.0 == minute && k.1 in b then Get(m, k).Plus(b[k.1]) else Get(m, k)
  }

  // ---- Transitions ----

  function Add(b: Bucket, l: LogLine): Bucket {
    Bucket(
      b.total.Plus(l.Count()),
      Upsert(b.hosts, l.host, l.Count().BytesOnly()),
      if l.remoteAddr == "" then b.ips else Upsert(b.ips, l.remoteAddr, l.Count()))
  }

  /** flushLocked: a transaction that commits as a whole or not at all. */
  function Flush(t: Tables, minute: int, b: Bucket, ok: bool): Tables {
    if b.total.RequestsTotal() == 0 || !ok then t
    else Tables(Upsert(t.minutes, minute, b.total), UpsertAll(t.hosts, minute, b.hosts), UpsertAll(t.ips, minute, b.ips))
  }

  /** After Close the source has closed its database, so nothing follows there; here anything may, which only adds runs. */
  datatype Event =
    | Ingest(line: LogLine, ok: bool)
    | Tick(now: int, ok: bool)      // the flush timer; now is the unix minute
    | ClearAll(ok: bool)
    | Close(ok: bool)
    | DeleteMinutes(cutoff: int)    // the three steps of retention are separate statements
    | DeleteHosts(cutoff: int)
    | DeleteIPs(cutoff: int)

  function Next(s: State, e: Event): State {
    match e
    case Ingest(l, ok) =>
      var minute := l.Minute();
      var cur := if s.currentMinute == 0 then minute else s.currentMinute;
      if minute != cur then
        State(minute, Add(EMPTY, l), Flush(s.tables, cur, s.bucket, ok))
      else
        State(cur, Add(s.bucket, l), s.tables)
    case Tick(now, ok) =>
      if s.currentMinute == 0 then s
      else State(now, EMPTY, Flush(s.tables, s.currentMinute, s.bucket, ok))
    case ClearAll(ok) => if ok then INITIAL else s
    case Close(ok) =>
      if s.currentMinute == 0 then s
      else State(0, EMPTY, Flush(s.tables, s.currentMinute, s.bucket, ok))
    case DeleteMinutes(c) =>
      s.(tables := s.tables.(minutes := map m | m in s.tables.minutes && m >= c :: s.tables.minutes[m]))
    case DeleteHosts(c) =>
      s.(tables := s.tables.(hosts := map k | k in s.tables.hosts && k.0 >= c :: s.tables.hosts[k]))
    case DeleteIPs(c) =>
      s.(tables := s.tables.(ips := map k | k in s.tables.ips && k.0 >= c :: s.tables.ips[k]))
  }

  function After(events: seq<Event>): State {
    if events == [] then INITIAL else Next(After(events[..|events| - 1]), events[|events| - 1])
  }

  // ---- What happened to the lines ----

  /** The lines ingested since the last successful clear. */
  function Ingested(events: seq<Event>): seq<LogLine> {
    if events == [] then [] else IngestedNext(Ingested(events[..|events| - 1]), events[|events| - 1])
  }

  function IngestedNext(lines: seq<LogLine>, e: Event): seq<LogLine> {
    match e
    case Ingest(l, _) => lines + [l]
    case ClearAll(ok) => if ok then [] else lines
    case _ => lines
  }

  /** The minute is not older than any retention cutoff used so far. */
  predicate Retained(events: seq<Event>, m: int) {
    forall e :: e in events ==> Spares(e, m)
  }

  predicate Spares(e: Event, m: int) {
    match e
    case DeleteMinutes(c) => m >= c
    case DeleteHosts(c) => m >= c
    case DeleteIPs(c) => m >= c
    case _ => true
  }

  /** Where each line ended up: in the tables, in the bucket, or dropped with a failed flush. */
  datatype Ledger = Ledger(stored: seq<LogLine>, pending: seq<LogLine>, lost: seq<LogLine>)
  {
    /** A flush moves the whole bucket to the tables, or drops it whole. */
    function Flushed(ok: bool): Ledger {
      if ok then Ledger(stored + pending, [], lost) else Ledger(stored, [], lost + pending)
    }

    function Received(l: LogLine): Ledger {
      this.(pending := pending + [l])
    }
  }

  const NOTHING := Ledger([], [], [])

  function Account(s: State, g: Ledger, e: Event): Ledger {
    match e
    case Ingest(l, ok) =>
      if s.currentMinute != 0 && l.Minute() != s.currentMinute then g.Flushed(ok).Received(l) else g.Received(l)
    case Tick(_, ok) => if s.currentMinute == 0 then g else g.Flushed(ok)
    case Close(ok) => if s.currentMinute == 0 then g else g.Flushed(ok)
    case ClearAll(ok) => if ok then NOTHING else g
    case _ => g
  }

  function Accounts(events: seq<Event>): Ledger {
    if events == [] then NOTHING
    else
      var front := events[..|events| - 1];
      Account(After(front), Accounts(front), events[|events| - 1])
  }

  /** Every line has a minute other than the "no bucket" sentinel. */
  predicate Timed(events: seq<Event>) {
    forall e :: e in events && e.Ingest? ==> e.line.Minute() != 0
  }

  // ---- Tables against the group-by ----

  predicate Seen(sel: LogLine -> bool, lines: seq<LogLine>) {
    exists l :: l in lines && sel(l)
  }

  /** A row, present or not and with counter c, is what GROUP BY gives for the selected lines. */
  predicate Counts(present: bool, c: Counters, sel: LogLine -> bool, lines: seq<LogLine>) {
    present == Seen(sel, lines) && c == Tally(sel, lines)
  }

  predicate CountsBytes(present: bool, c: Counters, sel: LogLine -> bool, lines: seq<LogLine>) {
    present == Seen(sel, lines) && c == Tally(sel, lines).BytesOnly()
  }

  predicate MinuteRow(t: map<int, Counters>, lines: seq<LogLine>, m: int) {
    Counts(m in t, Get(t, m), AtMinute(m), lines)
  }

  predicate HostRow(t: map<Key, Counters>, lines: seq<LogLine>, m: int, h: string) {
    CountsBytes((m, h) in t, Get(t, (m, h)), AtHost(m, h), lines)
  }

  predicate IPRow(t: map<Key, Counters>, lines: seq<LogLine>, m: int, ip: string) {
    if ip == "" then (m, ip) !in t else Counts((m, ip) in t, Get(t, (m, ip)), AtIP(m, ip), lines)
  }

  /** The tables hold the group-by of the lines at minute m. */
  ghost predicate RowsAt(t: Tables, lines: seq<LogLine>, m: int) {
    && MinuteRow(t.minutes, lines, m)
    && (forall h :: HostRow(t.hosts, lines, m, h))
    && (forall ip :: IPRow(t.ips, lines, m, ip))
  }

  predicate HostEntry(b: Bucket, lines: seq<LogLine>, m: int, h: string) {
    CountsBytes(h in b.hosts, Get(b.hosts, h), AtHost(m, h), lines)
  }

  predicate IPEntry(b: Bucket, lines: seq<LogLine>, m: int, ip: string) {
    if ip == "" then ip !in b.ips else Counts(ip in b.ips, Get(b.ips, ip), AtIP(m, ip), lines)
  }

  predicate AllAt(lines: seq<LogLine>, m: int) {
    forall l :: l in lines ==> l.Minute() == m
  }

  /** The bucket holds the group-by of the lines, all of which belong to minute m. */
  ghost predicate BucketHolds(b: Bucket, lines: seq<LogLine>, m: int) {
    && AllAt(lines, m)
    && b.total == Tally(AtMinute(m), lines)
    && (forall h :: HostEntry(b, lines, m, h))
    && (forall ip :: IPEntry(b, lines, m, ip))
  }

  // ---- Joining two lists of lines ----

  lemma CountsConcat(sel: LogLine -> bool, p: bool, c: Counters, a: seq<LogLine>, q: bool, d: Counters, b: seq<LogLine>)
    ensures Counts(p, c, sel, a) && Counts(q, d, sel, b) ==> Counts(p || q, c.Plus(d), sel, a + b)
    ensures CountsBytes(p, c, sel, a) && CountsBytes(q, d, sel, b) ==> CountsBytes(p || q, c.Plus(d), sel, a + b)
  {
    TallyConcat(sel, a, b);
    assert forall x :: x in a + b <==> x in a || x in b;
  }

  lemma OneLine(sel: LogLine -> bool, l: LogLine)
    ensures sel(l) ==> Counts(true, l.Count(), sel, [l]) && CountsBytes(true, l.Count().BytesOnly(), sel, [l])
    ensures !sel(l) ==> Counts(false, ZERO, sel, [l]) && CountsBytes(false, ZERO, sel, [l])
  {
    TallySnoc(sel, [], l);
    assert [] + [l] == [l];
    assert l in [l] && forall x :: x in [l] ==> x == l;
  }

  lemma NoLines(sel: LogLine -> bool, lines: seq<LogLine>)
    requires forall l :: l in lines ==> !sel(l)
    ensures Counts(false, ZERO, sel, lines) && CountsBytes(false, ZERO, sel, lines)
  {
    TallyNothing(sel, lines);
  }

  // ---- One line more ----

  lemma EmptyBucketHolds(m: int)
    ensures BucketHolds(EMPTY, [], m)
  {
  }

  lemma AddHost(b: Bucket, lines: seq<LogLine>, m: int, l: LogLine, h: string)
    requires HostEntry(b, lines, m, h) && l.Minute() == m
    ensures HostEntry(Add(b, l), lines + [l], m, h)
  {
    hide LogLine.Minute;
    OneLine(AtHost(m, h), l);
    var one := if l.host == h then l.Count().BytesOnly() else ZERO;
    CountsConcat(AtHost(m, h), h in b.hosts, Get(b.hosts, h), lines, l.host == h, one, [l]);
  }

  lemma AddIP(b: Bucket, lines: seq<LogLine>, m: int, l: LogLine, ip: string)
    requires IPEntry(b, lines, m, ip) && l.Minute() == m
    ensures IPEntry(Add(b, l), lines + [l], m, ip)
  {
    hide LogLine.Minute;
    OneLine(AtIP(m, ip), l);
    var one := if l.remoteAddr == ip then l.Count() else ZERO;
    CountsConcat(AtIP(m, ip), ip in b.ips, Get(b.ips, ip), lines, l.remoteAddr == ip, one, [l]);
  }

  lemma AddHolds(b: Bucket, lines: seq<LogLine>, m: int, l: LogLine)
    requires BucketHolds(b, lines, m) && l.Minute() == m
    ensures BucketHolds(Add(b, l), lines + [l], m)
  {
    TallySnoc(AtMinute(m), lines, l);
    forall h ensures HostEntry(Add(b, l), lines + [l], m, h) { AddHost(b, lines, m, l, h); }
    forall ip ensures IPEntry(Add(b, l), lines + [l], m, ip) { AddIP(b, lines, m, l, ip); }
  }

  // ---- One flush ----

  lemma {:induction false} RequestsCountLines(sel: LogLine -> bool, lines: seq<LogLine>)
    requires forall l :: l in lines ==> sel(l)
    ensures Tally(sel, lines).RequestsTotal() == |lines|
  {
    if lines != [] {
      var front, last := lines[..|lines| - 1], lines[|lines| - 1];
      assert last in lines && forall l :: l in front ==> l in lines;
      RequestsCountLines(sel, front);
      TallyLast(sel, lines);
    }
  }

  lemma HoldingNothing(b: Bucket, m: int)
    requires BucketHolds(b, [], m)
    ensures b == EMPTY
  {
    forall h ensures h !in b.hosts { assert HostEntry(b, [], m, h); }
    forall ip ensures ip !in b.ips { assert IPEntry(b, [], m, ip); }
    assert b.hosts == map[] && b.ips == map[];
  }

  /** A bucket that counted no request holds no line and no entry, so skipping its flush loses nothing. */
  lemma NoRequestsNoLines(b: Bucket, lines: seq<LogLine>, m: int)
    requires BucketHolds(b, lines, m)
    ensures b.total.RequestsTotal() == |lines|
    ensures b.total.RequestsTotal() == 0 ==> b == EMPTY && lines == []
  {
    hide Tally;
    RequestsCountLines(AtMinute(m), lines);
    if lines == [] { HoldingNothing(b, m); }
  }

  /** What a batch of lines of minute cur gives to the row of minute m. */
  lemma BatchCounts(pending: seq<LogLine>, cur: int, m: int)
    requires AllAt(pending, cur) && pending != []
    ensures Counts(m == cur, if m == cur then Tally(AtMinute(cur), pending) else ZERO, AtMinute(m), pending)
  {
    assert pending[0] in pending;
    if m == cur {
      assert AtMinute(m)(pending[0]);
    } else {
      NoLines(AtMinute(m), pending);
    }
  }

  lemma MinuteRowAfterFlush(t: map<int, Counters>, stored: seq<LogLine>, c: Counters, pending: seq<LogLine>, cur: int, m: int)
    requires MinuteRow(t, stored, m) && AllAt(pending, cur) && pending != [] && c == Tally(AtMinute(cur), pending)
    ensures MinuteRow(Upsert(t, cur, c), stored + pending, m)
  {
    hide Tally, Seen, AllAt;
    BatchCounts(pending, cur, m);
    CountsConcat(AtMinute(m), m in t, Get(t, m), stored, m == cur, if m == cur then c else ZERO, pending);
  }

  lemma UpsertAllGet(t: map<Key, Counters>, cur: int, b: map<string, Counters>, m: int, x: string)
    ensures ((m, x) in UpsertAll(t, cur, b)) == ((m, x) in t || (m == cur && x in b))
    ensures Get(UpsertAll(t, cur, b), (m, x)) == Get(t, (m, x)).Plus(if m == cur then Get(b, x) else ZERO)
  {
    var k: Key := (m, x);
    assert k in UpsertAll(t, cur, b) <==> k in t || k in (set s | s in b :: (cur, s));
  }

  lemma HostRowAfterFlush(t: map<Key, Counters>, stored: seq<LogLine>, b: Bucket, pending: seq<LogLine>, cur: int, m: int, h: string)
    requires HostRow(t, stored, m, h) && AllAt(pending, cur) && HostEntry(b, pending, cur, h)
    ensures HostRow(UpsertAll(t, cur, b.hosts), stored + pending, m, h)
  {
    hide LogLine.Minute;
    if m != cur { NoLines(AtHost(m, h), pending); }
    UpsertAllGet(t, cur, b.hosts, m, h);
    CountsConcat(AtHost(m, h), (m, h) in t, Get(t, (m, h)), stored,
                 m == cur && h in b.hosts, if m == cur then Get(b.hosts, h) else ZERO, pending);
  }

  lemma IPRowAfterFlush(t: map<Key, Counters>, stored: seq<LogLine>, b: Bucket, pending: seq<LogLine>, cur: int, m: int, ip: string)
    requires IPRow(t, stored, m, ip) && AllAt(pending, cur) && IPEntry(b, pending, cur, ip)
    ensures IPRow(UpsertAll(t, cur, b.ips), stored + pending, m, ip)
  {
    hide LogLine.Minute;
    if m != cur { NoLines(AtIP(m, ip), pending); }
    UpsertAllGet(t, cur, b.ips, m, ip);
    CountsConcat(AtIP(m, ip), (m, ip) in t, Get(t, (m, ip)), stored,
                 m == cur && ip in b.ips, if m == cur then Get(b.ips, ip) else ZERO, pending);
  }

  lemma FlushStores(t: Tables, stored: seq<LogLine>, b: Bucket, pending: seq<LogLine>, cur: int, ok: bool, m: int)
    requires RowsAt(t, stored, m) && BucketHolds(b, pending, cur)
    ensures RowsAt(Flush(t, cur, b, ok), if ok then stored + pending else stored, m)
  {
    hide Tally, Seen, LogLine.Minute;
    NoRequestsNoLines(b, pending, cur);
    if pending == [] {
      assert stored + pending == stored;
    } else if ok {
      MinuteRowAfterFlush(t.minutes, stored, b.total, pending, cur, m);
      forall h ensures HostRow(UpsertAll(t.hosts, cur, b.hosts), stored + pending, m, h) {
        assert HostEntry(b, pending, cur, h);
        HostRowAfterFlush(t.hosts, stored, b, pending, cur, m, h);
      }
      forall ip ensures IPRow(UpsertAll(t.ips, cur, b.ips), stored + pending, m, ip) {
        assert IPEntry(b, pending, cur, ip);
        IPRowAfterFlush(t.ips, stored, b, pending, cur, m, ip);
      }
    }
  }

  // ---- Every run ----

  /** What every reachable state satisfies. */
  ghost predicate Inv(s: State, g: Ledger) {
    BucketHolds(s.bucket, g.pending, s.currentMinute) && (s.currentMinute == 0 ==> g.pending == [])
  }

  lemma InvNext(s: State, g: Ledger, e: Event)
    requires Inv(s, g) && (e.Ingest? ==> e.line.Minute() != 0)
    ensures Inv(Next(s, e), Account(s, g, e))
  {
    hide LogLine.Minute;
    match e
    case Ingest(l, ok) =>
      var minute := l.Minute();
      if s.currentMinute == 0 || minute != s.currentMinute {
        EmptyBucketHolds(minute);
        if s.currentMinute == 0 { NoRequestsNoLines(s.bucket, g.pending, s.currentMinute); }
        AddHolds(EMPTY, [], minute, l);
        assert g.pending == [] ==> g.pending + [l] == [] + [l];
      } else {
        AddHolds(s.bucket, g.pending, minute, l);
      }
    case Tick(now, _) => EmptyBucketHolds(now);
    case Close(_) => EmptyBucketHolds(0);
    case ClearAll(_) => EmptyBucketHolds(0);
    case _ =>
  }

  lemma RowsNext(s: State, g: Ledger, e: Event, m: int)
    requires Inv(s, g) && RowsAt(s.tables, g.stored, m)
    requires Spares(e, m)
    ensures RowsAt(Next(s, e).tables, Account(s, g, e).stored, m)
  {
    match e
    case Ingest(l, ok) => FlushStores(s.tables, g.stored, s.bucket, g.pending, s.currentMinute, ok, m);
    case Tick(_, ok) => FlushStores(s.tables, g.stored, s.bucket, g.pending, s.currentMinute, ok, m);
    case Close(ok) => FlushStores(s.tables, g.stored, s.bucket, g.pending, s.currentMinute, ok, m);
    case ClearAll(_) =>
    case DeleteMinutes(_) =>
    case DeleteHosts(_) =>
      assert forall h :: HostRow(s.tables.hosts, g.stored, m, h) ==> HostRow(Next(s, e).tables.hosts, g.stored, m, h);
    case DeleteIPs(_) =>
      assert forall ip :: IPRow(s.tables.ips, g.stored, m, ip) ==> IPRow(Next(s, e).tables.ips, g.stored, m, ip);
  }

  /** In every reachable state the bucket is the group-by of the pending lines, all of the current minute. */
  lemma {:induction false} BucketInvariant(events: seq<Event>)
    requires Timed(events)
    ensures Inv(After(events), Accounts(events))
  {
    if events == [] {
      EmptyBucketHolds(0);
    } else {
      var front, last := events[..|events| - 1], events[|events| - 1];
      assert last in events && forall e :: e in front ==> e in events;
      BucketInvariant(front);
      InvNext(After(front), Accounts(front), last);
    }
  }

  /** In every reachable state the tables are the group-by of the stored lines, at every minute retention spared. */
  lemma {:induction false} TableInvariant(events: seq<Event>, m: int)
    requires Timed(events) && Retained(events, m)
    ensures RowsAt(After(events).tables, Accounts(events).stored, m)
  {
    if events != [] {
      var front, last := events[..|events| - 1], events[|events| - 1];
      assert last in events && forall e :: e in front ==> e in events;
      TableInvariant(front, m);
      BucketInvariant(front);
      RowsNext(After(front), Accounts(front), last, m);
    }
  }

  // ---- Conservation ----

  /** The selected lines of a ledger, wherever they are. */
  function Parts(sel: LogLine -> bool, g: Ledger): Counters {
    Tally(sel, g.stored).Plus(Tally(sel, g.pending)).Plus(Tally(sel, g.lost))
  }

  lemma FlushedParts(sel: LogLine -> bool, g: Ledger, ok: bool)
    ensures Parts(sel, g.Flushed(ok)) == Parts(sel, g)
  {
    hide LogLine.Minute;
    TallyNothing(sel, []);
    TallyConcat(sel, g.stored, g.pending);
    TallyConcat(sel, g.lost, g.pending);
  }

  lemma ReceivedParts(sel: LogLine -> bool, g: Ledger, l: LogLine, lines: seq<LogLine>)
    requires Parts(sel, g) == Tally(sel, lines)
    ensures Parts(sel, g.Received(l)) == Tally(sel, lines + [l])
  {
    hide LogLine.Minute, Tally;
    TallySnoc(sel, lines, l);
    TallySnoc(sel, g.pending, l);
  }

  lemma NothingParts(sel: LogLine -> bool)
    ensures Parts(sel, NOTHING) == Tally(sel, [])
  {
  }

  lemma AccountConserves(sel: LogLine -> bool, s: State, g: Ledger, e: Event, lines: seq<LogLine>)
    requires Parts(sel, g) == Tally(sel, lines)
    ensures Parts(sel, Account(s, g, e)) == Tally(sel, IngestedNext(lines, e))
  {
    hide LogLine.Minute, Tally, Parts, Ledger.Flushed, Ledger.Received;
    match e
    case Ingest(l, ok) =>
      FlushedParts(sel, g, ok);
      ReceivedParts(sel, g.Flushed(ok), l, lines);
      ReceivedParts(sel, g, l, lines);
    case Tick(_, ok) => FlushedParts(sel, g, ok);
    case Close(ok) => FlushedParts(sel, g, ok);
    case ClearAll(_) => NothingParts(sel);
    case _ =>
  }

  /** No line is counted twice or forgotten: stored, pending and dropped lines are the ingested ones. */
  lemma {:induction false} NoLineForgotten(sel: LogLine -> bool, events: seq<Event>)
    ensures Parts(sel, Accounts(events)) == Tally(sel, Ingested(events))
  {
    if events != [] {
      var front, last := events[..|events| - 1], events[|events| - 1];
      NoLineForgotten(sel, front);
      AccountConserves(sel, After(front), Accounts(front), last, Ingested(front));
    }
  }

  /** What the bucket contributes to a minute. */
  function InBucket(s: State, m: int): Counters {
    if m == s.currentMinute then s.bucket.total else ZERO
  }

  function HostInBucket(s: State, m: int, h: string): Counters {
    if m == s.currentMinute then Get(s.bucket.hosts, h) else ZERO
  }

  function IPInBucket(s: State, m: int, ip: string): Counters {
    if m == s.currentMinute then Get(s.bucket.ips, ip) else ZERO
  }

  lemma BucketIsPending(s: State, g: Ledger, m: int, h: string, ip: string)
    requires Inv(s, g) && ip != ""
    ensures InBucket(s, m) == Tally(AtMinute(m), g.pending)
    ensures HostInBucket(s, m, h) == Tally(AtHost(m, h), g.pending).BytesOnly()
    ensures IPInBucket(s, m, ip) == Tally(AtIP(m, ip), g.pending)
  {
    assert HostEntry(s.bucket, g.pending, s.currentMinute, h) && IPEntry(s.bucket, g.pending, s.currentMinute, ip);
    if m != s.currentMinute {
      NoLines(AtMinute(m), g.pending);
      NoLines(AtHost(m, h), g.pending);
      NoLines(AtIP(m, ip), g.pending);
    }
  }

  /**
   * For every run, at every minute retention spared: table row plus bucket plus what failed flushes
   * dropped is the group-by of the lines ingested since the last successful clear.
   */
  lemma MinutesConserved(events: seq<Event>, m: int)
    requires Timed(events) && Retained(events, m)
    ensures var s := After(events);
            Get(s.tables.minutes, m).Plus(InBucket(s, m)).Plus(Tally(AtMinute(m), Accounts(events).lost))
            == Tally(AtMinute(m), Ingested(events))
  {
    hide LogLine.Minute, Tally, InBucket;
    BucketInvariant(events);
    BucketIsPending(After(events), Accounts(events), m, "", "-");
    TableInvariant(events, m);
    NoLineForgotten(AtMinute(m), events);
  }

  /** The same for each host: its rows keep the bytes. */
  lemma HostsConserved(events: seq<Event>, m: int, h: string)
    requires Timed(events) && Retained(events, m)
    ensures var s := After(events);
            Get(s.tables.hosts, (m, h)).Plus(HostInBucket(s, m, h)).Plus(Tally(AtHost(m, h), Accounts(events).lost).BytesOnly())
            == Tally(AtHost(m, h), Ingested(events)).BytesOnly()
  {
    hide LogLine.Minute, Tally, HostInBucket;
    BucketInvariant(events);
    BucketIsPending(After(events), Accounts(events), m, h, "-");
    TableInvariant(events, m);
    assert HostRow(After(events).tables.hosts, Accounts(events).stored, m, h);
    NoLineForgotten(AtHost(m, h), events);
  }

  /** The same for each address. */
  lemma IPsConserved(events: seq<Event>, m: int, ip: string)
    requires Timed(events) && Retained(events, m) && ip != ""
    ensures var s := After(events);
            Get(s.tables.ips, (m, ip)).Plus(IPInBucket(s, m, ip)).Plus(Tally(AtIP(m, ip), Accounts(events).lost))
            == Tally(AtIP(m, ip), Ingested(events))
  {
    hide LogLine.Minute, Tally, IPInBucket;
    BucketInvariant(events);
    BucketIsPending(After(events), Accounts(events), m, "", ip);
    TableInvariant(events, m);
    assert IPRow(After(events).tables.ips, Accounts(events).stored, m, ip);
    NoLineForgotten(AtIP(m, ip), events);
  }

  predicate AllFlushesSucceed(events: seq<Event>) {
    forall e :: e in events ==> FlushOk(e)
  }

  predicate FlushOk(e: Event) {
    match e
    case Ingest(_, ok) => ok
    case Tick(_, ok) => ok
    case Close(ok) => ok
    case _ => true
  }

  /** Nothing is dropped when no flush fails. */
  lemma {:induction false} NothingLost(events: seq<Event>)
    requires AllFlushesSucceed(events)
    ensures Accounts(events).lost == []
  {
    if events != [] {
      var front, last := events[..|events| - 1], events[|events| - 1];
      assert last in events && forall e :: e in front ==> e in events;
      NothingLost(front);
    }
  }

  /** With no failed flush, table and bucket together are the group-by of the ingested lines. */
  lemma MinutesAreGroupBy(events: seq<Event>, m: int)
    requires Timed(events) && AllFlushesSucceed(events) && Retained(events, m)
    ensures var s := After(events); Get(s.tables.minutes, m).Plus(InBucket(s, m)) == Tally(AtMinute(m), Ingested(events))
  {
    hide LogLine.Minute, Tally, Accounts, After, Get;
    NothingLost(events);
    TallyNothing(AtMinute(m), []);
    MinutesConserved(events, m);
  }

  /** The same for each host. */
  lemma HostsAreGroupBy(events: seq<Event>, m: int, h: string)
    requires Timed(events) && AllFlushesSucceed(events) && Retained(events, m)
    ensures var s := After(events);
            Get(s.tables.hosts, (m, h)).Plus(HostInBucket(s, m, h)) == Tally(AtHost(m, h), Ingested(events)).BytesOnly()
  {
    hide LogLine.Minute, Tally, Accounts, After, Get;
    NothingLost(events);
    TallyNothing(AtHost(m, h), []);
    HostsConserved(events, m, h);
  }

  /** The same for each address. */
  lemma IPsAreGroupBy(events: seq<Event>, m: int, ip: string)
    requires Timed(events) && AllFlushesSucceed(events) && Retained(events, m) && ip != ""
    ensures var s := After(events);
            Get(s.tables.ips, (m, ip)).Plus(IPInBucket(s, m, ip)) == Tally(AtIP(m, ip), Ingested(events))
  {
    hide LogLine.Minute, Tally, Accounts, After, Get;
    NothingLost(events);
    TallyNothing(AtIP(m, ip), []);
    IPsConserved(events, m, ip);
  }

  /** With no failed flush, the stored lines followed by the pending ones are the log itself, in order. */
  lemma {:induction false} StoredThenPending(events: seq<Event>)
    requires AllFlushesSucceed(events)
    ensures Accounts(events).stored + Accounts(events).pending == Ingested(events)
  {
    hide LogLine.Minute;
    if events != [] {
      var front, last := events[..|events| - 1], events[|events| - 1];
      assert last in events && forall e :: e in front ==> e in events;
      StoredThenPending(front);
      var g := Accounts(front);
      if last.Ingest? {
        assert g.stored + (g.pending + [last.line]) == (g.stored + g.pending) + [last.line];
      }
      assert (g.stored + g.pending) + [] == g.stored + g.pending;
    }
  }

  lemma NoMinuteNoBucket(s: State, g: Ledger)
    requires Inv(s, g) && s.currentMinute == 0
    ensures s.bucket == EMPTY
  {
    HoldingNothing(s.bucket, 0);
  }

  lemma ClosedIsEmpty(s: State, g: Ledger, ok: bool)
    requires Inv(s, g)
    ensures Next(s, Close(ok)).currentMinute == 0 && Next(s, Close(ok)).bucket == EMPTY
  {
    hide BucketHolds, Flush;
    if s.currentMinute == 0 { NoMinuteNoBucket(s, g); }
  }

  lemma ClosedHasNothingPending(events: seq<Event>)
    requires Timed(events) && events != [] && events[|events| - 1].Close?
    ensures Accounts(events).pending == []
  {
    hide LogLine.Minute, BucketHolds, Flush;
    var front := events[..|events| - 1];
    assert Timed(front);
    BucketInvariant(front);
  }

  /** After a run in which every flush succeeds and which ends with Close, the tables alone are the group-by. */
  lemma ClosedTablesAreGroupBy(events: seq<Event>, m: int, h: string, ip: string)
    requires Timed(events) && AllFlushesSucceed(events) && Retained(events, m) && ip != ""
    requires events != [] && events[|events| - 1].Close?
    ensures var t, all := After(events).tables, Ingested(events);
            && Get(t.minutes, m) == Tally(AtMinute(m), all)
            && Get(t.hosts, (m, h)) == Tally(AtHost(m, h), all).BytesOnly()
            && Get(t.ips, (m, ip)) == Tally(AtIP(m, ip), all)
    ensures After(events).currentMinute == 0 && After(events).bucket == EMPTY
  {
    hide LogLine.Minute;
    MinutesAreGroupBy(events, m);
    HostsAreGroupBy(events, m, h);
    IPsAreGroupBy(events, m, ip);
    var front := events[..|events| - 1];
    assert Timed(front);
    BucketInvariant(front);
    ClosedIsEmpty(After(front), Accounts(front), events[|events| - 1].ok);
  }

  // ---- Clearing ----

  /** The events that still matter: those since the last successful clear, without the clears that failed. */
  function Effective(events: seq<Event>): seq<Event> {
    if events == [] then []
    else
      var before, last := Effective(events[..|events| - 1]), events[|events| - 1];
      if last.ClearAll? then (if last.ok then [] else before) else before + [last]
  }

  lemma {:induction false} EffectiveEvents(events: seq<Event>)
    ensures forall e :: e in Effective(events) ==> e in events && !e.ClearAll?
  {
    if events != [] {
      var front, last := events[..|events| - 1], events[|events| - 1];
      EffectiveEvents(front);
      assert events == front + [last];
    }
  }

  lemma SnocSteps(events: seq<Event>, e: Event)
    ensures After(events + [e]) == Next(After(events), e)
    ensures Ingested(events + [e]) == IngestedNext(Ingested(events), e)
    ensures Accounts(events + [e]) == Account(After(events), Accounts(events), e)
  {
    assert (events + [e])[..|events|] == events;
  }

  /**
   * A clear that fails leaves no trace in any later state, and one that succeeds makes everything before it
   * irrelevant: a run ends like the run of its effective events, with the same ledger.
   */
  lemma {:induction false} ClearIsAllOrNothing(events: seq<Event>)
    ensures After(events) == After(Effective(events))
    ensures Ingested(events) == Ingested(Effective(events))
    ensures Accounts(events) == Accounts(Effective(events))
  {
    hide Next, IngestedNext, Account;
    if events != [] {
      var front, last := events[..|events| - 1], events[|events| - 1];
      ClearIsAllOrNothing(front);
      SnocSteps(Effective(front), last);
      if last.ClearAll? { ClearSteps(After(front), Accounts(front), Ingested(front), last); }
    }
  }

  lemma ClearSteps(s: State, g: Ledger, lines: seq<LogLine>, e: Event)
    requires e.ClearAll?
    ensures Next(s, e) == (if e.ok then After([]) else s) && IngestedNext(lines, e) == (if e.ok then Ingested([]) else lines)
    ensures Account(s, g, e) == if e.ok then Accounts([]) else g
  {
  }

  // ---- Minute 0 ----

  predicate IsRetention(e: Event) {
    e.DeleteMinutes? || e.DeleteHosts? || e.DeleteIPs?
  }

  /** The three tables are the group-by of the lines, row for row. */
  ghost predicate GroupedBy(t: Tables, lines: seq<LogLine>) {
    forall m :: RowsAt(t, lines, m)
  }

  /** No row is ever written for minute 0. */
  lemma {:induction false} NoZeroRow(events: seq<Event>)
    ensures 0 !in After(events).tables.minutes
  {
    hide LogLine.Minute, Add, UpsertAll;
    if events != [] { NoZeroRow(events[..|events| - 1]); }
  }

  lemma {:induction false} IngestedWithoutClear(events: seq<Event>)
    requires forall e :: e in events ==> !e.ClearAll?
    ensures forall e :: e in events && e.Ingest? ==> e.line in Ingested(events)
  {
    if events != [] {
      var front, last := events[..|events| - 1], events[|events| - 1];
      assert events == front + [last];
      IngestedWithoutClear(front);
    }
  }

  lemma GroupedByStored(events: seq<Event>)
    requires Timed(events) && AllFlushesSucceed(events) && forall e :: e in events ==> !IsRetention(e)
    requires events != [] && events[|events| - 1].Close?
    ensures GroupedBy(After(events).tables, Ingested(events))
  {
    hide LogLine.Minute, RowsAt;
    StoredThenPending(events);
    ClosedHasNothingPending(events);
    assert Accounts(events).stored + [] == Accounts(events).stored;
    forall m ensures RowsAt(After(events).tables, Ingested(events), m) {
      TableInvariant(events, m);
    }
  }

  lemma TimedIsGrouped(events: seq<Event>)
    requires AllFlushesSucceed(events) && forall e :: e in events ==> !IsRetention(e)
    requires events != [] && events[|events| - 1].Close?
    requires forall l :: l in Ingested(events) ==> l.Minute() != 0
    ensures GroupedBy(After(events).tables, Ingested(events))
  {
    hide LogLine.Minute, Next, Account, After, Ingested, Accounts, RowsAt;
    var es := Effective(events);
    ClearIsAllOrNothing(events);
    EffectiveEvents(events);
    IngestedWithoutClear(es);
    assert es == Effective(events[..|events| - 1]) + [events[|events| - 1]];
    GroupedByStored(es);
  }

  lemma ZeroIsNotGrouped(events: seq<Event>, l: LogLine)
    requires l in Ingested(events) && l.Minute() == 0
    ensures !GroupedBy(After(events).tables, Ingested(events))
  {
    hide LogLine.Minute, After, Ingested, Tally, HostRow, IPRow;
    var t, lines := After(events).tables, Ingested(events);
    assert GroupedBy(t, lines) ==> RowsAt(t, lines, 0);
    assert RowsAt(t, lines, 0) ==> MinuteRow(t.minutes, lines, 0);
    NoZeroRow(events);
    assert AtMinute(0)(l);
  }

  /**
   * Minute 0 is taken for the absence of a bucket: after a run without retention in which every flush succeeds
   * and which ends with Close, the tables are the group-by of the lines since the last clear if and only if none
   * of those lines has minute 0.
   */
  lemma TablesAreGroupByIff(events: seq<Event>)
    requires AllFlushesSucceed(events) && forall e :: e in events ==> !IsRetention(e)
    requires events != [] && events[|events| - 1].Close?
    ensures GroupedBy(After(events).tables, Ingested(events)) <==> forall l :: l in Ingested(events) ==> l.Minute() != 0
  {
    hide LogLine.Minute, After, Ingested, GroupedBy, FlushOk;
    if l :| l in Ingested(events) && l.Minute() == 0 {
      ZeroIsNotGrouped(events, l);
    } else {
      TimedIsGrouped(events);
    }
  }

  /** A line of minute 0 is stored with the minute of the next line. */
  lemma MinuteZeroJoinsNext(zero: LogLine, l: LogLine)
    requires zero.Minute() == 0 && l.Minute() != 0
    ensures var events := [] + [Ingest(zero, true)] + [Ingest(l, true)] + [Close(true)];
            && After(events).tables == Flush(NO_ROWS, l.Minute(), Add(Add(EMPTY, zero), l), true)
            && Ingested(events) == [zero, l]
  {
    hide LogLine.Minute, Add, Flush;
    SnocSteps([], Ingest(zero, true));
    SnocSteps([] + [Ingest(zero, true)], Ingest(l, true));
    SnocSteps([] + [Ingest(zero, true)] + [Ingest(l, true)], Close(true));
    assert [] + [zero] + [l] == [zero, l];
  }

  lemma TwoRequests(zero: LogLine, l: LogLine, m: int)
    ensures Get(Flush(NO_ROWS, m, Add(Add(EMPTY, zero), l), true).minutes, m).RequestsTotal() == 2
  {
    hide LogLine.Minute, LogLine.IsHit;
  }

  lemma OneRequest(zero: LogLine, l: LogLine, m: int)
    requires zero.Minute() != m && l.Minute() == m
    ensures Tally(AtMinute(m), [zero, l]).RequestsTotal() == 1
  {
    hide LogLine.Minute, LogLine.IsHit;
    OneLine(AtMinute(m), zero);
    TallySnoc(AtMinute(m), [zero], l);
    assert [zero] + [l] == [zero, l];
  }

  /** For example: minute 7 gets two requests for the one line it had. */
  lemma MinuteZeroIsMisfiled()
    ensures var zero, seven := LogLine(0, "a", 200, 1, "HIT", "h"), LogLine(420, "a", 200, 1, "HIT", "h");
            var events := [] + [Ingest(zero, true)] + [Ingest(seven, true)] + [Close(true)];
            && Get(After(events).tables.minutes, 7).RequestsTotal() == 2
            && Tally(AtMinute(7), Ingested(events)).RequestsTotal() == 1
  {
    var zero, seven := LogLine(0, "a", 200, 1, "HIT", "h"), LogLine(420, "a", 200, 1, "HIT", "h");
    assert zero.Minute() == 0 && seven.Minute() == 7;
    hide LogLine.Minute, After, Ingested, Tally, Flush, Get;
    MinuteZeroJoinsNext(zero, seven);
    TwoRequests(zero, seven, 7);
    OneRequest(zero, seven, 7);
  }
}

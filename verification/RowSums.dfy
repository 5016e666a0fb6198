/** Sums over table rows equal tallies of log lines, so the three tables agree with each other. */
module RowSums {
  import opened Traffic
  import opened Aggregation

  // ---- Sums over groups of lines ----

  function Of<K(==)>(sel: LogLine -> bool, key: LogLine -> K, k: K): LogLine -> bool {
    (l: LogLine) => sel(l) && key(l) == k
  }

  function PerKey<K(==)>(sel: LogLine -> bool, key: LogLine -> K, lines: seq<LogLine>): K -> Counters {
    (k: K) => Tally(Of(sel, key, k), lines)
  }

  lemma {:induction false} SumOfZeros<K>(s: set<K>, f: K -> Counters)
    requires forall x :: x in s ==> f(x) == ZERO
    ensures Sum(s, f) == ZERO
    decreases s
  {
    if s != {} {
      var x :| x in s;
      SumOfZeros(s - {x}, f);
      SumRemove(s, x, f);
    }
  }

  /** Growing one summand grows the sum. */
  lemma SumBump<K>(s: set<K>, f: K -> Counters, g: K -> Counters, x: K, c: Counters)
    requires x in s && g(x) == f(x).Plus(c)
    requires forall y :: y in s && y != x ==> g(y) == f(y)
    ensures Sum(s, g) == Sum(s, f).Plus(c)
  {
    SumRemove(s, x, f);
    SumRemove(s, x, g);
    SumSame(s - {x}, f, g);
    PlusSwap(f(x), c, Sum(s - {x}, f));
    PlusSwap(c, f(x), Sum(s - {x}, f));
  }

  lemma {:induction false} SumBytesOnly<K>(s: set<K>, f: K -> Counters, g: K -> Counters)
    requires forall x :: x in s ==> g(x) == f(x).BytesOnly()
    ensures Sum(s, g) == Sum(s, f).BytesOnly()
    decreases s
  {
    if s != {} {
      var x :| x in s;
      SumBytesOnly(s - {x}, f, g);
      SumRemove(s, x, f);
      SumRemove(s, x, g);
    }
  }

  /** Grouping the selected lines by any key and adding up the groups gives the tally of all of them. */
  lemma {:induction false} GroupsCover<K>(s: set<K>, sel: LogLine -> bool, key: LogLine -> K, lines: seq<LogLine>)
    requires forall l :: l in lines && sel(l) ==> key(l) in s
    ensures Sum(s, PerKey(sel, key, lines)) == Tally(sel, lines)
  {
    if lines == [] {
      SumOfZeros(s, PerKey(sel, key, lines));
    } else {
      var front, l := lines[..|lines| - 1], lines[|lines| - 1];
      assert l in lines && forall x :: x in front ==> x in lines;
      GroupsCover(s, sel, key, front);
      forall k ensures PerKey(sel, key, lines)(k) ==
                       if sel(l) && key(l) == k then PerKey(sel, key, front)(k).Plus(l.Count()) else PerKey(sel, key, front)(k)
      {
        TallySnoc(Of(sel, key, k), front, l);
        assert front + [l] == lines;
      }
      TallyLast(sel, lines);
      if sel(l) {
        SumBump(s, PerKey(sel, key, front), PerKey(sel, key, lines), key(l), l.Count());
      } else {
        SumSame(s, PerKey(sel, key, front), PerKey(sel, key, lines));
      }
    }
  }

  // ---- Row sums against the log lines ----

  /** A WHERE clause on ts. */
  type Where = int -> bool

  function At(m: int): Where {
    (x: int) => x == m
  }

  /** WHERE ts >= from */
  function Since(from: int): Where {
    (x: int) => x >= from
  }

  function Over(w: Where): LogLine -> bool {
    (l: LogLine) => w(l.Minute())
  }

  function Addressed(w: Where): LogLine -> bool {
    (l: LogLine) => w(l.Minute()) && l.remoteAddr != ""
  }

  function Anonymous(w: Where): LogLine -> bool {
    (l: LogLine) => w(l.Minute()) && l.remoteAddr == ""
  }

  function MinuteOf(): LogLine -> int {
    (l: LogLine) => l.Minute()
  }

  function HostOf(): LogLine -> Key {
    (l: LogLine) => (l.Minute(), l.host)
  }

  function IPOf(): LogLine -> Key {
    (l: LogLine) => (l.Minute(), l.remoteAddr)
  }

  function Value<K(==)>(t: map<K, Counters>): K -> Counters {
    (k: K) => Get(t, k)
  }

  function Minutes(t: map<int, Counters>, w: Where): set<int> {
    set m | m in t && w(m)
  }

  function Keys(t: map<Key, Counters>, w: Where): set<Key> {
    set k | k in t && w(k.0)
  }

  /** The tables hold the group-by of the lines at every minute the clause selects. */
  ghost predicate Rows(t: Tables, lines: seq<LogLine>, w: Where) {
    forall m :: w(m) ==> RowsAt(t, lines, m)
  }

  lemma SeenIn(sel: LogLine -> bool, lines: seq<LogLine>, l: LogLine)
    requires l in lines && sel(l)
    ensures Seen(sel, lines)
  {
  }

  lemma MinuteSum(t: Tables, lines: seq<LogLine>, w: Where)
    requires Rows(t, lines, w)
    ensures Sum(Minutes(t.minutes, w), Value(t.minutes)) == Tally(Over(w), lines)
  {
    hide LogLine.Minute, Tally, Seen;
    var s := Minutes(t.minutes, w);
    forall l | l in lines && Over(w)(l) ensures MinuteOf()(l) in s {
      var m := l.Minute();
      assert MinuteRow(t.minutes, lines, m);
      SeenIn(AtMinute(m), lines, l);
    }
    GroupsCover(s, Over(w), MinuteOf(), lines);
    forall m | m in s ensures Value(t.minutes)(m) == PerKey(Over(w), MinuteOf(), lines)(m) {
      assert MinuteRow(t.minutes, lines, m);
      TallySame(AtMinute(m), Of(Over(w), MinuteOf(), m), lines);
    }
    SumSame(s, Value(t.minutes), PerKey(Over(w), MinuteOf(), lines));
  }

  lemma HostSum(t: Tables, lines: seq<LogLine>, w: Where)
    requires Rows(t, lines, w)
    ensures Sum(Keys(t.hosts, w), Value(t.hosts)) == Tally(Over(w), lines).BytesOnly()
  {
    hide LogLine.Minute, Tally, Seen;
    var s := Keys(t.hosts, w);
    forall l | l in lines && Over(w)(l) ensures HostOf()(l) in s {
      var m := l.Minute();
      assert RowsAt(t, lines, m) && HostRow(t.hosts, lines, m, l.host);
      SeenIn(AtHost(m, l.host), lines, l);
    }
    GroupsCover(s, Over(w), HostOf(), lines);
    forall k | k in s ensures Value(t.hosts)(k) == PerKey(Over(w), HostOf(), lines)(k).BytesOnly() {
      assert RowsAt(t, lines, k.0) && HostRow(t.hosts, lines, k.0, k.1);
      TallySame(AtHost(k.0, k.1), Of(Over(w), HostOf(), k), lines);
    }
    SumBytesOnly(s, PerKey(Over(w), HostOf(), lines), Value(t.hosts));
  }

  lemma IPSum(t: Tables, lines: seq<LogLine>, w: Where)
    requires Rows(t, lines, w)
    ensures Sum(Keys(t.ips, w), Value(t.ips)) == Tally(Addressed(w), lines)
  {
    hide LogLine.Minute, Tally, Seen;
    var s := Keys(t.ips, w);
    forall l | l in lines && Addressed(w)(l) ensures IPOf()(l) in s {
      var m := l.Minute();
      assert RowsAt(t, lines, m) && IPRow(t.ips, lines, m, l.remoteAddr);
      SeenIn(AtIP(m, l.remoteAddr), lines, l);
    }
    GroupsCover(s, Addressed(w), IPOf(), lines);
    forall k | k in s ensures Value(t.ips)(k) == PerKey(Addressed(w), IPOf(), lines)(k) {
      assert RowsAt(t, lines, k.0) && IPRow(t.ips, lines, k.0, k.1);
      TallySame(AtIP(k.0, k.1), Of(Addressed(w), IPOf(), k), lines);
    }
    SumSame(s, Value(t.ips), PerKey(Addressed(w), IPOf(), lines));
  }

  lemma {:induction false} AddressedOrNot(w: Where, lines: seq<LogLine>)
    ensures Tally(Addressed(w), lines).Plus(Tally(Anonymous(w), lines)) == Tally(Over(w), lines)
  {
    hide LogLine.Minute;
    if lines != [] {
      AddressedOrNot(w, lines[..|lines| - 1]);
      TallyLast(Addressed(w), lines);
      TallyLast(Anonymous(w), lines);
      TallyLast(Over(w), lines);
    }
  }

  // ---- Agreement of the three tables ----

  lemma LaterIsRetained(events: seq<Event>, from: int, m: int)
    requires Retained(events, from) && m >= from
    ensures Retained(events, m)
  {
    forall e | e in events ensures Spares(e, m) {
      assert Spares(e, from);
    }
  }

  lemma ReachableRows(events: seq<Event>, from: int, w: Where)
    requires Timed(events) && Retained(events, from) && forall m :: w(m) ==> m >= from
    ensures Rows(After(events).tables, Accounts(events).stored, w)
  {
    forall m | w(m) ensures RowsAt(After(events).tables, Accounts(events).stored, m) {
      LaterIsRetained(events, from, m);
      TableInvariant(events, m);
    }
  }

  lemma MinuteRowIs(t: Tables, lines: seq<LogLine>, m: int)
    requires RowsAt(t, lines, m)
    ensures Get(t.minutes, m) == Tally(Over(At(m)), lines)
  {
    hide LogLine.Minute, Tally;
    TallySame(AtMinute(m), Over(At(m)), lines);
  }

  /**
   * In every reachable state, with the three deletes of retention anywhere among the other steps: at a
   * minute retention spared the host rows sum to the minute row, and the address rows sum to it up to
   * the stored lines without an address.
   */
  lemma TablesAgree(events: seq<Event>, m: int)
    requires Timed(events) && Retained(events, m)
    ensures var t, stored := After(events).tables, Accounts(events).stored;
            && Sum(Keys(t.hosts, At(m)), Value(t.hosts)) == Get(t.minutes, m).BytesOnly()
            && Sum(Keys(t.ips, At(m)), Value(t.ips)).Plus(Tally(Anonymous(At(m)), stored)) == Get(t.minutes, m)
  {
    hide LogLine.Minute, Tally, Sum, After, Accounts, RowsAt;
    var t, stored := After(events).tables, Accounts(events).stored;
    ReachableRows(events, m, At(m));
    HostSum(t, stored, At(m));
    IPSum(t, stored, At(m));
    AddressedOrNot(At(m), stored);
    MinuteRowIs(t, stored, m);
  }

  lemma {:induction false} TallyNotNegative(sel: LogLine -> bool, lines: seq<LogLine>)
    requires forall l :: l in lines ==> l.bytesSent >= 0
    ensures ZERO.AtMost(Tally(sel, lines))
  {
    if lines != [] {
      var front, last := lines[..|lines| - 1], lines[|lines| - 1];
      assert last in lines && forall l :: l in front ==> l in lines;
      TallyNotNegative(sel, front);
      TallyLast(sel, lines);
    }
  }

  /** Address rows never exceed their minute row, and meet it exactly when every line had an address. */
  lemma IPsWithinMinute(events: seq<Event>, m: int)
    requires Timed(events) && Retained(events, m)
    requires forall l :: l in Accounts(events).stored ==> l.bytesSent >= 0
    ensures var t, stored := After(events).tables, Accounts(events).stored;
            && Sum(Keys(t.ips, At(m)), Value(t.ips)).AtMost(Get(t.minutes, m))
            && ((forall l :: l in stored ==> l.remoteAddr != "") ==> Sum(Keys(t.ips, At(m)), Value(t.ips)) == Get(t.minutes, m))
  {
    hide LogLine.Minute, Tally, Sum, After, Accounts, Get;
    var stored := Accounts(events).stored;
    TablesAgree(events, m);
    TallyNotNegative(Anonymous(At(m)), stored);
    if forall l :: l in stored ==> l.remoteAddr != "" {
      TallyNothing(Anonymous(At(m)), stored);
    }
  }
}

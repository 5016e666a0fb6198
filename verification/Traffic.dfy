/** Log lines, traffic counters, and sums of counters. */
module Traffic {

  /** A parsed access-log line; time is in unix seconds. */
  datatype LogLine = LogLine(time: int, remoteAddr: string, status: int, bytesSent: int, cacheStatus: string, host: string)
  {
    predicate IsHit() {
      cacheStatus == "HIT" || cacheStatus == "REVALIDATED"
    }

    /** time.Unix() / 60, with Go's truncating division. */
    function Minute(): int {
      if time >= 0 then time / 60 else -((-time) / 60)
    }

    /** What the line adds to a counter. */
    function Count(): Counters {
      if IsHit() then Counters(bytesSent, 0, 1, 0) else Counters(0, bytesSent, 0, 1)
    }
  }

  datatype Counters = Counters(bytesHit: int, bytesMiss: int, requestsHit: int, requestsMiss: int)
  {
    function Plus(c: Counters): Counters {
      Counters(bytesHit + c.bytesHit, bytesMiss + c.bytesMiss, requestsHit + c.requestsHit, requestsMiss + c.requestsMiss)
    }

    predicate AtMost(c: Counters) {
      bytesHit <= c.bytesHit && bytesMiss <= c.bytesMiss && requestsHit <= c.requestsHit && requestsMiss <= c.requestsMiss
    }

    function BytesTotal(): int {
      bytesHit + bytesMiss
    }

    function RequestsTotal(): int {
      requestsHit + requestsMiss
    }

    /** The counters a host row keeps. */
    function BytesOnly(): Counters {
      Counters(bytesHit, bytesMiss, 0, 0)
    }
  }

  const ZERO := Counters(0, 0, 0, 0)

  // ---- The plain group-by over a log ----

  /** The counters of the selected lines. */
  function Tally(sel: LogLine -> bool, lines: seq<LogLine>): Counters {
    TallyOfFirst(sel, lines, |lines|)
  }

  function TallyOfFirst(sel: LogLine -> bool, lines: seq<LogLine>, n: nat): Counters
    requires n <= |lines|
  {
    if n == 0 then ZERO
    else
      var before := TallyOfFirst(sel, lines, n - 1);
      if sel(lines[n - 1]) then before.Plus(lines[n - 1].Count()) else before
  }

  function AtMinute(m: int): LogLine -> bool {
    (l: LogLine) => l.Minute() == m
  }

  function AtHost(m: int, host: string): LogLine -> bool {
    (l: LogLine) => l.Minute() == m && l.host == host
  }

  function AtIP(m: int, ip: string): LogLine -> bool {
    (l: LogLine) => l.Minute() == m && l.remoteAddr == ip
  }

  lemma {:induction false} TallyOfPrefix(sel: LogLine -> bool, lines: seq<LogLine>, more: seq<LogLine>, n: nat)
    requires n <= |lines|
    ensures TallyOfFirst(sel, lines + more, n) == TallyOfFirst(sel, lines, n)
  {
    if n > 0 {
      TallyOfPrefix(sel, lines, more, n - 1);
    }
  }

  lemma TallySnoc(sel: LogLine -> bool, lines: seq<LogLine>, l: LogLine)
    ensures Tally(sel, lines + [l]) == if sel(l) then Tally(sel, lines).Plus(l.Count()) else Tally(sel, lines)
  {
    TallyOfPrefix(sel, lines, [l], |lines|);
  }

  /** The last line counts on top of the others. */
  lemma TallyLast(sel: LogLine -> bool, lines: seq<LogLine>)
    requires lines != []
    ensures var front, last := Tally(sel, lines[..|lines| - 1]), lines[|lines| - 1];
            Tally(sel, lines) == if sel(last) then front.Plus(last.Count()) else front
  {
    assert lines == lines[..|lines| - 1] + [lines[|lines| - 1]];
    TallySnoc(sel, lines[..|lines| - 1], lines[|lines| - 1]);
  }

  lemma {:induction false} TallyConcat(sel: LogLine -> bool, a: seq<LogLine>, b: seq<LogLine>)
    ensures Tally(sel, a + b) == Tally(sel, a).Plus(Tally(sel, b))
  {
    if b == [] {
      assert a + b == a;
    } else {
      var front, last := b[..|b| - 1], b[|b| - 1];
      TallyConcat(sel, a, front);
      TallySnoc(sel, a + front, last);
      TallyLast(sel, b);
      assert a + b == (a + front) + [last];
    }
  }

  lemma {:induction false} TallyNothing(sel: LogLine -> bool, lines: seq<LogLine>)
    requires forall l :: l in lines ==> !sel(l)
    ensures Tally(sel, lines) == ZERO
  {
    if lines != [] {
      var front, last := lines[..|lines| - 1], lines[|lines| - 1];
      assert last in lines && forall l :: l in front ==> l in lines;
      TallyNothing(sel, front);
      TallyLast(sel, lines);
    }
  }

  lemma {:induction false} TallySame(sel: LogLine -> bool, sel': LogLine -> bool, lines: seq<LogLine>)
    requires forall l :: l in lines ==> sel(l) == sel'(l)
    ensures Tally(sel, lines) == Tally(sel', lines)
  {
    if lines != [] {
      var front, last := lines[..|lines| - 1], lines[|lines| - 1];
      assert last in lines && forall l :: l in front ==> l in lines;
      TallySame(sel, sel', front);
      TallyLast(sel, lines);
      TallyLast(sel', lines);
    }
  }

  // ---- Sums over finite sets ----

  ghost function Sum<K>(s: set<K>, f: K -> Counters): Counters {
    if s == {} then ZERO
    else
      var x :| x in s;
      f(x).Plus(Sum(s - {x}, f))
  }

  /** Any element may be taken out first. */
  lemma {:induction false} SumRemove<K>(s: set<K>, x: K, f: K -> Counters)
    requires x in s
    ensures Sum(s, f) == f(x).Plus(Sum(s - {x}, f))
    decreases s
  {
    var y :| y in s && Sum(s, f) == f(y).Plus(Sum(s - {y}, f));
    if y != x {
      SumRemove(s - {y}, x, f);
      SumRemove(s - {x}, y, f);
      assert s - {y} - {x} == s - {x} - {y};
      PlusSwap(f(y), f(x), Sum(s - {x} - {y}, f));
    }
  }

  lemma PlusSwap(a: Counters, b: Counters, c: Counters)
    ensures a.Plus(b.Plus(c)) == b.Plus(a.Plus(c))
    ensures a.Plus(b.Plus(c)) == a.Plus(b).Plus(c)
    ensures a.Plus(b) == b.Plus(a)
  {
  }

  lemma SumAdd<K>(s: set<K>, x: K, f: K -> Counters)
    requires x !in s
    ensures Sum(s + {x}, f) == f(x).Plus(Sum(s, f))
  {
    SumRemove(s + {x}, x, f);
    assert s + {x} - {x} == s;
  }

  lemma {:induction false} SumSame<K>(s: set<K>, f: K -> Counters, g: K -> Counters)
    requires forall x :: x in s ==> f(x) == g(x)
    ensures Sum(s, f) == Sum(s, g)
    decreases s
  {
    if s != {} {
      var x :| x in s;
      SumSame(s - {x}, f, g);
      SumRemove(s, x, f);
      SumRemove(s, x, g);
    }
  }

  lemma SumUnionStep<K>(s: set<K>, t: set<K>, u: set<K>, x: K, f: K -> Counters)
    requires x in t && x !in s && x in u
    requires Sum(u - {x}, f) == Sum(s, f).Plus(Sum(t - {x}, f))
    ensures Sum(u, f) == Sum(s, f).Plus(Sum(t, f))
  {
    SumRemove(t, x, f);
    SumRemove(u, x, f);
    PlusSwap(f(x), Sum(s, f), Sum(t - {x}, f));
  }

  /** The sum over a disjoint union. */
  lemma {:induction false} SumUnion<K>(s: set<K>, t: set<K>, u: set<K>, f: K -> Counters)
    requires s !! t && u == s + t
    ensures Sum(u, f) == Sum(s, f).Plus(Sum(t, f))
    decreases t
  {
    if t == {} {
      assert u == s;
      assert Sum(t, f) == ZERO;
    } else {
      var x :| x in t;
      SumUnion(s, t - {x}, u - {x}, f);
      SumUnionStep(s, t, u, x, f);
    }
  }

  /** The elements of s that g maps to y. */
  ghost function Group<K(!new), Y>(s: set<K>, g: K -> Y, y: Y): set<K> {
    set x | x in s && g(x) == y
  }

  ghost function Image<K(!new), Y>(s: set<K>, g: K -> Y): set<Y> {
    set x | x in s :: g(x)
  }

  /** Grouping and summing the groups is summing everything: GROUP BY loses nothing. */
  lemma {:induction false} SumByGroups<K(!new), Y>(s: set<K>, f: K -> Counters, g: K -> Y, ys: set<Y>)
    requires ys == Image(s, g)
    ensures Sum(ys, y => Sum(Group(s, g, y), f)) == Sum(s, f)
    decreases ys
  {
    if ys == {} {
      assert forall x :: x in s ==> g(x) in Image(s, g);
      assert s == {};
    } else {
      var y :| y in ys;
      var rest := s - Group(s, g, y);
      assert ys - {y} == Image(rest, g);
      SumByGroups(rest, f, g, ys - {y});
      SumRemove(ys, y, z => Sum(Group(s, g, z), f));
      forall z | z in ys - {y} ensures Sum(Group(s, g, z), f) == Sum(Group(rest, g, z), f) {
        assert Group(s, g, z) == Group(rest, g, z);
      }
      SumSame(ys - {y}, z => Sum(Group(s, g, z), f), z => Sum(Group(rest, g, z), f));
      assert Group(s, g, y) + rest == s;
      SumUnion(Group(s, g, y), rest, s, f);
    }
  }
}

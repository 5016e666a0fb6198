/** Filtering, collecting and trimming sequences. */
module Lists {
  import opened Wrappers

  /** The elements of s that satisfy f, in order. */
  function Filter<T>(f: T -> bool, s: seq<T>): seq<T> {
    if s == [] then []
    else
      var front, last := Filter(f, s[..|s| - 1]), s[|s| - 1];
      if f(last) then front + [last] else front
  }

  lemma FilterSnoc<T>(f: T -> bool, s: seq<T>, x: T)
    ensures Filter(f, s + [x]) == if f(x) then Filter(f, s) + [x] else Filter(f, s)
  {
    assert (s + [x])[..|s|] == s;
  }

  lemma {:induction false} FilterMembers<T>(f: T -> bool, s: seq<T>)
    ensures forall x :: x in Filter(f, s) <==> x in s && f(x)
    ensures |Filter(f, s)| <= |s|
  {
    if s != [] {
      FilterMembers(f, s[..|s| - 1]);
      assert s == s[..|s| - 1] + [s[|s| - 1]];
    }
  }

  lemma {:induction false} FilterConcat<T>(f: T -> bool, a: seq<T>, b: seq<T>)
    ensures Filter(f, a + b) == Filter(f, a) + Filter(f, b)
  {
    if b == [] {
      assert a + b == a;
    } else {
      var front, last := b[..|b| - 1], b[|b| - 1];
      FilterConcat(f, a, front);
      assert a + b == (a + front) + [last];
      FilterSnoc(f, a + front, last);
    }
  }

  /** Filtering twice is filtering once. */
  lemma {:induction false} FilterIdempotent<T>(f: T -> bool, s: seq<T>)
    ensures Filter(f, Filter(f, s)) == Filter(f, s)
  {
    if s != [] {
      var front, last := s[..|s| - 1], s[|s| - 1];
      FilterIdempotent(f, front);
      if f(last) { FilterSnoc(f, Filter(f, front), last); }
    }
  }

  /** Parts of a list the filter leaves alone are left alone too. */
  lemma FilteredParts<T>(f: T -> bool, a: seq<T>, b: seq<T>)
    requires Filter(f, a + b) == a + b
    ensures Filter(f, a) == a && Filter(f, b) == b
  {
    FilterConcat(f, a, b);
    FilterMembers(f, a);
    FilterMembers(f, b);
    assert Filter(f, a) == (a + b)[..|a|] == a;
    assert Filter(f, b) == (a + b)[|a|..] == b;
  }

  lemma {:induction false} FilterNothing<T>(f: T -> bool, s: seq<T>)
    requires forall x :: x in s ==> !f(x)
    ensures Filter(f, s) == []
  {
    if s != [] {
      FilterNothing(f, s[..|s| - 1]);
      assert s[|s| - 1] in s;
    }
  }

  lemma {:induction false} FilterSame<T>(f: T -> bool, g: T -> bool, s: seq<T>)
    requires forall x :: x in s ==> f(x) == g(x)
    ensures Filter(f, s) == Filter(g, s)
  {
    if s != [] {
      var front, last := s[..|s| - 1], s[|s| - 1];
      assert last in s && forall x :: x in front ==> x in s;
      FilterSame(f, g, front);
    }
  }

  lemma {:induction false} FilterAll<T>(f: T -> bool, s: seq<T>)
    requires forall x :: x in s ==> f(x)
    ensures Filter(f, s) == s
  {
    if s != [] {
      var front, last := s[..|s| - 1], s[|s| - 1];
      assert last in s && forall x :: x in front ==> x in s;
      FilterAll(f, front);
    }
  }

  /** Filtering by a stronger test ignores an earlier filtering by a weaker one. */
  lemma {:induction false} FilterFilter<T>(f: T -> bool, g: T -> bool, s: seq<T>)
    requires forall x :: x in s && f(x) ==> g(x)
    ensures Filter(f, Filter(g, s)) == Filter(f, s)
  {
    if s != [] {
      var front, last := s[..|s| - 1], s[|s| - 1];
      assert last in s && forall x :: x in front ==> x in s;
      FilterFilter(f, g, front);
      if g(last) { FilterSnoc(f, Filter(g, front), last); }
    }
  }

  /** Filtering twice by two tests is filtering by both at once. */
  lemma {:induction false} FilterBoth<T>(f: T -> bool, g: T -> bool, both: T -> bool, s: seq<T>)
    requires forall x :: x in s ==> both(x) == (f(x) && g(x))
    ensures Filter(f, Filter(g, s)) == Filter(both, s)
  {
    if s != [] {
      var front, last := s[..|s| - 1], s[|s| - 1];
      assert last in s && forall x :: x in front ==> x in s;
      FilterBoth(f, g, both, front);
      if g(last) { FilterSnoc(f, Filter(g, front), last); }
    }
  }

  // ---- The first of its kind ----

  /** An element of f comes before every element of g. */
  ghost predicate First<T>(f: T -> bool, g: T -> bool, s: seq<T>) {
    exists i :: 0 <= i < |s| && f(s[i]) && NoneBefore(g, s, i)
  }

  ghost predicate NoneBefore<T>(g: T -> bool, s: seq<T>, n: nat) {
    forall j :: 0 <= j < n && j < |s| ==> !g(s[j])
  }

  lemma NoneBeforeCons<T>(g: T -> bool, x: T, s: seq<T>, n: nat)
    ensures NoneBefore(g, [x] + s, n + 1) <==> !g(x) && NoneBefore(g, s, n)
  {
    var all := [x] + s;
    assert forall j :: 0 <= j < |s| ==> all[j + 1] == s[j];
    if NoneBefore(g, all, n + 1) {
      assert !g(all[0]);
      forall j | 0 <= j < n && j < |s| ensures !g(s[j]) {
        assert all[j + 1] == s[j];
      }
    }
  }

  lemma FirstCons<T>(f: T -> bool, g: T -> bool, x: T, s: seq<T>)
    ensures First(f, g, [x] + s) <==> f(x) || (First(f, g, s) && !g(x))
  {
    hide NoneBefore;
    var all := [x] + s;
    assert NoneBefore(g, all, 0) by { NothingBefore(g, all); }
    if f(x) { assert all[0] == x; }
    if First(f, g, s) && !g(x) {
      var i :| 0 <= i < |s| && f(s[i]) && NoneBefore(g, s, i);
      NoneBeforeCons(g, x, s, i);
      assert all[i + 1] == s[i];
    }
    if First(f, g, all) && !f(x) {
      var i :| 0 <= i < |all| && f(all[i]) && NoneBefore(g, all, i);
      NoneBeforeCons(g, x, s, i - 1);
      assert all[i] == s[i - 1];
    }
  }

  lemma NothingBefore<T>(g: T -> bool, s: seq<T>)
    ensures NoneBefore(g, s, 0)
  {
  }

  // ---- Collecting results ----

  /** The results of f on the elements where it has one, in order. */
  function Collect<T, R>(f: T -> Option<R>, s: seq<T>): seq<R> {
    if s == [] then []
    else
      var front, r := Collect(f, s[..|s| - 1]), f(s[|s| - 1]);
      if r.None? then front else front + [r.value]
  }

  lemma CollectSnoc<T, R>(f: T -> Option<R>, s: seq<T>, x: T)
    ensures Collect(f, s + [x]) == if f(x).None? then Collect(f, s) else Collect(f, s) + [f(x).value]
  {
    assert (s + [x])[..|s|] == s;
  }

  lemma {:induction false} CollectMembers<T, R>(f: T -> Option<R>, s: seq<T>, y: R)
    ensures y in Collect(f, s) <==> exists x :: x in s && f(x) == Some(y)
  {
    if s != [] {
      var front, last := s[..|s| - 1], s[|s| - 1];
      CollectMembers(f, front, y);
      assert s == front + [last];
    }
  }

  lemma {:induction false} CollectConcat<T, R>(f: T -> Option<R>, a: seq<T>, b: seq<T>)
    ensures Collect(f, a + b) == Collect(f, a) + Collect(f, b)
  {
    if b == [] {
      assert a + b == a;
    } else {
      var front, last := b[..|b| - 1], b[|b| - 1];
      CollectConcat(f, a, front);
      assert a + b == (a + front) + [last];
      CollectSnoc(f, a + front, last);
    }
  }

  // ---- Dropping from the ends ----

  function DropFront<T>(f: T -> bool, s: seq<T>): seq<T> {
    if s != [] && f(s[0]) then DropFront(f, s[1..]) else s
  }

  function DropBack<T>(f: T -> bool, s: seq<T>): seq<T> {
    if s != [] && f(s[|s| - 1]) then DropBack(f, s[..|s| - 1]) else s
  }

  /** s without the elements of f at both ends. */
  function Trim<T>(f: T -> bool, s: seq<T>): seq<T> {
    DropBack(f, DropFront(f, s))
  }

  /** Neither end satisfies f. */
  predicate Tight<T>(f: T -> bool, s: seq<T>) {
    s == [] || (!f(s[0]) && !f(s[|s| - 1]))
  }

  lemma {:induction false} FrontDropped<T>(f: T -> bool, s: seq<T>) returns (n: nat)
    ensures n <= |s| && DropFront(f, s) == s[n..]
    ensures n < |s| ==> !f(s[n])
    ensures forall x :: x in s[..n] ==> f(x)
  {
    if s != [] && f(s[0]) {
      var m := FrontDropped(f, s[1..]);
      n := m + 1;
      assert s[..n] == [s[0]] + s[1..][..m];
    } else {
      n := 0;
    }
  }

  lemma {:induction false} BackDropped<T>(f: T -> bool, s: seq<T>) returns (n: nat)
    ensures n <= |s| && DropBack(f, s) == s[..n]
    ensures n > 0 ==> !f(s[n - 1])
    ensures forall x :: x in s[n..] ==> f(x)
  {
    if s != [] && f(s[|s| - 1]) {
      var front := s[..|s| - 1];
      n := BackDropped(f, front);
      assert s[n..] == front[n..] + [s[|s| - 1]];
    } else {
      n := |s|;
    }
  }

  /** Trimming takes a stretch out of the middle, with both ends tight, and drops nothing but elements of f. */
  lemma Trimming<T>(f: T -> bool, s: seq<T>) returns (a: seq<T>, b: seq<T>)
    ensures s == a + Trim(f, s) + b && Tight(f, Trim(f, s))
    ensures forall x :: x in a || x in b ==> f(x)
  {
    var n := FrontDropped(f, s);
    var t := s[n..];
    var m := BackDropped(f, t);
    a, b := s[..n], t[m..];
  }

  lemma TightIsTrimmed<T>(f: T -> bool, s: seq<T>, x: T)
    requires Tight(f, s) && f(x)
    ensures Trim(f, [x] + s + [x]) == s
  {
    var all := [x] + s + [x];
    assert all[1..] == s + [x];
    assert DropFront(f, all) == DropFront(f, s + [x]);
    if s == [] {
      assert s + [x] == [x] && [x][1..] == [];
      assert DropFront(f, [x]) == DropFront(f, []) == [];
    } else {
      assert (s + [x])[..|s|] == s;
      assert DropFront(f, s + [x]) == s + [x];
      assert DropBack(f, s + [x]) == DropBack(f, s);
    }
  }
}

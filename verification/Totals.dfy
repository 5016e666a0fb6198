/** Sums of integers over finite sets. */
module Totals {

  ghost function Total<K>(s: set<K>, f: K -> int): int {
    if s == {} then 0
    else
      var x :| x in s;
      f(x) + Total(s - {x}, f)
  }

  /** Any element may be taken out first. */
  lemma {:induction false} TotalRemove<K>(s: set<K>, x: K, f: K -> int)
    requires x in s
    ensures Total(s, f) == f(x) + Total(s - {x}, f)
    decreases s
  {
    var y :| y in s && Total(s, f) == f(y) + Total(s - {y}, f);
    if y != x {
      TotalRemove(s - {y}, x, f);
      TotalRemove(s - {x}, y, f);
      assert s - {y} - {x} == s - {x} - {y};
    }
  }

  lemma {:induction false} TotalSame<K>(s: set<K>, f: K -> int, g: K -> int)
    requires forall x :: x in s ==> f(x) == g(x)
    ensures Total(s, f) == Total(s, g)
    decreases s
  {
    if s != {} {
      var x :| x in s;
      TotalSame(s - {x}, f, g);
      TotalRemove(s, x, f);
      TotalRemove(s, x, g);
    }
  }

  /** Changing one summand, which is 0 while its key is absent, changes the total by as much. */
  lemma TotalPut<K>(s: set<K>, f: K -> int, g: K -> int, x: K)
    requires x !in s ==> f(x) == 0
    requires forall y :: y in s && y != x ==> g(y) == f(y)
    ensures Total(s + {x}, g) == Total(s, f) + g(x) - f(x)
  {
    TotalRemove(s + {x}, x, g);
    assert s + {x} - {x} == s - {x};
    TotalSame(s - {x}, f, g);
    if x in s {
      TotalRemove(s, x, f);
    } else {
      assert s - {x} == s;
    }
  }

  /** The sum of f over the values of a map. */
  ghost function MapTotal<K(!new), V>(m: map<K, V>, f: V -> int): int {
    Total(m.Keys, ValueIn(m, f))
  }

  function ValueIn<K(!new), V>(m: map<K, V>, f: V -> int): K -> int {
    (k: K) => if k in m then f(m[k]) else 0
  }

  lemma MapTotalPut<K(!new), V>(m: map<K, V>, f: V -> int, k: K, v: V)
    ensures MapTotal(m[k := v], f) == MapTotal(m, f) + f(v) - ValueIn(m, f)(k)
  {
    TotalPut(m.Keys, ValueIn(m, f), ValueIn(m[k := v], f), k);
    assert m[k := v].Keys == m.Keys + {k};
  }
}

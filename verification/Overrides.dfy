/** The per-IP override list: ordering, lookup, upsert, sort, and the map it stands for. */
module Overrides {

  /** One per-IP rule; rate "" means no bandwidth override. */
  datatype Override = Override(ip: string, rate: string, exempt: bool)
  {
    predicate HasRate() {
      rate != ""
    }

    /** The rule says something, so it leaves a trace in the file. */
    predicate Carries() {
      rate != "" || exempt
    }

    function AsRule(): Rule {
      Rule(rate, exempt)
    }
  }

  datatype Rule = Rule(rate: string, exempt: bool)

  // ---- String order ----

  /** Go's < on strings. */
  predicate Less(a: string, b: string) {
    b != "" && (a == "" || a[0] < b[0] || (a[0] == b[0] && Less(a[1..], b[1..])))
  }

  lemma {:induction false} LessIrreflexive(a: string)
    ensures !Less(a, a)
  {
    if a != "" { LessIrreflexive(a[1..]); }
  }

  lemma {:induction false} LessTransitive(a: string, b: string, c: string)
    requires Less(a, b) && Less(b, c)
    ensures Less(a, c)
  {
    if a != "" && a[0] == b[0] == c[0] { LessTransitive(a[1..], b[1..], c[1..]); }
  }

  lemma {:induction false} LessTotal(a: string, b: string)
    ensures Less(a, b) || a == b || Less(b, a)
  {
    if a != "" && b != "" && a[0] == b[0] {
      LessTotal(a[1..], b[1..]);
      assert a == [a[0]] + a[1..] && b == [b[0]] + b[1..];
    }
  }

  lemma LessAsymmetric(a: string, b: string)
    requires Less(a, b)
    ensures !Less(b, a)
  {
    if Less(b, a) {
      LessTransitive(a, b, a);
      LessIrreflexive(a);
    }
  }

  /** a ends in front of the position, or has the smaller character there. */
  predicate DiffersAt(a: string, b: string, n: int) {
    0 <= n <= |a| && n < |b| && a[..n] == b[..n] && (n == |a| || a[n] < b[n])
  }

  lemma SameHead(a: string, b: string, n: int)
    ensures DiffersAt(a, b, n) && n > 0 ==> a[0] == b[0]
  {
    if DiffersAt(a, b, n) && n > 0 { assert a[..n][0] == b[..n][0]; }
  }

  /** The order is decided by the first position at which the texts differ. */
  lemma {:induction false} LessIff(a: string, b: string)
    ensures Less(a, b) <==> exists n :: DiffersAt(a, b, n)
  {
    if a == "" || b == "" || a[0] != b[0] {
      if Less(a, b) { assert DiffersAt(a, b, 0); }
      forall n ensures DiffersAt(a, b, n) ==> n == 0 {
        SameHead(a, b, n);
      }
    } else {
      LessIff(a[1..], b[1..]);
      if n :| DiffersAt(a[1..], b[1..], n) {
        assert a[..n + 1] == [a[0]] + a[1..][..n] && b[..n + 1] == [b[0]] + b[1..][..n];
        assert DiffersAt(a, b, n + 1);
      }
      if n :| DiffersAt(a, b, n) {
        assert a[1..][..n - 1] == a[..n][1..] && b[1..][..n - 1] == b[..n][1..];
        assert DiffersAt(a[1..], b[1..], n - 1);
      }
    }
  }

  // ---- Lookup ----

  predicate Unique(os: seq<Override>) {
    forall i, j :: 0 <= i < j < |os| ==> os[i].ip != os[j].ip
  }

  /** Strictly increasing addresses. */
  predicate Sorted(os: seq<Override>) {
    forall i, j :: 0 <= i < j < |os| ==> Less(os[i].ip, os[j].ip)
  }

  lemma SortedIsUnique(os: seq<Override>)
    requires Sorted(os)
    ensures Unique(os)
  {
    forall i, j | 0 <= i < j < |os| ensures os[i].ip != os[j].ip {
      LessIrreflexive(os[i].ip);
    }
  }

  /** Position of the first rule for ip, or the length of the list. */
  function Find(os: seq<Override>, ip: string): (n: nat)
    ensures n <= |os|
    ensures forall i :: 0 <= i < n ==> os[i].ip != ip
    ensures n < |os| ==> os[n].ip == ip
  {
    if os == [] || os[0].ip == ip then 0 else 1 + Find(os[1..], ip)
  }

  /** The map a list stands for: the first rule of each address. */
  function ToMap(os: seq<Override>): (m: map<string, Rule>)
    ensures forall ip :: ip in m <==> Find(os, ip) < |os|
    ensures forall ip :: ip in m ==> m[ip] == os[Find(os, ip)].AsRule()
  {
    if os == [] then map[] else ToMap(os[1..])[os[0].ip := os[0].AsRule()]
  }

  lemma FindOfUnique(os: seq<Override>, o: Override)
    requires Unique(os)
    ensures o in os <==> Find(os, o.ip) < |os| && os[Find(os, o.ip)] == o
  {
    if o in os {
      var i :| 0 <= i < |os| && os[i] == o;
      assert forall j :: 0 <= j < i ==> os[j].ip != os[i].ip;
    }
  }

  /** On a list without duplicates the map holds exactly its members. */
  lemma MapOfUnique(os: seq<Override>, ip: string, rule: Rule)
    requires Unique(os)
    ensures Maps(ToMap(os), ip, rule) <==> Override(ip, rule.rate, rule.exempt) in os
  {
    FindOfUnique(os, Override(ip, rule.rate, rule.exempt));
  }

  lemma HeadIsMember(a: seq<Override>)
    ensures a == [] || exists o :: o in a
  {
    if a != [] { assert a[0] in a; }
  }

  /** Two strictly sorted lists with the same members are the same list. */
  lemma {:induction false} SortedIsCanonical(a: seq<Override>, b: seq<Override>)
    requires Sorted(a) && Sorted(b)
    requires forall o :: o in a <==> o in b
    ensures a == b
  {
    if a == [] || b == [] {
      HeadIsMember(a);
      HeadIsMember(b);
    } else {
      assert a[0] in b;
      var k :| 0 <= k < |b| && b[k] == a[0];
      assert b[0] in a;
      var j :| 0 <= j < |a| && a[j] == b[0];
      if 0 < k && 0 < j {
        LessAsymmetric(a[0].ip, a[j].ip);
      }
      assert a[0] == b[0];
      forall o ensures o in a[1..] <==> o in b[1..] {
        LessIrreflexive(a[0].ip);
        if o in a[1..] { assert o in a && o in b; }
        if o in b[1..] { assert o in b && o in a; }
      }
      SortedIsCanonical(a[1..], b[1..]);
    }
  }

  lemma SameMapSameList(a: seq<Override>, b: seq<Override>)
    requires Sorted(a) && Sorted(b) && ToMap(a) == ToMap(b)
    ensures a == b
  {
    SortedIsUnique(a);
    SortedIsUnique(b);
    forall o: Override ensures o in a <==> o in b {
      MapOfUnique(a, o.ip, o.AsRule());
      MapOfUnique(b, o.ip, o.AsRule());
    }
    SortedIsCanonical(a, b);
  }

  // ---- Updates ----

  /** Replace the rule for o's address, or append it. */
  function Put(os: seq<Override>, o: Override): seq<Override> {
    var n := Find(os, o.ip);
    if n < |os| then os[n := o] else os + [o]
  }

  function ExemptOf(os: seq<Override>, ip: string): bool {
    ip in ToMap(os) && ToMap(os)[ip].exempt
  }

  function RateOf(os: seq<Override>, ip: string): string {
    if ip in ToMap(os) then ToMap(os)[ip].rate else ""
  }

  /** The bandwidth side changes, the exempt flag stays. */
  function UpsertRate(os: seq<Override>, ip: string, rate: string): seq<Override> {
    Put(os, Override(ip, rate, ExemptOf(os, ip)))
  }

  /** The exempt flag changes, the bandwidth side stays. */
  function UpsertExempt(os: seq<Override>, ip: string, exempt: bool): seq<Override> {
    Put(os, Override(ip, RateOf(os, ip), exempt))
  }

  /** The rules for every other address, in order. */
  function Without(os: seq<Override>, ip: string): seq<Override> {
    if os == [] then []
    else
      var front, last := os[..|os| - 1], os[|os| - 1];
      if last.ip == ip then Without(front, ip) else Without(front, ip) + [last]
  }

  /** The rules that leave a trace in the file, in order. */
  function Carrying(os: seq<Override>): seq<Override> {
    if os == [] then []
    else
      var front, last := os[..|os| - 1], os[|os| - 1];
      if last.Carries() then Carrying(front) + [last] else Carrying(front)
  }

  lemma PutUnique(os: seq<Override>, o: Override)
    requires Unique(os)
    ensures Unique(Put(os, o))
  {
    var r := Put(os, o);
    forall i, j | 0 <= i < j < |r| ensures r[i].ip != r[j].ip {
      if j < |os| { assert os[i].ip != os[j].ip; }
    }
  }

  lemma PutMembers(os: seq<Override>, o: Override, x: Override)
    requires Unique(os)
    ensures x in Put(os, o) <==> if x.ip == o.ip then x == o else x in os
  {
    var n := Find(os, o.ip);
    var r := Put(os, o);
    assert r[n] == o;
    if x.ip == o.ip {
      PutUnique(os, o);
    } else if x in os {
      var i :| 0 <= i < |os| && os[i] == x;
      assert r[i] == x;
    }
  }

  /** An update touches the entry of its own address only. */
  lemma PutIsMapUpdate(os: seq<Override>, o: Override)
    requires Unique(os)
    ensures Unique(Put(os, o))
    ensures ToMap(Put(os, o)) == ToMap(os)[o.ip := o.AsRule()]
  {
    var r := Put(os, o);
    PutUnique(os, o);
    forall ip, rule ensures Maps(ToMap(r), ip, rule) <==> Maps(ToMap(os)[o.ip := o.AsRule()], ip, rule) {
      MapOfUnique(r, ip, rule);
      MapOfUnique(os, ip, rule);
      PutMembers(os, o, Override(ip, rule.rate, rule.exempt));
    }
    SameEntries(ToMap(r), ToMap(os)[o.ip := o.AsRule()]);
  }

  predicate Maps<K, V(==)>(m: map<K, V>, k: K, v: V) {
    k in m && m[k] == v
  }

  lemma SameEntries<K, V>(a: map<K, V>, b: map<K, V>)
    requires forall k, v :: Maps(a, k, v) <==> Maps(b, k, v)
    ensures a == b
  {
    forall k ensures k in a <==> k in b {
      if k in a { assert Maps(a, k, a[k]); }
      if k in b { assert Maps(b, k, b[k]); }
    }
    forall k | k in a ensures a[k] == b[k] {
      assert Maps(a, k, a[k]);
    }
  }

  lemma {:induction false} WithoutMembers(os: seq<Override>, ip: string)
    ensures forall o :: o in Without(os, ip) <==> o in os && o.ip != ip
  {
    if os != [] {
      WithoutMembers(os[..|os| - 1], ip);
      assert os == os[..|os| - 1] + [os[|os| - 1]];
    }
  }

  lemma {:induction false} CarryingMembers(os: seq<Override>)
    ensures forall o :: o in Carrying(os) <==> o in os && o.Carries()
  {
    if os != [] {
      CarryingMembers(os[..|os| - 1]);
      assert os == os[..|os| - 1] + [os[|os| - 1]];
    }
  }

  lemma AppendSorted(front: seq<Override>, o: Override)
    requires Sorted(front) && forall x :: x in front ==> Less(x.ip, o.ip)
    ensures Sorted(front + [o])
  {
    var r := front + [o];
    forall i, j | 0 <= i < j < |r| ensures Less(r[i].ip, r[j].ip) {
      if j == |front| { assert r[i] in front; }
    }
  }

  lemma {:induction false} WithoutSorted(os: seq<Override>, ip: string)
    requires Sorted(os)
    ensures Sorted(Without(os, ip))
  {
    if os != [] {
      var front, last := os[..|os| - 1], os[|os| - 1];
      WithoutSorted(front, ip);
      WithoutMembers(front, ip);
      if last.ip != ip { AppendSorted(Without(front, ip), last); }
    }
  }

  lemma {:induction false} CarryingSorted(os: seq<Override>)
    requires Sorted(os)
    ensures Sorted(Carrying(os))
  {
    if os != [] {
      var front, last := os[..|os| - 1], os[|os| - 1];
      CarryingSorted(front);
      CarryingMembers(front);
      if last.Carries() { AppendSorted(Carrying(front), last); }
    }
  }

  lemma RemovalMaps(os: seq<Override>, r: seq<Override>, ip: string, k: string, rule: Rule)
    requires Unique(os) && Unique(r)
    requires Override(k, rule.rate, rule.exempt) in r <==> Override(k, rule.rate, rule.exempt) in os && k != ip
    ensures Maps(ToMap(r), k, rule) <==> Maps(ToMap(os) - {ip}, k, rule)
  {
    MapOfUnique(r, k, rule);
    MapOfUnique(os, k, rule);
    MapsWithout(ToMap(os), ip, k, rule);
  }

  lemma MapsWithout(m: map<string, Rule>, ip: string, k: string, rule: Rule)
    ensures Maps(m - {ip}, k, rule) <==> k != ip && Maps(m, k, rule)
  {
  }

  /** Clearing an address removes its entry from the map and nothing else. */
  lemma WithoutIsMapRemoval(os: seq<Override>, ip: string)
    requires Sorted(os)
    ensures Sorted(Without(os, ip))
    ensures ToMap(Without(os, ip)) == ToMap(os) - {ip}
  {
    var r := Without(os, ip);
    WithoutSorted(os, ip);
    WithoutMembers(os, ip);
    SortedIsUnique(os);
    SortedIsUnique(r);
    forall k, rule ensures Maps(ToMap(r), k, rule) <==> Maps(ToMap(os) - {ip}, k, rule) {
      RemovalMaps(os, r, ip, k, rule);
    }
    SameEntries(ToMap(r), ToMap(os) - {ip});
  }

  // ---- Sorting ----

  function Insert(o: Override, os: seq<Override>): seq<Override> {
    if os == [] || !Less(os[0].ip, o.ip) then [o] + os
    else [os[0]] + Insert(o, os[1..])
  }

  /** The list in address order. */
  function SortByIP(os: seq<Override>): seq<Override> {
    if os == [] then [] else Insert(os[|os| - 1], SortByIP(os[..|os| - 1]))
  }

  lemma {:induction false} InsertMembers(o: Override, os: seq<Override>)
    ensures multiset(Insert(o, os)) == multiset(os) + multiset{o}
  {
    if os == [] || !Less(os[0].ip, o.ip) {
    } else {
      InsertMembers(o, os[1..]);
      assert os == [os[0]] + os[1..];
    }
  }

  lemma {:induction false} InsertSorted(o: Override, os: seq<Override>)
    requires Sorted(os) && forall x :: x in os ==> x.ip != o.ip
    ensures Sorted(Insert(o, os))
  {
    if os == [] {
    } else if !Less(os[0].ip, o.ip) {
      LessTotal(os[0].ip, o.ip);
      assert os[0] in os;
      forall j | 0 <= j < |os| ensures Less(o.ip, os[j].ip) {
        if j > 0 { LessTransitive(o.ip, os[0].ip, os[j].ip); }
      }
    } else {
      assert os[0] in os && forall x :: x in os[1..] ==> x in os;
      InsertSorted(o, os[1..]);
      InsertMembers(o, os[1..]);
      var r := Insert(o, os[1..]);
      forall x | x in r ensures Less(os[0].ip, x.ip) {
        assert x in multiset(r);
        assert x == o || x in os[1..];
      }
    }
  }

  lemma {:induction false} SortMembers(os: seq<Override>)
    ensures multiset(SortByIP(os)) == multiset(os)
  {
    if os != [] {
      SortMembers(os[..|os| - 1]);
      InsertMembers(os[|os| - 1], SortByIP(os[..|os| - 1]));
      assert os == os[..|os| - 1] + [os[|os| - 1]];
      hide Insert;
    }
  }

  lemma MemberOfPermutation(a: seq<Override>, b: seq<Override>, o: Override)
    requires multiset(a) == multiset(b)
    ensures o in a <==> o in b
  {
    assert o in a <==> o in multiset(a);
    assert o in b <==> o in multiset(b);
  }

  lemma {:induction false} SortSorts(os: seq<Override>)
    requires Unique(os)
    ensures Sorted(SortByIP(os))
  {
    if os != [] {
      var front, last := os[..|os| - 1], os[|os| - 1];
      SortSorts(front);
      SortMembers(front);
      forall x | x in SortByIP(front) ensures x.ip != last.ip {
        MemberOfPermutation(SortByIP(front), front, x);
      }
      InsertSorted(last, SortByIP(front));
    }
  }

  /** Sorting does not change the map. */
  lemma SortKeepsMap(os: seq<Override>)
    requires Unique(os)
    ensures Sorted(SortByIP(os)) && ToMap(SortByIP(os)) == ToMap(os)
  {
    var r := SortByIP(os);
    SortSorts(os);
    SortMembers(os);
    SortedIsUnique(r);
    forall k, rule ensures Maps(ToMap(r), k, rule) <==> Maps(ToMap(os), k, rule) {
      MapOfUnique(r, k, rule);
      MapOfUnique(os, k, rule);
      MemberOfPermutation(r, os, Override(k, rule.rate, rule.exempt));
    }
    SameEntries(ToMap(r), ToMap(os));
  }

  /**
   * The sort the program calls is not stable, but on a list without duplicate addresses
   * every permutation in address order is this one.
   */
  lemma AnySortAgrees(os: seq<Override>, r: seq<Override>)
    requires Unique(os) && multiset(r) == multiset(os)
    requires forall i, j :: 0 <= i < j < |r| ==> !Less(r[j].ip, r[i].ip)
    ensures r == SortByIP(os)
  {
    SortSorts(os);
    SortMembers(os);
    PermutationIsUnique(os, r);
    assert Sorted(r) by {
      forall i, j | 0 <= i < j < |r| ensures Less(r[i].ip, r[j].ip) {
        LessTotal(r[i].ip, r[j].ip);
      }
    }
    forall o: Override ensures o in r <==> o in SortByIP(os) {
      MemberOfPermutation(r, os, o);
      MemberOfPermutation(SortByIP(os), os, o);
    }
    SortedIsCanonical(r, SortByIP(os));
  }

  lemma PermutationIsUnique(os: seq<Override>, r: seq<Override>)
    requires Unique(os) && multiset(r) == multiset(os)
    ensures Unique(r)
  {
    forall i, j | 0 <= i < j < |r| ensures r[i].ip != r[j].ip {
      MemberOfPermutation(r, os, r[i]);
      MemberOfPermutation(r, os, r[j]);
      if r[i].ip == r[j].ip {
        TwiceInMultiset(r, i, j);
        OnceInMultiset(os, r[i]);
      }
    }
  }

  lemma TwiceInMultiset(r: seq<Override>, i: nat, j: nat)
    requires i < j < |r|
    ensures r[i] == r[j] ==> multiset(r)[r[i]] >= 2
  {
    assert r == r[..j] + [r[j]] + r[j + 1..];
    assert r[i] in r[..j];
  }

  lemma {:induction false} OnceInMultiset(os: seq<Override>, o: Override)
    requires Unique(os)
    ensures multiset(os)[o] <= 1
  {
    if os != [] {
      OnceInMultiset(os[1..], o);
      assert os == [os[0]] + os[1..];
    }
  }
}

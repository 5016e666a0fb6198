/** Reading back the lines the printer writes. */
module PrintedLines {
  import opened Wrappers
  import opened Text
  import opened Patterns
  import opened Overrides
  import opened Lists
  import opened Document

  /** A rate that survives printing: one token without a closing brace. */
  predicate RateToken(s: string) {
    Token(s) && '}' !in s
  }

  /** A rule list the printer and the reader agree on. */
  predicate GoodRules(os: seq<Override>) {
    Sorted(os) && forall o :: o in os ==> GoodRule(o)
  }

  predicate GoodRule(o: Override) {
    EntryIP(o.ip) && (o.rate == "" || RateToken(o.rate))
  }

  // ---- One line ----

  lemma EntryTextShape(ip: string, value: string)
    requires EntryIP(ip)
    ensures var m := EntryText(ip, value);
            |m| > |ip| + 1 && m[..|ip|] == ip && m[|ip|] == ' ' && m[|m| - 1] == ';' && Trimmed(m)
  {
    var rest := Gap(ip) + (value + ";");
    assert rest[0] == ' ' && rest[|rest| - 1] == ';';
    assert Is(IPChar, ip[0]);
  }

  lemma EntryTextIsTrimmed(ip: string, value: string)
    requires EntryIP(ip)
    ensures TrimSpace(EntryLine(ip, value)) == EntryText(ip, value)
  {
    hide TrimSpace, EntryText;
    var m := EntryText(ip, value);
    EntryTextShape(ip, value);
    TrimSpaceIs("    ", m, "");
    assert "    " + m + "" == "    " + m;
  }

  lemma NotDefault(ip: string, m: string)
    requires EntryIP(ip) && |m| > |ip| && m[..|ip|] == ip && m[|ip|] == ' '
    ensures !("default" <= m) && !("#" <= m)
  {
    assert Is(IPChar, m[0]);
    if "default" <= m {
      assert m[4] == m[..7][4] == 'u';
      assert forall i :: 0 <= i < 7 ==> m[i] == "default"[i];
      assert forall i :: 0 <= i < |ip| ==> m[i] == ip[i];
    }
  }

  lemma EntryLineIsNotKept(ip: string, value: string)
    requires EntryIP(ip)
    ensures !IsKept(EntryLine(ip, value))
  {
    EntryTextShape(ip, value);
    EntryTextIsTrimmed(ip, value);
    NotDefault(ip, EntryText(ip, value));
  }

  /** A printed entry is read back exactly. */
  lemma EntryLineIsRead(ip: string, value: string)
    requires EntryIP(ip) && Token(value)
    ensures EntryOf(EntryLine(ip, value)) == Some((ip, value))
  {
    EntryLineIsNotKept(ip, value);
    EntryTextIsTrimmed(ip, value);
    assert All(ReSpace, Gap(ip));
    EntryIsRead(ip, Gap(ip), value);
  }

  /**
   * The validator accepts more addresses than the reader knows: a printed address is read back
   * if and only if it uses only the characters of the entry pattern.
   */
  lemma EntryLineIsReadIff(ip: string, value: string)
    requires Token(value)
    ensures EntryOf(EntryLine(ip, value)) == Some((ip, value)) <==> EntryIP(ip)
  {
    if EntryIP(ip) {
      EntryLineIsRead(ip, value);
    } else if EntryOf(EntryLine(ip, value)).Some? {
      EntryFound(TrimSpace(EntryLine(ip, value)));
    }
  }

  // ---- All lines ----

  function RateEntries(os: seq<Override>): seq<(string, string)> {
    if os == [] then []
    else
      var front, last := os[..|os| - 1], os[|os| - 1];
      if last.HasRate() then RateEntries(front) + [(last.ip, last.rate)] else RateEntries(front)
  }

  function ExemptEntries(os: seq<Override>): seq<(string, string)> {
    if os == [] then []
    else
      var front, last := os[..|os| - 1], os[|os| - 1];
      if last.exempt then ExemptEntries(front) + [(last.ip, "0")] else ExemptEntries(front)
  }

  lemma EntriesSnoc(ls: seq<string>, line: string, e: Option<(string, string)>)
    requires EntryOf(line) == e
    ensures Entries(ls + [line]) == if e.None? then Entries(ls) else Entries(ls) + [e.value]
  {
    CollectSnoc(EntryOf, ls, line);
  }

  lemma EntriesConcat(a: seq<string>, b: seq<string>)
    ensures Entries(a + b) == Entries(a) + Entries(b)
  {
    CollectConcat(EntryOf, a, b);
  }

  lemma AppendLine(ls: seq<string>, ip: string, value: string)
    requires EntryIP(ip) && Token(value)
    ensures Entries(ls + [EntryLine(ip, value)]) == Entries(ls) + [(ip, value)]
  {
    EntryLineIsRead(ip, value);
    EntriesSnoc(ls, EntryLine(ip, value), Some((ip, value)));
  }

  lemma {:induction false} RateLinesAreRead(os: seq<Override>)
    requires forall o :: o in os ==> GoodRule(o)
    ensures Entries(RateLines(os)) == RateEntries(os)
  {
    hide EntryOf, EntryLine;
    if os != [] {
      var front, last := os[..|os| - 1], os[|os| - 1];
      assert last in os && forall o :: o in front ==> o in os;
      RateLinesAreRead(front);
      if last.HasRate() { AppendLine(RateLines(front), last.ip, last.rate); }
    }
  }

  lemma {:induction false} ExemptLinesAreRead(os: seq<Override>)
    requires forall o :: o in os ==> EntryIP(o.ip)
    ensures Entries(ExemptLines(os)) == ExemptEntries(os)
  {
    hide EntryOf, EntryLine;
    if os != [] {
      var front, last := os[..|os| - 1], os[|os| - 1];
      assert last in os && forall o :: o in front ==> o in os;
      ExemptLinesAreRead(front);
      if last.exempt { AppendLine(ExemptLines(front), last.ip, "0"); }
    }
  }

  // ---- What the entries stand for ----

  /** The rules with a rate, without their exempt flags. */
  function RatesOnly(os: seq<Override>): seq<Override> {
    if os == [] then []
    else
      var front, last := os[..|os| - 1], os[|os| - 1];
      if last.HasRate() then RatesOnly(front) + [last.(exempt := false)] else RatesOnly(front)
  }

  lemma {:induction false} RatesOnlyMembers(os: seq<Override>, x: Override)
    ensures x in RatesOnly(os) <==> x.HasRate() && !x.exempt && exists o :: o in os && x == o.(exempt := false)
  {
    if os != [] {
      var front, last := os[..|os| - 1], os[|os| - 1];
      RatesOnlyMembers(front, x);
      assert os == front + [last];
    }
  }

  lemma {:induction false} RatesOnlyUnique(os: seq<Override>)
    requires Unique(os)
    ensures Unique(RatesOnly(os))
    ensures forall x :: x in RatesOnly(os) ==> exists o :: o in os && x.ip == o.ip
  {
    if os != [] {
      var front, last := os[..|os| - 1], os[|os| - 1];
      RatesOnlyUnique(front);
      var r := RatesOnly(front);
      forall i | 0 <= i < |r| ensures r[i].ip != last.ip {
        assert r[i] in r;
      }
    }
  }

  lemma FreshPutAppends(os: seq<Override>, o: Override)
    requires forall x :: x in os ==> x.ip != o.ip
    ensures Put(os, o) == os + [o] && ExemptOf(os, o.ip) == false && RateOf(os, o.ip) == ""
  {
    assert forall i :: 0 <= i < |os| ==> os[i] in os;
  }

  /** The printed rates stand for the rated rules, in order. */
  lemma {:induction false} RatesAreRead(os: seq<Override>)
    requires Unique(os)
    ensures RatesFrom(RateEntries(os)) == RatesOnly(os)
  {
    if os != [] {
      var front, last := os[..|os| - 1], os[|os| - 1];
      RatesAreRead(front);
      if last.HasRate() {
        RatesOnlyUnique(front);
        forall x | x in RatesOnly(front) ensures x.ip != last.ip {
          var o :| o in front && x.ip == o.ip;
        }
        FreshPutAppends(RatesOnly(front), last.(exempt := false));
      }
    }
  }

  // ---- All exempt entries ----

  /** x is what the reader knows of a rule of os once the exempt entries of some have been read. */
  predicate Known(os: seq<Override>, some: seq<Override>, x: Override) {
    x.Carries() && exists o :: o in os && x.ip == o.ip && x.rate == o.rate && (x.exempt <==> o.exempt && o in some)
  }

  /** The rules known after the exempt entries of some. */
  ghost predicate KnowsExactly(r: seq<Override>, os: seq<Override>, some: seq<Override>) {
    Unique(r) && forall x :: x in r <==> Known(os, some, x)
  }

  lemma KnownExempt(os: seq<Override>, front: seq<Override>, last: Override, r: seq<Override>)
    requires Unique(os) && last in os && last.exempt
    requires KnowsExactly(r, os, front)
    ensures KnowsExactly(UpsertExempt(r, last.ip, true), os, front + [last])
  {
    var o := Override(last.ip, RateOf(r, last.ip), true);
    OldRate(os, front, last, r);
    PutUnique(r, o);
    MemberByIP(os);
    forall x ensures x in Put(r, o) <==> Known(os, front + [last], x) {
      PutMembers(r, o, x);
    }
  }

  lemma KnownPlain(os: seq<Override>, front: seq<Override>, last: Override, r: seq<Override>)
    requires !last.exempt && KnowsExactly(r, os, front)
    ensures KnowsExactly(r, os, front + [last])
  {
    forall x ensures Known(os, front, x) <==> Known(os, front + [last], x) {
    }
  }

  lemma MemberByIP(os: seq<Override>)
    requires Unique(os)
    ensures forall a, b :: a in os && b in os && a.ip == b.ip ==> a == b
  {
  }

  lemma OldRate(os: seq<Override>, front: seq<Override>, last: Override, r: seq<Override>)
    requires Unique(os) && last in os
    requires KnowsExactly(r, os, front)
    ensures RateOf(r, last.ip) == last.rate
  {
    MemberByIP(os);
    var n := Find(r, last.ip);
    assert forall i :: 0 <= i < |r| ==> r[i] in r;
    var x := last.(exempt := last.exempt && last in front);
    assert Known(os, front, x) <==> x.Carries();
    if n < |r| {
    } else {
      assert x !in r;
    }
  }

  lemma NothingExemptYet(os: seq<Override>)
    requires Unique(os)
    ensures KnowsExactly(RatesOnly(os), os, [])
  {
    RatesOnlyUnique(os);
    forall x ensures x in RatesOnly(os) <==> Known(os, [], x) {
      RatesOnlyMembers(os, x);
    }
  }

  /** The exempt entries on top of the rates give back every rule that carries something. */
  lemma {:induction false} ExemptsAreRead(os: seq<Override>, n: nat)
    requires Unique(os) && n <= |os|
    ensures KnowsExactly(ExemptsFrom(ExemptEntries(os[..n]), RatesOnly(os)), os, os[..n])
  {
    if n == 0 {
      NothingExemptYet(os);
    } else {
      var front, last := os[..n - 1], os[n - 1];
      ExemptsAreRead(os, n - 1);
      assert os[..n][..n - 1] == front && os[..n] == front + [last];
      var r := ExemptsFrom(ExemptEntries(front), RatesOnly(os));
      if last.exempt { KnownExempt(os, front, last, r); } else { KnownPlain(os, front, last, r); }
    }
  }

  /** The printed entries, read and sorted, are exactly the rules that carry something, in order. */
  lemma RulesAreReadBack(os: seq<Override>)
    requires Sorted(os)
    ensures SortByIP(ExemptsFrom(ExemptEntries(os), RatesFrom(RateEntries(os)))) == Carrying(os)
  {
    SortedIsUnique(os);
    RatesAreRead(os);
    ExemptsAreRead(os, |os|);
    assert os[..|os|] == os;
    var r := ExemptsFrom(ExemptEntries(os), RatesOnly(os));
    SortSorts(r);
    SortMembers(r);
    CarryingSorted(os);
    CarryingMembers(os);
    MemberByIP(os);
    forall x ensures x in SortByIP(r) <==> x in Carrying(os) {
      MemberOfPermutation(SortByIP(r), r, x);
      assert x in r <==> Known(os, os, x);
    }
    SortedIsCanonical(SortByIP(r), Carrying(os));
  }
}

/** What holds of every document ParseDoc returns, whatever the file contains. */
module Parsed {
  import opened Wrappers
  import opened Text
  import opened Patterns
  import opened Overrides
  import opened Document
  import opened PrintedLines
  import opened Rewrite
  import opened RoundTrip

  // ---- Entries ----

  predicate GoodEntry(e: (string, string)) {
    EntryIP(e.0) && RateToken(e.1)
  }

  lemma TrimmedChars(s: string, c: char)
    requires c in TrimSpace(s)
    ensures c in s
  {
    var l := TrimLeft(s);
    TrimLeftFacts(s);
    TrimRightFacts(l);
    assert c in l;
    assert forall i :: 0 <= i < |l| ==> l[i] == s[|s| - |l| + i];
  }

  lemma {:induction false} EntriesAreGood(ls: seq<string>)
    requires forall l :: l in ls ==> '}' !in l
    ensures forall e :: e in Entries(ls) ==> GoodEntry(e)
  {
    if ls != [] {
      var front, last := ls[..|ls| - 1], ls[|ls| - 1];
      assert ls == front + [last];
      EntriesAreGood(front);
      EntriesSnoc(front, last, EntryOf(last));
      if EntryOf(last).Some? {
        EntryFound(TrimSpace(last));
        if '}' in EntryOf(last).value.1 { TrimmedChars(last, '}'); }
      }
    }
  }

  lemma BodyEntriesAreGood(body: string)
    requires '}' !in body
    ensures forall e :: e in Entries(Lines(body)) ==> GoodEntry(e)
  {
    LineCharsInText(body, '}');
    EntriesAreGood(Lines(body));
  }

  /** What is cut out between braces holds no closing brace. */
  lemma BracedBody(s: string, head: string)
    requires BracedAfter(s, head).Ok?
    ensures '}' !in BracedAfter(s, head).value
  {
    var t := s[Index(s, head)..];
    var open := Index(t, "{");
    assert t[open..][0] == t[open..open + 1][0] == '{';
    BeforeFirstBrace(t, open, Index(t[open..], "}"));
  }

  lemma BeforeFirstBrace(t: string, open: nat, close: nat)
    requires open < |t| && close == Index(t[open..], "}") && 0 < close
    ensures open + close <= |t| && '}' !in t[open + 1..open + close]
  {
    var u := t[open..];
    if i :| 0 < i < close && u[i] == '}' { assert At(u, i, "}"); }
    assert t[open + 1..open + close] == u[1..close];
  }

  // ---- Rules ----

  predicate AllGood(os: seq<Override>) {
    forall o :: o in os ==> GoodRule(o)
  }

  lemma PutKeepsGood(os: seq<Override>, o: Override)
    requires AllGood(os) && GoodRule(o)
    ensures AllGood(Put(os, o))
  {
    var r := Put(os, o);
    forall x | x in r ensures GoodRule(x) {
      var i :| 0 <= i < |r| && r[i] == x;
      assert x == o || x in os;
    }
  }

  lemma RateIsGood(os: seq<Override>, ip: string)
    requires AllGood(os)
    ensures RateOf(os, ip) == "" || RateToken(RateOf(os, ip))
  {
    var n := Find(os, ip);
    assert n < |os| ==> os[n] in os;
  }

  lemma {:induction false} RatesAreGood(es: seq<(string, string)>)
    requires forall e :: e in es ==> GoodEntry(e)
    ensures Unique(RatesFrom(es)) && AllGood(RatesFrom(es))
  {
    if es != [] {
      var front, last := es[..|es| - 1], es[|es| - 1];
      assert last in es && forall e :: e in front ==> e in es;
      RatesAreGood(front);
      var o := Override(last.0, last.1, ExemptOf(RatesFrom(front), last.0));
      PutUnique(RatesFrom(front), o);
      PutKeepsGood(RatesFrom(front), o);
    }
  }

  lemma {:induction false} ExemptsAreGood(es: seq<(string, string)>, os: seq<Override>)
    requires Unique(os) && AllGood(os) && forall e :: e in es ==> GoodEntry(e)
    ensures Unique(ExemptsFrom(es, os)) && AllGood(ExemptsFrom(es, os))
    ensures (forall o :: o in os ==> o.rate == "") ==> forall o :: o in ExemptsFrom(es, os) ==> o.rate == ""
  {
    if es != [] {
      var front, last := es[..|es| - 1], es[|es| - 1];
      assert last in es && forall e :: e in front ==> e in es;
      ExemptsAreGood(front, os);
      var r := ExemptsFrom(front, os);
      var o := Override(last.0, RateOf(r, last.0), true);
      RateIsGood(r, last.0);
      PutUnique(r, o);
      PutKeepsGood(r, o);
      UnratedPut(r, o);
    }
  }

  lemma UnratedPut(r: seq<Override>, o: Override)
    requires Unique(r) && o.rate == RateOf(r, o.ip)
    ensures (forall x :: x in r ==> x.rate == "") ==> forall x :: x in Put(r, o) ==> x.rate == ""
  {
    var n := Find(r, o.ip);
    assert n < |r| ==> r[n] in r;
    forall x ensures x in Put(r, o) ==> x == o || x in r {
      PutMembers(r, o, x);
    }
  }

  // ---- Documents ----

  lemma UserPartAgrees(s: Split, rates: seq<Override>, global: string)
    requires Unique(rates) && AllGood(rates)
    requires s.managed.None? ==> s.pre == "" && rates == [] && global == ""
    ensures FieldsAgree(ParseUser(s, rates, global))
  {
    hide FindGeo, ConnLimitOf, FirstRate, SortByIP, EntryIP, RateToken, Lines, Entries, ExemptsFrom;
    var merged, d := s.pre + s.post, ParseUser(s, rates, global);
    var os := rates;
    if FindGeo(merged).Some? {
      FindGeoFound(merged);
      var es := Entries(Lines(FindGeo(merged).value.body));
      BodyEntriesAreGood(FindGeo(merged).value.body);
      ExemptsAreGood(es, rates);
      os := ExemptsFrom(es, rates);
    }
    SortSorts(os);
    SortMembers(os);
    forall o | o in SortByIP(os) ensures GoodRule(o) && (s.managed.None? ==> o.rate == "") {
      MemberOfPermutation(SortByIP(os), os, o);
    }
    assert s.managed.None? ==> merged == s.post;
    assert d.Merged() == merged;
  }

  /**
   * Whatever the file contains, what is read from it is in order and consistent: addresses strictly
   * increasing, every address and rate of the characters the printer can write, the connection limit the
   * one the text states, and without a managed region no rates and the directive's own value.
   */
  lemma ParsedAgrees(content: string)
    requires ParseDoc(content).Ok?
    ensures FieldsAgree(ParseDoc(content).value)
  {
    hide FieldsAgree, SplitAt, ParseUser, BracedAfter, MapFallback, GoodRule;
    var s := SplitAtMarkers(content);
    SplitWithout(content);
    if s.managed.None? {
      UserPartAgrees(s, [], "");
    } else {
      var body := BracedAfter(s.managed.value, MANAGED_GEO).value;
      BracedBody(s.managed.value, MANAGED_GEO);
      BodyEntriesAreGood(body);
      RatesAreGood(Entries(Lines(body)));
      UserPartAgrees(s, RatesFrom(Entries(Lines(body))), MapFallback(s.managed.value));
    }
  }

  lemma SplitWithout(content: string)
    ensures SplitAtMarkers(content).managed.None? ==> SplitAtMarkers(content) == Split("", None, content)
  {
  }

  // ---- Where the text of a document comes from ----

  /** The file is put together from what is read around the markers, the markers, and the managed text. */
  lemma ContentIsSplit(content: string) returns (managed: string, newline: string)
    requires ParseDoc(content).Ok?
    ensures var d := ParseDoc(content).value;
            if d.hasManaged then
              && (newline == "" || newline == "\n")
              && content == d.preManaged + (BEGIN_MARKER + (managed + (END_MARKER + (newline + d.postManaged))))
            else d.preManaged == "" && d.postManaged == content
  {
    var s := SplitAtMarkers(content);
    managed, newline := "", "";
    if s.managed.Some? {
      MarkersAreMarkers();
      managed := s.managed.value;
      newline := SplitPieces(content, BEGIN_MARKER, END_MARKER);
    }
  }

  lemma SplitPositions(content: string, begin: string, end: string) returns (b: nat, e: nat)
    requires IsMarker(begin) && IsMarker(end) && SplitAt(content, begin, end).managed.Some?
    ensures At(content, b, begin) && At(content, e, end) && b + |begin| <= e
    ensures var rest := content[e + |end|..];
            SplitAt(content, begin, end) ==
            Split(content[..b], Some(content[b + |begin|..e]), if "\n" <= rest then rest[1..] else rest)
  {
    b, e := Index(content, begin), Index(content, end);
    MarkersApart(content, b, begin, e, end);
  }

  lemma SplitPieces(content: string, begin: string, end: string) returns (newline: string)
    requires IsMarker(begin) && IsMarker(end) && SplitAt(content, begin, end).managed.Some?
    ensures newline == "" || newline == "\n"
    ensures var s := SplitAt(content, begin, end);
            content == s.pre + (begin + (s.managed.value + (end + (newline + s.post))))
  {
    hide SplitAt, Index, IsMarker;
    var b, e := SplitPositions(content, begin, end);
    FivePieces(content, b, begin, e, end);
    newline := DropNewline(content[e + |end|..]);
  }

  lemma DropNewline(rest: string) returns (newline: string)
    ensures newline == "" || newline == "\n"
    ensures rest == newline + if "\n" <= rest then rest[1..] else rest
  {
    newline := if "\n" <= rest then "\n" else "";
  }

  lemma FivePieces(s: string, b: nat, begin: string, e: nat, end: string)
    requires At(s, b, begin) && At(s, e, end) && b + |begin| <= e
    ensures s == s[..b] + (begin + (s[b + |begin|..e] + (end + s[e + |end|..])))
  {
    assert s[e..] == end + s[e + |end|..];
    assert s[b + |begin|..] == s[b + |begin|..e] + s[e..];
    assert s[b..] == begin + s[b + |begin|..];
    assert s == s[..b] + s[b..];
  }

  // ---- Runs of rule edits ----

  datatype RuleEdit = Set(ip: string, rate: string, exempt: bool) | Clear(ip: string)

  /** One edit of the rules; one that is refused changes nothing. */
  function EditRule(d: Doc, valid: string -> bool, e: RuleEdit): Doc {
    match e
    case Set(ip, rate, exempt) =>
      var r := SetOverride(d, valid, ip, rate, exempt);
      if r.Ok? then r.value else d
    case Clear(ip) => ClearOverride(d, ip)
  }

  function AfterEdits(d: Doc, valid: string -> bool, edits: seq<RuleEdit>): Doc {
    if edits == [] then d else EditRule(AfterEdits(d, valid, edits[..|edits| - 1]), valid, edits[|edits| - 1])
  }

  /** The same edits on a plain map. */
  function MapAfter(m: map<string, Rule>, valid: string -> bool, edits: seq<RuleEdit>): map<string, Rule> {
    if edits == [] then m
    else
      var before := MapAfter(m, valid, edits[..|edits| - 1]);
      match edits[|edits| - 1]
      case Set(ip, rate, exempt) =>
        if valid(ip) && (rate == "" || ValidRate(rate)) then before[ip := Rule(rate, exempt)] else before
      case Clear(ip) => before - {ip}
  }

  /**
   * Whatever the file contains and however its rules are edited, the list stays strictly sorted, so
   * without duplicates, and each edit changes the lookup of its own address only.
   */
  lemma {:induction false} EditsKeepOrder(content: string, valid: string -> bool, edits: seq<RuleEdit>)
    requires ParseDoc(content).Ok?
    ensures var d := ParseDoc(content).value;
            && Sorted(AfterEdits(d, valid, edits).overrides)
            && ToMap(AfterEdits(d, valid, edits).overrides) == MapAfter(ToMap(d.overrides), valid, edits)
  {
    hide ParseDoc, ToMap, Put, SortByIP, Without, Sorted, ValidRate;
    var d := ParseDoc(content).value;
    if edits == [] {
      ParsedAgrees(content);
    } else {
      EditsKeepOrder(content, valid, edits[..|edits| - 1]);
      EditKeepsOrder(AfterEdits(d, valid, edits[..|edits| - 1]), valid, edits[|edits| - 1]);
    }
  }

  lemma EditKeepsOrder(d: Doc, valid: string -> bool, e: RuleEdit)
    requires Sorted(d.overrides)
    ensures Sorted(EditRule(d, valid, e).overrides)
    ensures ToMap(EditRule(d, valid, e).overrides) ==
            match e
            case Set(ip, rate, exempt) =>
              if valid(ip) && (rate == "" || ValidRate(rate)) then ToMap(d.overrides)[ip := Rule(rate, exempt)] else ToMap(d.overrides)
            case Clear(ip) => ToMap(d.overrides) - {ip}
  {
    hide ToMap, Put, SortByIP, Without, ValidRate;
    match e
    case Set(ip, rate, exempt) =>
      SortedIsUnique(d.overrides);
      PutIsMapUpdate(d.overrides, Override(ip, rate, exempt));
      SortKeepsMap(Put(d.overrides, Override(ip, rate, exempt)));
    case Clear(ip) =>
      WithoutIsMapRemoval(d.overrides, ip);
  }
}

/** Where the program does not do what it is for, and exactly when it does. */
module Limits {
  import opened Wrappers
  import opened Lists
  import opened Text
  import opened Regex
  import opened Patterns
  import opened Overrides
  import opened Document
  import opened PrintedLines
  import opened ManagedRead
  import opened Rewrite
  import opened Directives
  import opened UserText
  import opened RoundTrip
  import opened Parsed
  import opened Endpoints

  // ---- Addresses the validator accepts and the reader does not know ----

  /** Whatever the file contains, only addresses of the entry pattern's characters are read from it. */
  lemma OnlyEntryIPsAreRead(content: string)
    requires ParseDoc(content).Ok?
    ensures forall o :: o in ParseDoc(content).value.overrides ==> EntryIP(o.ip)
  {
    ParsedAgrees(content);
  }

  /** An accepted rule is in the file afterwards if and only if its address is one the reader knows. */
  lemma AddressSurvivesIff(valid: string -> bool, file: string, ip: string, rate: string, exempt: bool, w: World)
    requires WellFormedFile(file) && (rate != "" || exempt) && w.restoreOk
    requires Step(valid, file, SetRule(ip, rate, exempt), w).1
    ensures var file' := Step(valid, file, SetRule(ip, rate, exempt), w).0;
            ParseDoc(file').Ok? && ip in FileSettings(file').rules <==> EntryIP(ip)
  {
    hide WellFormedFile, ParseDoc, Step;
    var req := SetRule(ip, rate, exempt);
    var file' := Step(valid, file, req, w).0;
    if EntryIP(ip) {
      StepRefines(valid, file, req, w);
      FileIsWellFormed(file');
    } else if ParseDoc(file').Ok? {
      OnlyEntryIPsAreRead(file');
      var os := ParseDoc(file').value.overrides;
      assert forall i :: 0 <= i < |os| ==> os[i] in os;
    }
  }

  // ---- Lines of the block that a rewrite drops ----

  lemma {:induction false} ZeroIsExempt(es: seq<(string, string)>, os: seq<Override>, ip: string)
    requires Unique(os) && AllGood(os) && forall e :: e in es ==> GoodEntry(e)
    ensures Unique(ExemptsFrom(es, os))
    ensures (ip, "0") in es ==> ExemptOf(ExemptsFrom(es, os), ip)
    ensures ExemptOf(os, ip) ==> ExemptOf(ExemptsFrom(es, os), ip)
  {
    if es != [] {
      var front, last := es[..|es| - 1], es[|es| - 1];
      assert es == front + [last];
      ZeroIsExempt(front, os, ip);
      var r := ExemptsFrom(front, os);
      PutIsMapUpdate(r, Override(last.0, RateOf(r, last.0), true));
    }
  }

  lemma ExemptIsMember(os: seq<Override>, ip: string)
    requires ExemptOf(os, ip)
    ensures exists o :: o in os && o.exempt && o.ip == ip
  {
    assert os[Find(os, ip)] in os;
  }

  /** A zero entry of the block stands for an exempt rule of the document. */
  lemma ZeroEntryIsRead(content: string, ip: string)
    requires ParseDoc(content).Ok? && FindGeo(ParseDoc(content).value.Merged()).Some?
    requires (ip, "0") in Entries(Lines(BlockOf(ParseDoc(content).value).body))
    ensures exists o :: o in ParseDoc(content).value.overrides && o.exempt && o.ip == ip
  {
    hide FindGeo, Entries, SortByIP, ExemptsFrom, ExemptOf;
    var s := SplitAtMarkers(content);
    SplitWithout(content);
    if s.managed.None? {
      ZeroEntryIsIn(s, [], "", ip);
    } else {
      var body := BracedAfter(s.managed.value, MANAGED_GEO).value;
      BracedBody(s.managed.value, MANAGED_GEO);
      BodyEntriesAreGood(body);
      RatesAreGood(Entries(Lines(body)));
      ZeroEntryIsIn(s, RatesFrom(Entries(Lines(body))), MapFallback(s.managed.value), ip);
    }
  }

  lemma ZeroEntryIsIn(s: Split, rates: seq<Override>, global: string, ip: string)
    requires Unique(rates) && AllGood(rates) && FindGeo(s.pre + s.post).Some?
    requires (ip, "0") in Entries(Lines(FindGeo(s.pre + s.post).value.body))
    ensures exists o :: o in ParseUser(s, rates, global).overrides && o.exempt && o.ip == ip
  {
    hide Entries, SortByIP, ExemptsFrom, ExemptOf;
    FindGeoFound(s.pre + s.post);
    var body := FindGeo(s.pre + s.post).value.body;
    BodyEntriesAreGood(body);
    ZeroIsExempt(Entries(Lines(body)), rates, ip);
    var os := ExemptsFrom(Entries(Lines(body)), rates);
    ExemptIsMember(os, ip);
    SortMembers(os);
    var o :| o in os && o.exempt && o.ip == ip;
    MemberOfPermutation(SortByIP(os), os, o);
  }

  /** A comment, a default line or a zero entry: all that the program knows of the block. */
  predicate IsKnownLine(l: string) {
    IsKept(l) || (EntryOf(l).Some? && EntryOf(l).value.1 == "0")
  }

  /**
   * Reading a file and printing it drops no line of the user's block if and only if every visible line of
   * the block is a comment, a default line or a zero entry.
   */
  lemma BlockLosesNothingIff(content: string)
    requires WellFormedFile(content)
    ensures var d := ParseDoc(content).value;
            (forall l :: l in Lines(BlockOf(d).body) && IsVisible(l) ==> Survives(l, NewBody(BlockOf(d).body, d.overrides)))
            <==> (forall l :: l in Lines(BlockOf(d).body) && IsVisible(l) ==> IsKnownLine(l))
  {
    hide IsKept, EntryOf, Survives, Lines, NewBody, FindGeo;
    ParsedAgrees(content);
    var d := ParseDoc(content).value;
    var body := BlockOf(d).body;
    forall l | l in Lines(body) && IsVisible(l)
      ensures Survives(l, NewBody(body, d.overrides)) <==> IsKnownLine(l)
    {
      LineSurvivesIff(body, d.overrides, l);
      if EntryOf(l).Some? && EntryOf(l).value.1 == "0" {
        EntryIsCollected(Lines(body), l);
        ZeroEntryIsRead(content, EntryOf(l).value.0);
      }
    }
  }

  lemma {:induction false} EntryIsCollected(ls: seq<string>, l: string)
    requires l in ls && EntryOf(l).Some?
    ensures EntryOf(l).value in Entries(ls)
  {
    hide EntryOf;
    var front, last := ls[..|ls| - 1], ls[|ls| - 1];
    assert ls == front + [last];
    EntriesSnoc(front, last, EntryOf(last));
    if l != last { EntryIsCollected(front, l); }
  }

  // ---- Directives on the block's lines ----

  /**
   * Reading and printing any file without a region keeps its directives if and only if none is on a line that the
   * body touches, unless it stands in front of the opening and the opening ends its line.
   */
  lemma DirectivesSurviveIff(content: string)
    requires ParseDoc(content).Ok? && !ParseDoc(content).value.hasManaged && FindGeo(content).Some?
    ensures var d, g := ParseDoc(content).value, FindGeo(content).value;
            && Emit(d).Ok?
            && (Speaking(Emit(d).value) == Speaking(content) <==>
                Filter(Speaks, TouchedLines(g)) == Filter(Speaks, [LastLine(g.before + g.header)]))
  {
    hide ParseDoc, FindGeo, NewBody, RewriteGeo, Lines, Filter;
    var managed, newline := ContentIsSplit(content);
    ParsedAgrees(content);
    FindGeoFound(content);
    var d, g := ParseDoc(content).value, FindGeo(content).value;
    assert d.Merged() == content;
    RewriteReplacesBody(g, d.overrides);
    assert Emit(d) == Ok(Rewritten(g, d.overrides).Whole());
    RewriteKeepsSpeakingIff(g, d.overrides);
  }

  // ---- An exempt rule without a block ----

  /** Well formed, except that there may be no block. */
  predicate WellFormedAround(d: Doc) {
    FieldsAgree(d) && AroundPlaced(d) && (FindGeo(d.Merged()).Some? ==> BlockPlaced(d))
  }

  lemma UnratedRead(os: seq<Override>, ip: string)
    requires Sorted(os)
    ensures !ExemptOf(SortByIP(RatesFrom(RateEntries(os))), ip)
  {
    SortedIsUnique(os);
    RatesAreRead(os);
    RatesOnlyUnique(os);
    var r := RatesOnly(os);
    SortMembers(r);
    if ExemptOf(SortByIP(r), ip) {
      ExemptIsMember(SortByIP(r), ip);
      var o :| o in SortByIP(r) && o.exempt && o.ip == ip;
      MemberOfPermutation(SortByIP(r), r, o);
      RatesOnlyMembers(os, o);
    }
  }

  lemma CarriedExempt(os: seq<Override>, ip: string)
    requires Sorted(os) && ExemptOf(os, ip)
    ensures ExemptOf(Carrying(os), ip)
  {
    CarryingIsRestriction(os);
  }

  /** Without a block the printed file is the text with the managed region in it. */
  lemma EmitWithoutBlock(d: Doc)
    requires FindGeo(d.Merged()).None? && (d.hasManaged ==> d.global != "")
    ensures Emit(d) == Ok(
              if d.hasManaged then
                d.preManaged + ManagedRegion(d.overrides, d.global) + (Separator(d.postManaged) + d.postManaged)
              else d.Merged())
  {
    hide FindGeo, ManagedRegion, Separator;
    assert d.Merged()[..|d.preManaged|] == d.preManaged && d.Merged()[|d.preManaged|..] == d.postManaged;
  }

  lemma ManagedWithoutBlock(d: Doc, ip: string)
    requires WellFormedAround(d) && d.hasManaged && FindGeo(d.Merged()).None?
    ensures Emit(d).Ok? && ParseDoc(Emit(d).value).Ok?
    ensures !ExemptOf(ParseDoc(Emit(d).value).value.overrides, ip)
  {
    hide FindGeo, ManagedRegion, Separator, ManagedText, Emit, ConnLimitOf, SplitAtMarkers, ParseManaged, SortByIP;
    hide RatesFrom, ExemptOf, Contains;
    var post := Separator(d.postManaged) + d.postManaged;
    EmitWithoutBlock(d);
    MarkersAreFound(d.preManaged, d.overrides, d.global, post);
    ManagedTextIsRead(d.overrides, d.global);
    SeparatedMakesNoGeo(d.preManaged, d.postManaged);
    UnratedRead(d.overrides, ip);
  }

  lemma SeparatedMakesNoGeo(pre: string, post: string)
    requires LineTerminated(pre) && FindGeo(pre + post).None?
    ensures FindGeo(pre + (Separator(post) + post)).None?
  {
    if Separator(post) == "" {
      assert "" + post == post;
    } else {
      BlankLineMakesNoGeo(pre, post);
    }
  }

  /**
   * An exempt rule of a document, migrated or not, is in the printed file if and only if the user's text
   * has a block to print it into; the program reports success either way.
   */
  lemma ExemptSurvivesIff(d: Doc, ip: string)
    requires WellFormedAround(d) && ExemptOf(d.overrides, ip)
    ensures Emit(d).Ok? && ParseDoc(Emit(d).value).Ok?
    ensures ExemptOf(ParseDoc(Emit(d).value).value.overrides, ip) <==> FindGeo(d.Merged()).Some?
  {
    hide FindGeo, Emit, SplitAtMarkers, ExemptOf, ConnLimitOf, Contains;
    if FindGeo(d.Merged()).Some? {
      PrintThenParse(d);
      CarriedExempt(d.overrides, ip);
    } else if d.hasManaged {
      ManagedWithoutBlock(d, ip);
    } else {
      EmitWithoutBlock(d);
      assert d.Merged() == d.postManaged;
      UnmanagedWithoutBlock(d.postManaged, ip);
    }
  }

  lemma UnmanagedWithoutBlock(s: string, ip: string)
    requires FindGeo(s).None? && !(Contains(s, BEGIN_MARKER) && Contains(s, END_MARKER))
    ensures ParseDoc(s).Ok? && !ExemptOf(ParseDoc(s).value.overrides, ip)
  {
    NotManaged(s);
    assert "" + s == s;
  }

  // ---- A block in front of the managed region ----

  /** The block lies wholly in front of the managed region, followed there by z. */
  predicate BlockInFront(d: Doc, g: Geo, z: string) {
    d.hasManaged && FindGeo(d.Merged()) == Some(g) && d.preManaged == g.before + g.Block() + z
  }

  /** The user's text in front of the region with the block rewritten. */
  function CutFront(d: Doc, g: Geo, z: string): string {
    Rewritten(g, d.overrides).before + Rewritten(g, d.overrides).Block() + z
  }

  /** The whole of the user's text with the block rewritten, which the printer cuts at the old length. */
  function CutText(d: Doc, g: Geo, z: string): string {
    CutFront(d, g, z) + d.postManaged
  }

  lemma BehindTheBlock(g: Geo, z: string, post: string, merged: string)
    requires g.Whole() == merged && merged == g.before + g.Block() + z + post
    ensures g.after == z + post
  {
    var w := g.before + g.Block();
    Assoc(w, z, post);
    assert (w + g.after)[|w|..] == g.after && (w + (z + post))[|w|..] == z + post;
  }

  lemma CutTextIsMerged(d: Doc, g: Geo, z: string)
    requires BlockInFront(d, g, z)
    ensures IsGeo(g) && Rewritten(g, d.overrides).Whole() == CutText(d, g, z)
    ensures RewriteMerged(d.Merged(), d.overrides) == Ok(CutText(d, g, z))
  {
    FindGeoFound(d.Merged());
    RewriteReplacesBody(g, d.overrides);
    BehindTheBlock(g, z, d.postManaged, d.Merged());
    var r := Rewritten(g, d.overrides);
    Assoc(r.before + r.Block(), z, d.postManaged);
  }

  /** How long a list of printed exempt entries is. */
  function EntriesLength(os: seq<Override>): nat {
    if os == [] then 0
    else
      var front, last := EntriesLength(os[..|os| - 1]), os[|os| - 1];
      if !last.exempt then front else front + if |last.ip| < 16 then 24 else |last.ip| + 8
  }

  lemma {:induction false} ExemptLinesLength(os: seq<Override>)
    ensures |Terminated(ExemptLines(os))| == EntriesLength(os)
  {
    if os != [] {
      var front, last := os[..|os| - 1], os[|os| - 1];
      ExemptLinesLength(front);
      if last.exempt {
        var l := EntryLine(last.ip, "0");
        assert |l| == 4 + |last.ip| + |Gap(last.ip)| + 2;
        assert (ExemptLines(front) + [l])[..|ExemptLines(front)|] == ExemptLines(front);
      }
    }
  }

  lemma NewBodyLength(body: string, os: seq<Override>)
    ensures |NewBody(body, os)| == 1 + |Terminated(UserLines(body))| + EntriesLength(os)
  {
    TerminatedConcat(UserLines(body), ExemptLines(os));
    ExemptLinesLength(os);
  }

  /**
   * With the block in front of the region, the printer cuts past the end of the text, which ends the program,
   * exactly if the kept lines, the new entries and the text behind the region are together shorter than the
   * old body. Otherwise it puts the region where the old length points.
   */
  lemma CutAtOldLength(d: Doc, g: Geo, z: string)
    requires BlockInFront(d, g, z) && d.global != ""
    ensures Emit(d) == Err(SliceOutOfRange) <==>
            1 + |Terminated(UserLines(g.body))| + EntriesLength(d.overrides) + |d.postManaged| < |g.body|
    ensures Emit(d) == Err(SliceOutOfRange) <==> |CutText(d, g, z)| < |d.preManaged|
    ensures |CutText(d, g, z)| >= |d.preManaged| ==>
              var pre, post := CutText(d, g, z)[..|d.preManaged|], CutText(d, g, z)[|d.preManaged|..];
              Emit(d) == Ok(pre + ManagedRegion(d.overrides, d.global) + (Separator(post) + post))
  {
    hide FindGeo, UserLines, ManagedRegion, Separator, Terminated;
    CutTextIsMerged(d, g, z);
    NewBodyLength(g.body, d.overrides);
    CutTextLength(d, g, z);
  }

  lemma CutTextLength(d: Doc, g: Geo, z: string)
    requires BlockInFront(d, g, z)
    ensures |CutText(d, g, z)| == |d.preManaged| - |g.body| + |NewBody(g.body, d.overrides)| + |d.postManaged|
  {
    hide FindGeo, NewBody;
  }

  lemma CutSucceeds(d: Doc, g: Geo, z: string)
    requires BlockInFront(d, g, z) && d.global != ""
    ensures Emit(d).Ok? <==> |CutText(d, g, z)| >= |d.preManaged|
  {
    hide FindGeo, CutText, NewBody, ManagedRegion;
    CutAtOldLength(d, g, z);
  }

  /** The region goes back to its place if and only if the body keeps its length. */
  lemma CutIsRightIff(d: Doc, g: Geo, z: string)
    requires BlockInFront(d, g, z) && d.global != ""
    ensures (Emit(d).Ok? && |d.preManaged| <= |CutText(d, g, z)| && CutText(d, g, z)[..|d.preManaged|] == CutFront(d, g, z))
            <==> 1 + |Terminated(UserLines(g.body))| + EntriesLength(d.overrides) == |g.body|
  {
    hide UserLines, Terminated, Emit, NewBody, BlockInFront, EntriesLength, CutFront;
    CutSucceeds(d, g, z);
    CutTextLength(d, g, z);
    NewBodyLength(g.body, d.overrides);
    PrefixIff(CutFront(d, g, z), d.postManaged, |d.preManaged|);
  }

  lemma PrefixIff(pre: string, post: string, n: nat)
    ensures n <= |pre + post| && (pre + post)[..n] == pre <==> n == |pre|
  {
    assert (pre + post)[..|pre|] == pre;
  }

  // ---- What is read back from a misplaced region ----

  lemma {:induction false} ExemptsKeepRates(es: seq<(string, string)>, os: seq<Override>, ip: string)
    requires Unique(os)
    ensures Unique(ExemptsFrom(es, os)) && RateOf(ExemptsFrom(es, os), ip) == RateOf(os, ip)
  {
    if es != [] {
      var front, last := es[..|es| - 1], es[|es| - 1];
      ExemptsKeepRates(front, os, ip);
      var r := ExemptsFrom(front, os);
      PutIsMapUpdate(r, Override(last.0, RateOf(r, last.0), true));
    }
  }

  lemma RateOfMember(os: seq<Override>, ip: string, rate: string)
    requires Unique(os) && rate != ""
    ensures RateOf(os, ip) == rate <==> Override(ip, rate, false) in os || Override(ip, rate, true) in os
  {
    FindOfUnique(os, Override(ip, rate, false));
    FindOfUnique(os, Override(ip, rate, true));
  }

  lemma RatesOnlyKeepRate(os: seq<Override>, ip: string, rate: string)
    requires Unique(os) && rate != ""
    ensures RateOf(RatesOnly(os), ip) == rate <==> RateOf(os, ip) == rate
  {
    RatesOnlyUnique(os);
    RateOfMember(os, ip, rate);
    RateOfMember(RatesOnly(os), ip, rate);
    RatesOnlyMembers(os, Override(ip, rate, false));
    RatesOnlyMembers(os, Override(ip, rate, true));
    assert Override(ip, rate, false) == Override(ip, rate, true).(exempt := false);
  }

  lemma RatesOnlyKeepRates(os: seq<Override>, ip: string)
    requires Unique(os)
    ensures RateOf(RatesOnly(os), ip) == RateOf(os, ip)
  {
    hide RateOf, RatesOnly;
    if RateOf(os, ip) != "" {
      RatesOnlyKeepRate(os, ip, RateOf(os, ip));
    } else if RateOf(RatesOnly(os), ip) != "" {
      RatesOnlyKeepRate(os, ip, RateOf(RatesOnly(os), ip));
    }
  }

  lemma ReadRates(es: seq<(string, string)>, os: seq<Override>, ip: string)
    requires Sorted(os)
    ensures RateOf(SortByIP(ExemptsFrom(es, RatesFrom(RateEntries(os)))), ip) == RateOf(os, ip)
    ensures RateOf(SortByIP(RatesFrom(RateEntries(os))), ip) == RateOf(os, ip)
  {
    SortedIsUnique(os);
    RatesAreRead(os);
    RatesOnlyUnique(os);
    RatesOnlyKeepRates(os, ip);
    ExemptsKeepRates(es, RatesOnly(os), ip);
    SortKeepsMap(RatesOnly(os));
    SortKeepsMap(ExemptsFrom(es, RatesOnly(os)));
  }

  /** What is read from a file whose region was put where the old length points. */
  lemma CutIsParsed(d: Doc, g: Geo, z: string)
    requires BlockInFront(d, g, z) && GoodRules(d.overrides) && GlobalToken(d.global)
    requires |CutText(d, g, z)| >= |d.preManaged|
    requires var pre := CutText(d, g, z)[..|d.preManaged|]; !Contains(pre, BEGIN_MARKER) && !Contains(pre, END_MARKER)
    ensures Emit(d).Ok?
    ensures var pre, post := CutText(d, g, z)[..|d.preManaged|], CutText(d, g, z)[|d.preManaged|..];
            ParseDoc(Emit(d).value) ==
            Ok(ParseUser(Split(pre, Some(ManagedText(d.overrides, d.global)), Separator(post) + post),
                         RatesFrom(RateEntries(d.overrides)), d.global))
  {
    hide FindGeo, ManagedRegion, Separator, ManagedText, Emit, ConnLimitOf, SplitAtMarkers, ParseManaged, ParseUser;
    hide RatesFrom, Contains, NewBody, CutText, BlockInFront;
    var pre, post := CutText(d, g, z)[..|d.preManaged|], CutText(d, g, z)[|d.preManaged|..];
    CutAtOldLength(d, g, z);
    MarkersAreFound(pre, d.overrides, d.global, Separator(post) + post);
    ManagedTextIsRead(d.overrides, d.global);
  }

  /**
   * Wherever the cut falls, the rates and the global rate are read back, and the user's text is the rewritten
   * one cut at the old length. Unless the cut falls inside the block and the line there had to be separated
   * (see SplitLine), the exempt rules are read back too.
   */
  lemma CutIsReadBack(d: Doc, g: Geo, z: string, ip: string)
    requires BlockInFront(d, g, z) && GoodRules(d.overrides) && GlobalToken(d.global)
    requires |CutText(d, g, z)| >= |d.preManaged|
    requires var pre := CutText(d, g, z)[..|d.preManaged|]; !Contains(pre, BEGIN_MARKER) && !Contains(pre, END_MARKER)
    ensures Emit(d).Ok? && ParseDoc(Emit(d).value).Ok?
    ensures var r := ParseDoc(Emit(d).value).value;
            var pre, post := CutText(d, g, z)[..|d.preManaged|], CutText(d, g, z)[|d.preManaged|..];
            && r.hasManaged && r.global == d.global && r.preManaged == pre && r.postManaged == Separator(post) + post
            && RateOf(r.overrides, ip) == RateOf(d.overrides, ip)
            && (Separator(post) == "" || CutBehindBlock(d, g) ==> r.overrides == Carrying(d.overrides))
  {
    hide FindGeo, ManagedText, Emit, ConnLimitOf, ParseDoc, Separator;
    hide SortByIP, RatesFrom, RateOf, Contains, NewBody, CutText, BlockInFront, CutBehindBlock;
    var pre, post := CutText(d, g, z)[..|d.preManaged|], CutText(d, g, z)[|d.preManaged|..];
    CutIsParsed(d, g, z);
    var sep := Separator(post);
    var geo := FindGeo(pre + (sep + post));
    ReadRates(if geo.None? then [] else Entries(Lines(geo.value.body)), d.overrides, ip);
    if sep == "" || CutBehindBlock(d, g) { UnsplitRules(d, g, z, sep); }
  }

  /** The old length reaches behind the rewritten block. */
  predicate CutBehindBlock(d: Doc, g: Geo) {
    |Rewritten(g, d.overrides).before + Rewritten(g, d.overrides).Block()| <= |d.preManaged|
  }

  /** If the block does not shrink, no marker can slip in front of the region. */
  lemma GrownCutIsClean(d: Doc, g: Geo, z: string, m: string)
    requires BlockInFront(d, g, z) && GoodRules(d.overrides) && IsMarker(m) && !Contains(d.preManaged, m)
    requires |g.body| <= 1 + |Terminated(UserLines(g.body))| + EntriesLength(d.overrides)
    ensures |CutText(d, g, z)| >= |d.preManaged| && !Contains(CutText(d, g, z)[..|d.preManaged|], m)
  {
    hide FindGeo, UserLines, Terminated, NewBody, EntriesLength, Contains;
    NewBodyLength(g.body, d.overrides);
    CutTextLength(d, g, z);
    var h := g.(after := z);
    var front, n := CutFront(d, g, z), |d.preManaged|;
    assert front == Rewritten(h, d.overrides).Whole() && d.preManaged == h.Whole();
    assert CutText(d, g, z)[..n] == front[..n] && front == front[..n] + front[n..];
    if Contains(front[..n], m) {
      ContainsWithin("", front[..n], front[n..], m);
      assert "" + front[..n] + front[n..] == front;
      RewriteBringsNothing(h, d.overrides, m);
    }
  }

  /** The block of the printed text stands for exactly the rules that carry something. */
  lemma UnsplitRules(d: Doc, g: Geo, z: string, sep: string)
    requires BlockInFront(d, g, z) && GoodRules(d.overrides) && |CutText(d, g, z)| >= |d.preManaged|
    requires sep == "" || CutBehindBlock(d, g)
    ensures var n := |d.preManaged|;
            var geo := FindGeo(CutText(d, g, z)[..n] + (sep + CutText(d, g, z)[n..]));
            && geo.Some?
            && SortByIP(ExemptsFrom(Entries(Lines(geo.value.body)), RatesFrom(RateEntries(d.overrides)))) == Carrying(d.overrides)
  {
    var r, s, n := Rewritten(g, d.overrides), CutText(d, g, z), |d.preManaged|;
    CutTextIsMerged(d, g, z);
    hide FindGeo, CutText, NewBody, SortByIP, BlockInFront, IsGeo, Rewritten, ExemptsFrom, RatesFrom, Entries, Lines;
    RewrittenIsGeo(g, d.overrides);
    RewrittenBodyIsRead(g, d.overrides);
    var r' := BlockAfterCut(r, s, n, sep);
    SameHeader(r, r');
    FindGeoIs(r');
  }

  lemma SameHeader(r: Geo, r': Geo)
    requires IsGeo(r) && r' == r.(after := r'.after)
    ensures IsGeo(r')
  {
  }

  lemma RewrittenBodyIsRead(g: Geo, os: seq<Override>)
    requires GoodRules(os)
    ensures SortByIP(ExemptsFrom(Entries(Lines(Rewritten(g, os).body)), RatesFrom(RateEntries(os)))) == Carrying(os)
  {
    hide NewBody, SortByIP, ExemptsFrom, RatesFrom;
    NewBodyEntries(g.body, os);
    RulesAreReadBack(os);
  }

  lemma BlockAfterCut(r: Geo, s: string, n: nat, sep: string) returns (r': Geo)
    requires s == r.Whole() && n <= |s| && (sep == "" || |r.before + r.Block()| <= n)
    ensures r' == r.(after := r'.after) && r'.Whole() == s[..n] + (sep + s[n..])
  {
    if sep == "" {
      assert s[..n] + ("" + s[n..]) == s;
      r' := r;
    } else {
      r' := SeparatedBehind(r, s, n, sep);
    }
  }

  lemma SeparatedBehind(r: Geo, s: string, n: nat, sep: string) returns (r': Geo)
    requires s == r.Whole() && |r.before + r.Block()| <= n <= |s|
    ensures r' == r.(after := r'.after) && r'.Whole() == s[..n] + (sep + s[n..])
  {
    var x := r.before + r.Block();
    var k := n - |x|;
    r' := r.(after := r.after[..k] + (sep + r.after[k..]));
    assert s[..n] == x + r.after[..k] && s[n..] == r.after[k..];
    Assoc(x, r.after[..k], sep + s[n..]);
  }
}

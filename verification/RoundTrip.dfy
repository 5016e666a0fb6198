/** Printing a document and reading it back. */
module RoundTrip {
  import opened Wrappers
  import opened Lists
  import opened Text
  import opened Regex
  import opened Patterns
  import opened Overrides
  import opened Document
  import opened PrintedLines
  import opened ManagedRead
  import opened Rewrite
  import opened Directives
  import opened UserText

  // ---- Well-formed documents ----

  /** The block exists, starts after the managed region, and no directive is on a line its body touches. */
  predicate BlockPlaced(d: Doc) {
    match FindGeo(d.Merged())
    case None => false
    case Some(g) => |g.before| >= |d.preManaged| && SilentBlock(g)
  }

  /** The connection limit is the one the text states. */
  predicate ConnAgrees(d: Doc) {
    match ConnLimitOf(d.Merged())
    case None => d.connLimit == DEFAULT_CONN_LIMIT && !d.connLimitParsed
    case Some(n) => d.connLimit == n && d.connLimitParsed
  }

  /** What a managed document needs besides. */
  predicate ManagedPlaced(d: Doc) {
    && LineTerminated(d.preManaged)
    && !Contains(d.preManaged, BEGIN_MARKER) && !Contains(d.preManaged, END_MARKER)
    && GlobalToken(d.global)
  }

  /** The directive lies wholly in front of the block or wholly behind it. */
  predicate Apart(p: Place, g: Geo) {
    |p.before| + |Concat(p.parts)| <= |g.before| || |g.before| + |g.Block()| <= |p.before|
  }

  /** The value of the first directive prints well. */
  predicate DirectivePlaced(user: string) {
    match FindLimitRate(user)
    case None => true
    case Some(p) => GlobalToken(p.parts[3])
  }

  /** What a document without a managed region needs besides. */
  predicate UnmanagedPlaced(d: Doc) {
    && !(Contains(d.postManaged, BEGIN_MARKER) && Contains(d.postManaged, END_MARKER))
    && DirectivePlaced(d.postManaged)
  }

  /** What the text around the block needs. */
  predicate AroundPlaced(d: Doc) {
    if d.hasManaged then ManagedPlaced(d) else UnmanagedPlaced(d)
  }

  /** The fields agree with the text: ParseDoc leaves them so (Parsed.ParsedAgrees), and every edit keeps it. */
  predicate FieldsAgree(d: Doc) {
    && GoodRules(d.overrides)
    && ConnAgrees(d)
    && (!d.hasManaged ==>
          && d.preManaged == ""
          && (forall o :: o in d.overrides ==> o.rate == "")
          && d.global == FirstRate(Lines(d.postManaged)))
  }

  predicate WellFormed(d: Doc) {
    FieldsAgree(d) && BlockPlaced(d) && AroundPlaced(d)
  }

  // ---- The printed text ----

  /** The user's block of a well-formed document. */
  function BlockOf(d: Doc): Geo
    requires FindGeo(d.Merged()).Some?
  {
    FindGeo(d.Merged()).value
  }

  /** The user's text after the managed region, with the block rewritten. */
  function NewPost(d: Doc): string
    requires FindGeo(d.Merged()).Some? && |BlockOf(d).before| >= |d.preManaged|
  {
    Geo(BlockOf(d).before[|d.preManaged|..], BlockOf(d).header, NewBody(BlockOf(d).body, d.overrides), BlockOf(d).after).Whole()
  }

  /** The document read back from the printed text. */
  function Reread(d: Doc): Doc
    requires FindGeo(d.Merged()).Some? && |BlockOf(d).before| >= |d.preManaged|
  {
    d.(overrides := Carrying(d.overrides),
       postManaged := if d.hasManaged then Separator(NewPost(d)) + NewPost(d) else NewPost(d))
  }

  lemma BeforeSplits(d: Doc)
    requires FindGeo(d.Merged()).Some? && |BlockOf(d).before| >= |d.preManaged|
    ensures var g := BlockOf(d);
            && IsGeo(g) && d.Merged() == g.Whole()
            && g.before == d.preManaged + g.before[|d.preManaged|..]
            && Rewritten(g, d.overrides).Whole() == d.preManaged + NewPost(d)
  {
    FindGeoFound(d.Merged());
    var g := BlockOf(d);
    var pre := d.preManaged;
    assert g.Whole()[..|pre|] == pre;
    assert g.before[..|pre|] == g.Whole()[..|pre|];
    var mid := g.before[|pre|..];
    var r := Rewritten(g, d.overrides);
    BeforeCut(r, pre, mid);
  }

  lemma BeforeCut(g: Geo, pre: string, mid: string)
    requires g.before == pre + mid
    ensures g.Whole() == pre + g.(before := mid).Whole()
  {
    var t := g.Block() + g.after;
    Assoc(pre, mid, g.Block());
    Assoc(pre, mid + g.Block(), g.after);
    assert g.Whole() == pre + (mid + g.Block() + g.after);
  }

  /** Printing a well-formed document never fails, and prints this. */
  lemma EmitPrints(d: Doc)
    requires WellFormed(d)
    ensures FindGeo(d.Merged()).Some? && |BlockOf(d).before| >= |d.preManaged|
    ensures Emit(d) == Ok(
              if d.hasManaged then
                d.preManaged + ManagedRegion(d.overrides, d.global) + (Separator(NewPost(d)) + NewPost(d))
              else NewPost(d))
  {
    var g := BlockOf(d);
    BeforeSplits(d);
    RewriteReplacesBody(g, d.overrides);
    var merged := d.preManaged + NewPost(d);
    assert RewriteMerged(d.Merged(), d.overrides) == Ok(merged);
    assert merged[..|d.preManaged|] == d.preManaged && merged[|d.preManaged|..] == NewPost(d);
    if !d.hasManaged { assert merged == NewPost(d); }
  }

  // ---- Finding the markers again ----

  lemma FirstMarkers(pre: string, b: string, m: string, e: string, rest: string)
    requires IsMarker(b) && IsMarker(e) && !(e <= b) && !(b <= e)
    requires |e| >= 2 && e[1] == ' '
    requires !Contains(pre, b) && !Contains(pre, e)
    requires NoPair(m, '#', ' ') && m != "" && m[|m| - 1] == '\n'
    ensures var s := pre + (b + (m + (e + rest)));
            Index(s, b) == |pre| && Index(s, e) == |pre| + |b| + |m|
  {
    var s := pre + (b + (m + (e + rest)));
    var n, k := |pre|, |pre| + |b| + |m|;
    assert At(s, n, b) by { assert s[n..n + |b|] == b; }
    assert At(s, k, e) by { assert s[k..k + |e|] == e; }
    forall i | i < n ensures !At(s, i, b) && !At(s, i, e) {
      NotInFront(pre, s, i, b, b);
      NotInFront(pre, s, i, e, b);
    }
    assert forall j :: n + |b| <= j < k ==> s[j] == m[j - n - |b|];
    forall i | n <= i < k ensures !At(s, i, e) {
      StartOfOccurrence(s, i, e);
      if i == n {
        if At(s, i, e) { SamePlace(s, n, b, e); }
      } else if i < n + |b| {
        if At(s, i, e) { MarkersApart(s, n, b, i, e); }
      }
    }
  }

  lemma StartOfOccurrence(s: string, i: int, p: string)
    requires |p| >= 2
    ensures At(s, i, p) ==> s[i] == p[0] && s[i + 1] == p[1]
  {
    if At(s, i, p) { assert s[i..i + |p|][0] == s[i] && s[i..i + |p|][1] == s[i + 1]; }
  }

  lemma SamePlace(s: string, n: int, b: string, e: string)
    requires At(s, n, b) && At(s, n, e)
    ensures b <= e || e <= b
  {
    if |b| <= |e| {
      assert s[n..n + |e|][..|b|] == s[n..n + |b|];
    } else {
      assert s[n..n + |b|][..|e|] == s[n..n + |e|];
    }
  }

  lemma NotInFront(pre: string, s: string, i: int, m: string, b: string)
    requires pre <= s && IsMarker(m) && IsMarker(b) && !Contains(pre, m)
    requires At(s, |pre|, b) && i < |pre|
    ensures !At(s, i, m)
  {
    if At(s, i, m) {
      MarkersApart(s, i, m, |pre|, b);
      assert pre[i..i + |m|] == s[i..i + |m|];
      assert At(pre, i, m);
    }
  }

  lemma SplitWhereJoined(pre: string, b: string, m: string, e: string, post: string)
    requires IsMarker(b) && IsMarker(e) && !(e <= b) && !(b <= e)
    requires |e| >= 2 && e[1] == ' '
    requires !Contains(pre, b) && !Contains(pre, e)
    requires NoPair(m, '#', ' ') && m != "" && m[|m| - 1] == '\n'
    ensures SplitAt(pre + (b + (m + (e + "\n"))) + post, b, e) == Split(pre, Some(m), post)
  {
    var rest := "\n" + post;
    FirstMarkers(pre, b, m, e, rest);
    RegionThen(pre, b, m, e, post);
    CutPieces(pre, b, m, e, rest);
    SplitFromPieces(pre + (b + (m + (e + rest))), pre, b, m, e, rest);
    assert rest[1..] == post;
  }

  lemma SplitFromPieces(s: string, pre: string, b: string, m: string, e: string, rest: string)
    requires IsMarker(b) && IsMarker(e) && "\n" <= rest
    requires Index(s, b) == |pre| && Index(s, e) == |pre| + |b| + |m|
    requires s[..|pre|] == pre && s[|pre| + |b|..|pre| + |b| + |m|] == m
    requires |pre| + |b| + |m| + |e| <= |s| && s[|pre| + |b| + |m| + |e|..] == rest
    ensures SplitAt(s, b, e) == Split(pre, Some(m), rest[1..])
  {
  }

  /** The printed file is cut where it was put together. */
  lemma MarkersAreFound(pre: string, os: seq<Override>, global: string, post: string)
    requires !Contains(pre, BEGIN_MARKER) && !Contains(pre, END_MARKER)
    requires (forall o :: o in os ==> GoodRule(o)) && RateToken(global)
    ensures SplitAtMarkers(pre + ManagedRegion(os, global) + post) == Split(pre, Some(ManagedText(os, global)), post)
  {
    MarkersAreMarkers();
    MarkersDiffer();
    ManagedTextHasNoMarker(os, global);
    assert |END_MARKER| >= 2 && END_MARKER[1] == ' ' by { assert MARKER_STEM[0] == ' '; }
    SplitWhereJoined(pre, BEGIN_MARKER, ManagedText(os, global), END_MARKER, post);
  }

  lemma RegionThen(pre: string, b: string, m: string, e: string, post: string)
    ensures pre + (b + (m + (e + "\n"))) + post == pre + (b + (m + (e + ("\n" + post))))
  {
    Assoc(e, "\n", post);
    Assoc(m, e + "\n", post);
    Assoc(b, m + (e + "\n"), post);
    Assoc(pre, b + (m + (e + "\n")), post);
  }

  lemma CutPieces(pre: string, b: string, m: string, e: string, rest: string)
    ensures var s := pre + (b + (m + (e + rest)));
            && s[..|pre|] == pre
            && s[|pre| + |b|..|pre| + |b| + |m|] == m
            && s[|pre| + |b| + |m| + |e|..] == rest
  {
  }

  // ---- The theorem ----

  /** What the reader sees of the user's text around a managed region is what the printer left there. */
  lemma UserTextIsReread(d: Doc, sep: string)
    requires WellFormed(d) && LineTerminated(d.preManaged)
    requires FindGeo(d.Merged()).Some? && |BlockOf(d).before| >= |d.preManaged|
    requires sep == "" || sep == "\n"
    ensures var merged := d.preManaged + (sep + NewPost(d));
            && Speaking(merged) == Speaking(d.Merged())
            && FindGeo(merged) == Some(Geo(d.preManaged + (sep + BlockOf(d).before[|d.preManaged|..]),
                                           BlockOf(d).header, NewBody(BlockOf(d).body, d.overrides), BlockOf(d).after))
            && SilentBlock(FindGeo(merged).value)
  {
    var g := BlockOf(d);
    var pre, mid := d.preManaged, g.before[|d.preManaged|..];
    BeforeSplits(d);
    var r := Rewritten(g, d.overrides);
    RewrittenIsGeo(g, d.overrides);
    RewriteIsSilent(g, d.overrides);
    RewriteKeepsSpeaking(g, d.overrides);
    if sep == "" {
      assert sep + NewPost(d) == NewPost(d) && sep + mid == mid;
      FindGeoIs(r);
      assert r.Whole() == pre + NewPost(d);
    } else {
      var r' := r.(before := pre + ("\n" + mid));
      BlankLineIsSilent(pre, NewPost(d));
      BlankLineIsHeaderFree(pre, mid);
      FindGeoIs(r');
      BeforeCut(r', pre, "\n" + mid);
      BeforeCut(r.(before := "\n" + mid), "\n", mid);
      SilentAfterBlankLine(r, pre, mid);
    }
  }

  lemma SilentAfterBlankLine(g: Geo, pre: string, mid: string)
    requires g.before == pre + mid && LineTerminated(pre)
    ensures SilentBlock(g.(before := pre + ("\n" + mid))) == SilentBlock(g)
  {
    var h := g.header;
    Assoc(pre, mid, h);
    Assoc("\n", mid, h);
    Assoc(pre, "\n" + mid, h);
    LastLineAfter(pre, mid + h);
    LastLineAfter(pre, "\n" + (mid + h));
    LastLineAfter("\n", mid + h);
  }

  lemma LastLineAfter(pre: string, x: string)
    requires LineTerminated(pre)
    ensures LastLine(pre + x) == LastLine(x)
  {
    LinesAfterTerminated(pre, x);
  }

  lemma CarryingIsGood(os: seq<Override>)
    requires GoodRules(os)
    ensures GoodRules(Carrying(os))
  {
    CarryingSorted(os);
    CarryingMembers(os);
  }

  lemma {:induction false} NoRateNoEntry(os: seq<Override>)
    requires forall o :: o in os ==> o.rate == ""
    ensures RateEntries(os) == []
  {
    if os != [] {
      var front, last := os[..|os| - 1], os[|os| - 1];
      assert last in os && forall o :: o in front ==> o in os;
      NoRateNoEntry(front);
    }
  }

  lemma ParseUserIs(s: Split, rates: seq<Override>, global: string, g: Geo, d: Doc)
    requires FindGeo(s.pre + s.post) == Some(g)
    requires SortByIP(ExemptsFrom(Entries(Lines(g.body)), rates)) == d.overrides
    requires ConnLimitOf(s.pre + s.post) == ConnLimitOf(d.Merged()) && ConnAgrees(d)
    requires if global == "" then d.global == FirstRate(Lines(s.pre + s.post)) else d.global == global
    requires d.hasManaged == s.managed.Some? && d.preManaged == s.pre && d.postManaged == s.post
    ensures ParseUser(s, rates, global) == d
  {
  }

  /** Everything ParseDoc does after reading the managed region. */
  lemma UserPartIsReread(d: Doc, s: Split, sep: string, global: string)
    requires WellFormed(d) && LineTerminated(d.preManaged)
    requires FindGeo(d.Merged()).Some? && |BlockOf(d).before| >= |d.preManaged|
    requires sep == "" || sep == "\n"
    requires s.pre == d.preManaged && s.managed.Some? == d.hasManaged && s.post == sep + NewPost(d)
    requires if global == "" then d.global == FirstRate(Lines(d.Merged())) else d.global == global
    ensures ParseUser(s, RatesFrom(RateEntries(d.overrides)), global)
            == d.(overrides := Carrying(d.overrides), postManaged := s.post)
    ensures ConnLimitOf(s.pre + s.post) == ConnLimitOf(d.Merged())
  {
    UserTextIsReread(d, sep);
    SameSpeaking(s.pre + s.post, d.Merged());
    NewBodyEntries(BlockOf(d).body, d.overrides);
    RulesAreReadBack(d.overrides);
    var d' := d.(overrides := Carrying(d.overrides), postManaged := s.post);
    ParseUserIs(s, RatesFrom(RateEntries(d.overrides)), global, FindGeo(s.pre + s.post).value, d');
  }

  lemma ManagedRoundTrip(d: Doc)
    requires WellFormed(d) && d.hasManaged
    requires FindGeo(d.Merged()).Some? && |BlockOf(d).before| >= |d.preManaged|
    ensures ParseDoc(d.preManaged + ManagedRegion(d.overrides, d.global) + (Separator(NewPost(d)) + NewPost(d))) == Ok(Reread(d))
    ensures WellFormed(Reread(d))
  {
    var sep := Separator(NewPost(d));
    MarkersAreFound(d.preManaged, d.overrides, d.global, sep + NewPost(d));
    ManagedTextIsRead(d.overrides, d.global);
    UserPartIsReread(d, Split(d.preManaged, Some(ManagedText(d.overrides, d.global)), sep + NewPost(d)), sep, d.global);
    UserTextIsReread(d, sep);
    CarryingIsGood(d.overrides);
  }

  // ---- Without a managed region ----

  lemma NewPostHasNoMarkers(d: Doc)
    requires WellFormed(d) && !d.hasManaged
    requires FindGeo(d.Merged()).Some? && |BlockOf(d).before| >= |d.preManaged|
    ensures !(Contains(NewPost(d), BEGIN_MARKER) && Contains(NewPost(d), END_MARKER))
  {
    var g := BlockOf(d);
    BeforeSplits(d);
    MarkersAreMarkers();
    assert d.preManaged + NewPost(d) == NewPost(d) && d.Merged() == d.postManaged;
    if Contains(NewPost(d), BEGIN_MARKER) { RewriteBringsNothing(g, d.overrides, BEGIN_MARKER); }
    if Contains(NewPost(d), END_MARKER) { RewriteBringsNothing(g, d.overrides, END_MARKER); }
  }

  lemma NotManaged(s: string)
    requires !(Contains(s, BEGIN_MARKER) && Contains(s, END_MARKER))
    ensures SplitAtMarkers(s) == Split("", None, s)
  {
  }

  // ---- A directive on none of the block's lines is apart from the block ----

  /** What a line of the block starts with is what the text starts with there. */
  lemma TouchedFrom(g: Geo, x: string, v: string, t: string, y: string)
    requires LastLine(g.before + g.header) + (g.body + "}") == x + v && LineTerminated(x)
    requires v + g.after == t + y && '\n' !in t
    ensures t + FirstLine(y) in TouchedLines(g)
  {
    hide Lines;
    var l, b, q := LastLine(g.before + g.header), g.body + "}", FirstLine(g.after);
    Assoc(l, b, q);
    Assoc(x, v, q);
    LinesAfterTerminated(x, v + q);
    LinesBeforeFirst(v, g.after);
    LinesOfOneThen(t, y);
    var ls := Lines(v + q);
    LinesNotEmpty(v + q);
    assert (ls + Lines(g.after)[1..])[0] == ls[0];
    assert TouchedLines(g) == FullLines(x) + ls;
    assert ls[0] in ls;
  }

  lemma LastLineOfOne(u: string)
    requires '\n' !in u
    ensures LastLine(u) == u
  {
    OneLine(u);
  }

  lemma LinesNotEmpty(s: string)
    ensures |Lines(s)| >= 1
  {
  }

  lemma NotOnTouchedLine(g: Geo, x: string, v: string, p: Place)
    requires SilentBlock(g) && Reads(LIMIT_RATE_LINE, p.parts)
    requires LastLine(g.before + g.header) + (g.body + "}") == x + v && LineTerminated(x)
    ensures v + g.after != Concat(p.parts) + p.after
  {
    if v + g.after == Concat(p.parts) + p.after {
      DirectiveHasNoNewline(p.parts);
      TouchedFrom(g, x, v, Concat(p.parts), p.after);
      DirectiveIsMatched(p.parts, FirstLine(p.after));
      FilterMembers(Speaks, TouchedLines(g));
    }
  }

  /** The opening holds no semicolon, so that no directive ends in it. */
  lemma NotInOpening(g: Geo, p: Place)
    requires IsHeader(g.header) && Reads(LIMIT_RATE_LINE, p.parts) && g.Whole() == p.Whole()
    ensures var n := |p.before| + |Concat(p.parts)|; n <= |g.before| || |g.before + g.header| < n
  {
    hide Concat, Reads, IsHeader;
    HeaderFacts(g.header);
    DirectiveHasNoNewline(p.parts);
    var s, t, n := g.Whole(), Concat(p.parts), |p.before| + |Concat(p.parts)|;
    assert s[n - 1] == t[|t| - 1];
    assert forall i :: |g.before| <= i < |g.before + g.header| ==> s[i] == g.header[i - |g.before|];
  }

  lemma NotFromOpening(g: Geo, p: Place)
    requires IsFirst(p) && g.Whole() == p.Whole() && SilentBlock(g) && |p.before| <= |g.before + g.header|
    ensures |p.before| + |Concat(p.parts)| <= |g.before + g.header|
  {
    hide Concat, Reads, SilentBlock, LastLine, FullLines, Filter;
    var s, t, h, b := g.Whole(), Concat(p.parts), g.before + g.header, g.body + "}";
    var a := |p.before|;
    if |h| < a + |t| {
      var u := t[..|h| - a];
      WholeIs(g);
      DirectiveHasNoNewline(p.parts);
      assert h == s[..|h|] == p.before + u;
      LastLineAfter(p.before, u);
      LastLineOfOne(u);
      assert s[a..] == t + p.after && s[a..] == (u + b) + g.after;
      NotOnTouchedLine(g, "", u + b, p);
    }
  }

  lemma NotFromBody(g: Geo, p: Place)
    requires IsFirst(p) && g.Whole() == p.Whole() && SilentBlock(g) && |g.before + g.header| < |p.before|
    ensures |g.before| + |g.Block()| <= |p.before|
  {
    hide Concat, Reads, SilentBlock, LastLine, FullLines, Filter;
    var s, t, h, b := g.Whole(), Concat(p.parts), g.before + g.header, g.body + "}";
    var n := |p.before| - |h|;
    if n < |b| {
      WholeIs(g);
      var l, w, v := LastLine(h), b[..n], b[n..];
      assert p.before == s[..|p.before|] == h + w;
      assert l + b == (l + w) + v;
      assert s[|p.before|..] == t + p.after && s[|p.before|..] == v + g.after;
      NotOnTouchedLine(g, l + w, v, p);
    }
  }

  /** A directive that is on no line the block's body touches is apart from the block. */
  lemma SilentIsApart(p: Place, g: Geo)
    requires IsFirst(p) && IsHeader(g.header) && g.Whole() == p.Whole() && SilentBlock(g)
    ensures Apart(p, g)
  {
    hide Concat, Reads, IsHeader, SilentBlock;
    NotInOpening(g, p);
    if |p.before| <= |g.before + g.header| { NotFromOpening(g, p); } else { NotFromBody(g, p); }
  }

  /** Where the first directive is after the block is rewritten. */
  lemma DirectiveAfterRewrite(g: Geo, os: seq<Override>, p: Place) returns (q: Place)
    requires IsGeo(g) && SilentBlock(g) && forall o :: o in os ==> EntryIP(o.ip)
    requires IsFirst(p) && g.Whole() == p.Whole()
    ensures var r := Rewritten(g, os);
            && FindLimitRate(r.Whole()) == Some(q) && IsFirst(q) && r.Whole() == q.Whole()
            && q.parts == p.parts && Apart(q, r)
            && (|p.before| + |Concat(p.parts)| <= |g.before| ==>
                  q.before == p.before && |q.before| + |Concat(q.parts)| <= |r.before|)
            && (|g.before| + |g.Block()| <= |p.before| ==> q.after == p.after && |r.before| + |r.Block()| <= |q.before|)
  {
    hide Lines, Concat, FindLimitRate, FindGeo, SilentBlock;
    var r := Rewritten(g, os);
    var n := |p.before| + |Concat(p.parts)|;
    SilentIsApart(p, g);
    if n <= |g.before| {
      var y := g.before[n..];
      q := p.(after := y + (r.Block() + r.after));
      DirectiveInFront(g, p, y);
      DirectiveInFront(r, q, y);
      FindLimitRateIs(q);
    } else {
      q := DirectiveBehind(g, os, p);
    }
  }

  /** A rewrite quotes no directive in front of the first one that was not quoted there before. */
  lemma RewriteQuotesNothing(g: Geo, os: seq<Override>, p: Place, q: Place, t: string)
    requires IsGeo(g) && forall o :: o in os ==> EntryIP(o.ip)
    requires g.Whole() == p.Whole() && Rewritten(g, os).Whole() == q.Whole() && q.parts == p.parts && Apart(p, g)
    requires LineTerminated(p.before)
    requires |p.before| + |Concat(p.parts)| <= |g.before| ==> q.before == p.before
    requires |g.before| + |g.Block()| <= |p.before| ==> q.after == p.after
    requires '\n' !in t && 'l' in t && Contains(q.before, t)
    ensures Contains(p.before, t)
  {
    hide Contains, Concat, IsGeo;
    if |p.before| + |Concat(p.parts)| > |g.before| {
      var z := SplitBehind(g, p);
      var h := g.(after := z);
      var tail := Concat(p.parts) + p.after;
      var r := Rewritten(h, os);
      Assoc(r.before + r.Block(), z, tail);
      DropTail(q.before, r.Whole(), tail);
      RewriteBringsNothing(h, os, t);
    }
  }

  lemma DropTail(a: string, b: string, y: string)
    requires a + y == b + y
    ensures a == b
  {
    assert |a| == |b|;
    assert (a + y)[..|a|] == a && (b + y)[..|b|] == b;
  }

  /** Rewriting the block keeps the first directive where it is, relative to the block. */
  lemma DirectiveStaysPlaced(g: Geo, os: seq<Override>)
    requires IsGeo(g) && SilentBlock(g) && forall o :: o in os ==> EntryIP(o.ip)
    requires DirectivePlaced(g.Whole())
    ensures DirectivePlaced(Rewritten(g, os).Whole())
    ensures FindLimitRate(Rewritten(g, os).Whole()).Some? <==> FindLimitRate(g.Whole()).Some?
    ensures FindLimitRate(g.Whole()).Some? ==>
              FindLimitRate(Rewritten(g, os).Whole()).value.parts == FindLimitRate(g.Whole()).value.parts
    ensures Unquoted(g.Whole()) ==> Unquoted(Rewritten(g, os).Whole())
  {
    hide Lines, Concat, FindLimitRate, FindGeo, SilentBlock, Contains;
    var s, r := g.Whole(), Rewritten(g, os);
    FindGeoIs(g);
    RewrittenIsGeo(g, os);
    FindGeoIs(r);
    RewriteKeepsSpeaking(g, os);
    SameDirective(r.Whole(), s);
    if FindLimitRate(s).Some? {
      FindLimitRateFound(s);
      var p := FindLimitRate(s).value;
      SilentIsApart(p, g);
      var q := DirectiveAfterRewrite(g, os, p);
      DirectiveSpelling(p.parts);
      if Contains(q.before, Concat(p.parts)) { RewriteQuotesNothing(g, os, p, q, Concat(p.parts)); }
    }
  }

  lemma DirectiveInFront(g: Geo, p: Place, y: string)
    requires || p.before + (Concat(p.parts) + y) == g.before
             || (g.Whole() == p.Whole() && |p.before| + |Concat(p.parts)| <= |g.before| &&
                 y == g.before[|p.before| + |Concat(p.parts)|..])
    ensures g.before == p.before + (Concat(p.parts) + y)
    ensures g.Whole() == p.before + (Concat(p.parts) + (y + (g.Block() + g.after)))
  {
    var t := Concat(p.parts);
    var n := |p.before| + |t|;
    if g.Whole() == p.Whole() && n <= |g.before| && y == g.before[n..] {
      assert g.before[..n] == g.Whole()[..n] == p.Whole()[..n] == p.before + t;
      assert g.before == g.before[..n] + y;
      Assoc(p.before, t, y);
    }
    Assoc(t, y, g.Block() + g.after);
    Assoc(p.before, t + y, g.Block() + g.after);
    Assoc(g.before, g.Block(), g.after);
  }

  /** A directive behind the block splits what follows the block. */
  lemma SplitBehind(g: Geo, p: Place) returns (z: string)
    requires g.Whole() == p.Whole() && LineTerminated(p.before)
    requires |g.before| + |g.Block()| <= |p.before|
    ensures p.before == g.(after := z).Whole()
    ensures g.after == z + (Concat(p.parts) + p.after)
    ensures z != "" && LineTerminated(z)
  {
    var x, tail := g.before + g.Block(), Concat(p.parts) + p.after;
    var n := |x|;
    z := p.before[n..];
    assert g.Whole()[..n] == x && g.Whole()[n..] == g.after;
    assert p.before[..n] == p.Whole()[..n];
    assert p.before == x + z;
    assert p.Whole()[n..] == z + tail;
    assert x[n - 1] == g.Block()[|g.Block()| - 1] == '}';
  }

  lemma DirectiveBehind(g: Geo, os: seq<Override>, p: Place) returns (q: Place)
    requires IsGeo(g) && SilentBlock(g) && forall o :: o in os ==> EntryIP(o.ip)
    requires IsFirst(p) && g.Whole() == p.Whole()
    requires |g.before| + |g.Block()| <= |p.before|
    ensures var r := Rewritten(g, os);
            && FindLimitRate(r.Whole()) == Some(q) && IsFirst(q) && r.Whole() == q.Whole()
            && q.parts == p.parts && q.after == p.after && |r.before| + |r.Block()| <= |q.before|
  {
    hide Concat, FindLimitRate;
    var z := SplitBehind(g, p);
    var h := g.(after := z);
    var r := Rewritten(h, os);
    FirstLineOfTerminated(z, Concat(p.parts) + p.after);
    RewriteKeepsSilence(h, os);
    LineTerminatedTail(r.before + r.Block(), z);
    q := Place(r.Whole(), p.parts, p.after);
    FindLimitRateIs(q);
    Assoc(r.before + r.Block(), z, Concat(p.parts) + p.after);
  }

  /** Rewriting the block of a line-terminated text without directives brings none in. */
  lemma RewriteKeepsSilence(g: Geo, os: seq<Override>)
    requires SilentBlock(g) && forall o :: o in os ==> EntryIP(o.ip)
    requires LineTerminated(g.Whole()) && Filter(HoldsRate, FullLines(g.Whole())) == []
    ensures Filter(HoldsRate, FullLines(Rewritten(g, os).Whole())) == []
  {
    var s, t := g.Whole(), Rewritten(g, os).Whole();
    RewriteKeepsSpeaking(g, os);
    AllLinesSilent(s);
    SilenceOfSpeaking(s, t);
    FullLinesFiltered(t);
  }

  lemma SilenceOfSpeaking(s: string, t: string)
    requires Speaking(s) == Speaking(t)
    ensures Filter(HoldsRate, Lines(s)) == Filter(HoldsRate, Lines(t))
  {
    hide Lines, Filter;
    FilterFilter(HoldsRate, Speaks, Lines(s));
    FilterFilter(HoldsRate, Speaks, Lines(t));
  }

  lemma AllLinesSilent(s: string)
    requires LineTerminated(s) && Filter(HoldsRate, FullLines(s)) == []
    ensures Filter(HoldsRate, Lines(s)) == []
  {
    hide Lines, Filter;
    LastLineOfTerminated(s);
    EmptyIsSilent();
    FilterSnoc(HoldsRate, FullLines(s), "");
    assert Lines(s) == FullLines(s) + [""];
  }

  lemma DirectiveSpelling(parts: seq<string>)
    requires Reads(LIMIT_RATE_LINE, parts)
    ensures '\n' !in Concat(parts) && 'l' in Concat(parts)
  {
    DirectiveHasNoNewline(parts);
    assert LIMIT_RATE_LINE[1].Fits(parts[1]);
    assert 'l' in parts[1] by { assert parts[1][0] == 'l'; }
    CharInConcat(parts, 1, 'l');
  }

  lemma LineTerminatedTail(x: string, z: string)
    requires z != "" && LineTerminated(z)
    ensures LineTerminated(x + z)
  {
  }

  lemma FullLinesFiltered(s: string)
    requires Filter(HoldsRate, Lines(s)) == []
    ensures Filter(HoldsRate, FullLines(s)) == []
  {
    var ls := Lines(s);
    assert ls == FullLines(s) + [LastLine(s)];
    FilterConcat(HoldsRate, FullLines(s), [LastLine(s)]);
  }

  lemma UnmanagedRoundTrip(d: Doc)
    requires WellFormed(d) && !d.hasManaged
    requires FindGeo(d.Merged()).Some? && |BlockOf(d).before| >= |d.preManaged|
    ensures ParseDoc(NewPost(d)) == Ok(Reread(d))
    ensures WellFormed(Reread(d))
  {
    var g := BlockOf(d);
    BeforeSplits(d);
    assert d.preManaged + NewPost(d) == NewPost(d) && d.Merged() == d.postManaged;
    assert "" + NewPost(d) == NewPost(d);
    NewPostHasNoMarkers(d);
    NotManaged(NewPost(d));
    NoRateNoEntry(d.overrides);
    UserPartIsReread(d, Split("", None, NewPost(d)), "", "");
    UserTextIsReread(d, "");
    DirectiveStaysPlaced(g, d.overrides);
    RewriteKeepsSpeaking(g, d.overrides);
    SameSpeaking(NewPost(d), d.postManaged);
    CarryingIsGood(d.overrides);
    CarryingMembers(d.overrides);
    assert Reread(d).Merged() == NewPost(d);
  }

  lemma PrintedIsReread(d: Doc)
    requires WellFormed(d)
    ensures FindGeo(d.Merged()).Some? && |BlockOf(d).before| >= |d.preManaged|
    ensures Emit(d).Ok? && ParseDoc(Emit(d).value) == Ok(Reread(d)) && WellFormed(Reread(d))
  {
    EmitPrints(d);
    if d.hasManaged { ManagedRoundTrip(d); } else { UnmanagedRoundTrip(d); }
  }

  /**
   * Printing a well-formed document and reading it back gives the same document, with exactly
   * the rules that carry something, and again well formed.
   */
  lemma PrintThenParse(d: Doc)
    requires WellFormed(d)
    ensures Emit(d).Ok? && ParseDoc(Emit(d).value).Ok?
    ensures var d' := ParseDoc(Emit(d).value).value;
            && WellFormed(d')
            && d' == d.(overrides := Carrying(d.overrides), postManaged := d'.postManaged)
  {
    PrintedIsReread(d);
  }
}

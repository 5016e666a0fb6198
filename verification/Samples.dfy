/** Files of the stock file's shape: they are well formed, so the theorems speak about something. */
module Samples {
  import opened Wrappers
  import opened Lists
  import opened Text
  import opened Regex
  import opened Patterns
  import opened Overrides
  import opened Document
  import opened PrintedLines
  import opened ManagedRead
  import opened Directives
  import opened UserText
  import opened RoundTrip
  import opened Edits
  import opened Endpoints
  import opened Nginx
  import opened Meaning
  import opened Acceptance
  import opened Rewrite
  import opened Exemption

  // ---- The shape: the block, some lines, the directive ----

  const OPENING := "geo" + (" " + ("$rate_limit" + (" " + "{")))

  function DirectiveParts(value: string): seq<string> {
    ["", LIMIT_RATE, " ", value, "", ";"]
  }

  function DirectiveText(value: string): string {
    LIMIT_RATE + (" " + (value + ";"))
  }

  function FrontLines(entries: seq<string>, middle: seq<string>): seq<string> {
    [OPENING] + entries + ["}"] + middle
  }

  /** A file with these lines in the block, these after it, and the directive last. */
  function Sample(entries: seq<string>, middle: seq<string>, value: string): string {
    Terminated(FrontLines(entries, middle) + [DirectiveText(value)])
  }

  function SampleBody(entries: seq<string>): string {
    "\n" + Terminated(entries)
  }

  function SampleGeo(entries: seq<string>, middle: seq<string>, value: string): Geo {
    Geo("", OPENING, SampleBody(entries), "\n" + Terminated(middle + [DirectiveText(value)]))
  }

  function SamplePlace(entries: seq<string>, middle: seq<string>, value: string): Place {
    Place(Terminated(FrontLines(entries, middle)), DirectiveParts(value), "\n")
  }

  /** Lines that make a well-formed file of this shape. */
  predicate GoodLines(entries: seq<string>, middle: seq<string>) {
    && (forall l :: l in entries ==> '\n' !in l && '}' !in l && !Speaks(l) && !Contains(l, END_MARKER))
    && (forall l :: l in middle ==> '\n' !in l && !HoldsRate(l) && !Contains(l, END_MARKER))
  }

  lemma PartsOfDirective(value: string)
    requires Token(value)
    ensures Reads(LIMIT_RATE_LINE, DirectiveParts(value)) && Concat(DirectiveParts(value)) == DirectiveText(value)
    ensures '\n' !in DirectiveText(value) && DirectiveText(value) != ""
  {
    ConcatSix("", LIMIT_RATE, " ", value, "", ";");
    assert "" + ";" == ";" && "" + (LIMIT_RATE + (" " + (value + ";"))) == DirectiveText(value);
    DirectiveHasNoNewline(DirectiveParts(value));
  }

  lemma OpeningIsHeader()
    ensures IsHeader(OPENING)
  {
    HeaderFrom(" ", " ");
  }

  lemma OpeningIsLine(c: char)
    requires c == '\n' || c == '#' || c == '='
    ensures c !in OPENING
  {
    assert c !in "geo" && c !in " " && c !in "$rate_limit" && c !in "{";
    AbsentFromConcat(c, " ", "{");
    AbsentFromConcat(c, "$rate_limit", " " + "{");
    AbsentFromConcat(c, " ", "$rate_limit" + (" " + "{"));
    AbsentFromConcat(c, "geo", " " + ("$rate_limit" + (" " + "{")));
  }

  lemma OpeningIsPlain()
    ensures Contains(OPENING, ACL_TEXT)
  {
    hide Contains;
    Assoc(" ", "$rate_limit", " " + "{");
    Assoc("geo", " " + "$rate_limit", " " + "{");
    assert "geo" + (" " + "$rate_limit") == ACL_TEXT;
    ContainsWhole(ACL_TEXT);
    ContainsWithin("", ACL_TEXT, " " + "{", ACL_TEXT);
    assert "" + ACL_TEXT == ACL_TEXT;
  }

  lemma OpeningIsSilentLine()
    ensures OPENING != "" && !Speaks(OPENING) && !Speaks("}")
  {
    hide Speaks;
    OpeningIsHeader();
    HeaderFacts(OPENING);
    hide IsHeader;
    HeadIsSilent(OPENING);
    HeadIsSilent("}");
  }

  lemma SampleIsGeo(entries: seq<string>, middle: seq<string>, value: string)
    requires forall l :: l in entries ==> '}' !in l
    ensures IsGeo(SampleGeo(entries, middle, value))
    ensures SampleGeo(entries, middle, value).Whole() == Sample(entries, middle, value)
  {
    OpeningIsHeader();
    HeaderFreeEmpty();
    AbsentFromTerminated(entries, '}');
    GeoOfLines(OPENING, entries, middle + [DirectiveText(value)]);
    assert FrontLines(entries, middle) + [DirectiveText(value)]
           == [OPENING] + (entries + (["}"] + (middle + [DirectiveText(value)])));
  }

  lemma GeoOfLines(h: string, entries: seq<string>, rest: seq<string>)
    ensures Terminated([h] + (entries + (["}"] + rest)))
            == Geo("", h, "\n" + Terminated(entries), "\n" + Terminated(rest)).Whole()
  {
    TerminatedCons("}", rest);
    TerminatedConcat(entries, ["}"] + rest);
    TerminatedCons(h, entries + (["}"] + rest));
    GeoPieces(h, Terminated(entries), Terminated(rest));
  }

  lemma GeoPieces(h: string, body: string, rest: string)
    ensures Geo("", h, "\n" + body, "\n" + rest).Whole() == h + ("\n" + (body + ("}" + ("\n" + rest))))
  {
    WholeShape(Geo("", h, "\n" + body, "\n" + rest));
    Assoc("\n", body, "}" + ("\n" + rest));
    assert "" + h == h;
  }

  lemma SampleIsPlace(entries: seq<string>, middle: seq<string>, value: string)
    requires Token(value) && GoodLines(entries, middle)
    ensures IsFirst(SamplePlace(entries, middle, value))
    ensures SamplePlace(entries, middle, value).Whole() == Sample(entries, middle, value)
  {
    var front := FrontLines(entries, middle);
    PartsOfDirective(value);
    SilentFront(entries, middle);
    FrontIsSilent(front);
    hide Terminated, DirectiveText, Reads, Concat, FullLines, GoodLines, FrontLines, Filter;
    TerminatedSnoc(front, DirectiveText(value));
  }

  lemma SilentFront(entries: seq<string>, middle: seq<string>)
    requires GoodLines(entries, middle)
    ensures forall l :: l in FrontLines(entries, middle) ==> '\n' !in l && !HoldsRate(l)
  {
    hide Contains, MatchLimitRate, MatchLimitConn, OPENING;
    OpeningIsSilentLine();
    OpeningIsLine('\n');
    assert '\n' !in "}";
  }

  lemma TerminatedSnoc(ls: seq<string>, l: string)
    ensures Terminated(ls + [l]) == Terminated(ls) + (l + "\n")
  {
    assert (ls + [l])[..|ls|] == ls;
    Assoc(Terminated(ls), l, "\n");
  }

  lemma FrontIsSilent(ls: seq<string>)
    requires NoNewlines(ls) && forall l :: l in ls ==> !HoldsRate(l)
    ensures LineTerminated(Terminated(ls)) && Filter(HoldsRate, FullLines(Terminated(ls))) == []
  {
    hide HoldsRate;
    TerminatedIsLineTerminated(ls);
    TerminatedLines(ls, "");
    assert Terminated(ls) + "" == Terminated(ls);
    assert FullLines(Terminated(ls)) == ls;
    FilterNothing(HoldsRate, ls);
  }

  lemma SampleIsSilent(entries: seq<string>, middle: seq<string>, value: string)
    requires GoodLines(entries, middle)
    ensures SilentBlock(SampleGeo(entries, middle, value))
  {
    hide Speaks, Terminated, DirectiveText;
    OpeningIsSilentLine();
    OpeningIsLine('\n');
    LinesTouched(OPENING, entries, Terminated(middle + [DirectiveText(value)]));
    FilterNothing(Speaks, [OPENING] + entries + ["}"]);
  }

  lemma LinesTouched(h: string, entries: seq<string>, rest: string)
    requires '\n' !in h && NoNewlines(entries)
    ensures TouchedLines(Geo("", h, "\n" + Terminated(entries), "\n" + rest)) == [h] + entries + ["}"]
  {
    hide Terminated;
    OneLine(h);
    assert "" + h == h;
    LinesAcrossNewline("", rest);
    assert "" + "\n" + rest == "\n" + rest;
    TouchedByNewBody(h, entries, "");
    assert "}" + "" == "}";
  }

  lemma SampleHasNoMarker(entries: seq<string>, middle: seq<string>, value: string)
    requires GoodLines(entries, middle) && '#' !in value
    ensures !Contains(Sample(entries, middle, value), END_MARKER)
  {
    hide Terminated, Contains;
    var ls := FrontLines(entries, middle) + [DirectiveText(value)];
    OpeningIsLine('#');
    assert '#' !in LIMIT_RATE && '#' !in "}";
    AbsentFromConcat('#', value, ";");
    AbsentFromConcat('#', " ", value + ";");
    AbsentFromConcat('#', LIMIT_RATE, " " + (value + ";"));
    NoMarkerInLines(ls);
  }

  lemma NoMarkerInLines(ls: seq<string>)
    requires forall l :: l in ls ==> '#' !in l || !Contains(l, END_MARKER)
    ensures !Contains(Terminated(ls), END_MARKER)
  {
    hide Terminated, Contains;
    MarkersAreMarkers();
    HashIn(END_MARKER);
    assert Terminated(ls) + "" == Terminated(ls);
    forall l | l in ls ensures !Contains(l, END_MARKER) {
      if Contains(l, END_MARKER) { ContainsChar(l, END_MARKER, '#'); }
    }
    if Contains(Terminated(ls), END_MARKER) { ContainedInTerminated(ls, "", END_MARKER); }
  }

  lemma HashIn(m: string)
    requires IsMarker(m)
    ensures '#' in m && !Contains("", m)
  {
    assert m[0] == '#';
  }

  /** What the sample says, with the doc read from it. */
  lemma SampleIsRead(entries: seq<string>, middle: seq<string>, value: string) returns (d: Doc)
    requires GlobalToken(value) && GoodLines(entries, middle) && '#' !in value
    ensures ParseDoc(Sample(entries, middle, value)) == Ok(d) && WellFormedFile(Sample(entries, middle, value))
    ensures !d.hasManaged && d.preManaged == "" && d.postManaged == d.Merged() == Sample(entries, middle, value)
    ensures FindGeo(d.Merged()) == Some(SampleGeo(entries, middle, value)) && SilentBlock(SampleGeo(entries, middle, value))
    ensures FindLimitRate(d.Merged()) == Some(SamplePlace(entries, middle, value))
    ensures d.overrides == SortByIP(ExemptsFrom(Entries(Lines(SampleBody(entries))), []))
    ensures value != EFFECTIVE_RATE_VAR ==> d.global == value
  {
    hide Contains, FindLimitRate, FindGeo, SilentBlock, Entries, SortByIP, Terminated, Lines, FirstRate, ConnLimitOf;
    hide ExemptsFrom, IsFirst;
    var s := Sample(entries, middle, value);
    SampleIsGeo(entries, middle, value);
    SampleIsPlace(entries, middle, value);
    SampleIsSilent(entries, middle, value);
    SampleHasNoMarker(entries, middle, value);
    FindGeoIs(SampleGeo(entries, middle, value));
    FindLimitRateIs(SamplePlace(entries, middle, value));
    NotManaged(s);
    d := ParseUser(Split("", None, s), [], "");
    assert "" + s == s;
    SampleLayout(entries, middle, value);
    RateAroundDirective(SamplePlace(entries, middle, value));
  }

  /** The directive is behind the block. */
  lemma SampleLayout(entries: seq<string>, middle: seq<string>, value: string)
    ensures |SampleGeo(entries, middle, value).Block()| <= |Terminated(FrontLines(entries, middle))|
  {
    hide Terminated, OPENING;
    TerminatedConcat([OPENING] + entries, ["}"] + middle);
    TerminatedCons(OPENING, entries);
    TerminatedCons("}", middle);
    assert FrontLines(entries, middle) == ([OPENING] + entries) + (["}"] + middle);
  }

  // ---- The stock file ----

  /** No character that starts a comment or appears in the stock rate only. */
  predicate Clean(m: string) {
    '\n' !in m && '#' !in m && '5' !in m
  }

  /** A line the first directive is not on, and that quotes nothing of it. */
  predicate Ordinary(l: string) {
    Clean(l) && !HoldsRate(l) && !Contains(l, END_MARKER)
  }

  lemma CleanHasNoMarker(l: string)
    requires Clean(l)
    ensures !Contains(l, END_MARKER)
  {
    MarkersAreMarkers();
    HashIn(END_MARKER);
    if Contains(l, END_MARKER) { ContainsChar(l, END_MARKER, '#'); }
  }

  lemma IndentedIsOrdinary(m: string)
    requires m != "" && Trimmed(m) && m[0] != 'l' && Clean(m)
    ensures Ordinary(INDENT + m) && !Speaks(INDENT + m)
  {
    IndentedIsSilent(m);
    CleanHasNoMarker(INDENT + m);
  }

  lemma HeadIsOrdinary(m: string)
    requires m != "" && !Is(Space, m[0]) && m[0] != 'l' && Clean(m)
    ensures Ordinary(m)
  {
    HeadIsSilent(m);
    CleanHasNoMarker(m);
  }

  lemma NoRateHere(l: string)
    requires l != "" && !Is(Blank, l[0]) && !(LIMIT_RATE <= l)
    ensures !HoldsRate(l)
  {
    RunIs(Blank, "", l);
    assert "" + l == l;
    var p := LIMIT_RATE_LINE;
    assert Take(p[0], l) == Some(("", l));
    assert p[1..][0] == Lit(LIMIT_RATE);
    assert Match(p[1..], l).None?;
  }

  lemma PrefixAgrees(p: string, s: string, i: nat)
    requires i < |p| && i < |s|
    ensures p <= s ==> s[i] == p[i]
  {
  }

  lemma CleanConcat(a: string, b: string)
    requires Clean(a) && Clean(b)
    ensures Clean(a + b)
  {
  }

  lemma ConnIsOrdinary(rest: string)
    requires Clean(rest)
    ensures Ordinary(LIMIT_CONN + rest)
  {
    var m := LIMIT_CONN + rest;
    CleanConcat(LIMIT_CONN, rest);
    assert LIMIT_RATE[6] == 'r' && LIMIT_CONN[6] == 'c' && LIMIT_CONN[0] == 'l';
    assert m[0] == 'l' && m[6] == 'c';
    hide Clean;
    PrefixAgrees(LIMIT_RATE, m, 6);
    NoRateHere(m);
    CleanHasNoMarker(m);
  }

  lemma DefaultIsKept(rest: string)
    requires rest != "" && !Is(Space, rest[|rest| - 1]) && Clean(rest)
    ensures IsKept(INDENT + (DEFAULT_KEY + rest)) && Ordinary(INDENT + (DEFAULT_KEY + rest)) && !Speaks(INDENT + (DEFAULT_KEY + rest))
  {
    assert Clean(DEFAULT_KEY);
    CleanConcat(DEFAULT_KEY, rest);
    hide Clean, Ordinary, Speaks, TrimSpace;
    var m := DEFAULT_KEY + rest;
    assert m[0] == 'd' && m[..7] == DEFAULT_KEY;
    IndentedIsTrimmed(m);
    IndentedIsOrdinary(m);
  }

  lemma ShortEntry(ip: string)
    requires EntryIP(ip) && '5' !in ip
    ensures var m := ip + (" " + ("0" + ";"));
            && m != "" && Trimmed(m) && m[0] != 'l' && Clean(m)
            && |m| > |ip| && m[..|ip|] == ip && m[|ip|] == ' '
  {
    var m := ip + (" " + ("0" + ";"));
    assert Is(IPChar, ip[0]) && m[0] == ip[0] && m[|m| - 1] == ';';
    assert forall c :: c in ip ==> Is(IPChar, c);
  }

  lemma ExemptIsRead(ip: string)
    requires EntryIP(ip) && '5' !in ip
    ensures var l := INDENT + (ip + (" " + ("0" + ";")));
            EntryOf(l) == Some((ip, "0")) && Ordinary(l) && !Speaks(l)
  {
    hide Ordinary, Speaks, Clean, MatchEntry, TrimSpace;
    var m := ip + (" " + ("0" + ";"));
    EntryIsRead(ip, " ", "0");
    ShortEntry(ip);
    NotDefault(ip, m);
    IndentedIsTrimmed(m);
    IndentedIsOrdinary(m);
  }

  const STOCK_ADDRESS := "10.0.0.1"
  const DEFAULT_LINE := INDENT + (DEFAULT_KEY + " 1;")
  const EXEMPT_LINE := INDENT + (STOCK_ADDRESS + (" " + ("0" + ";")))
  const STOCK_ENTRIES := [DEFAULT_LINE, EXEMPT_LINE]
  const MAP_LINE := "map $rate_limit $limit_key {"
  const NO_KEY_LINE := INDENT + "0 \"\";"
  const KEY_LINE := INDENT + ("1 $binary" + "_remote_addr;")
  const LIMIT_CONN := "limit_conn"
  const ZONE_LINE := LIMIT_CONN + ("_zone $limit_key" + " zone=perip:10m;")
  const CONN_LINE := LIMIT_CONN + " perip 10;"
  const STOCK_MIDDLE := ["", MAP_LINE, NO_KEY_LINE, KEY_LINE, "}", "", ZONE_LINE, CONN_LINE]
  const STOCK_FILE := Sample(STOCK_ENTRIES, STOCK_MIDDLE, "2500k")

  lemma EntriesAreOrdinary()
    ensures IsKept(DEFAULT_LINE) && Ordinary(DEFAULT_LINE) && !Speaks(DEFAULT_LINE)
    ensures EntryOf(EXEMPT_LINE) == Some((STOCK_ADDRESS, "0")) && Ordinary(EXEMPT_LINE) && !Speaks(EXEMPT_LINE)
  {
    hide IsKept, Ordinary, Speaks, EntryOf;
    DefaultIsKept(" 1;");
    ExemptIsRead(STOCK_ADDRESS);
  }

  lemma EntriesHaveNoBrace()
    ensures '}' !in DEFAULT_LINE && '}' !in EXEMPT_LINE
  {
    assert '}' !in INDENT && '}' !in DEFAULT_KEY && '}' !in " 1;" && '}' !in STOCK_ADDRESS;
    AbsentFromConcat('}', DEFAULT_KEY, " 1;");
    AbsentFromConcat('}', INDENT, DEFAULT_KEY + " 1;");
    AbsentFromConcat('}', "0", ";");
    AbsentFromConcat('}', " ", "0" + ";");
    AbsentFromConcat('}', STOCK_ADDRESS, " " + ("0" + ";"));
    AbsentFromConcat('}', INDENT, STOCK_ADDRESS + (" " + ("0" + ";")));
  }

  lemma MapIsOrdinary()
    ensures Ordinary(MAP_LINE)
  {
    hide Ordinary;
    HeadIsOrdinary(MAP_LINE);
  }

  lemma NoKeyIsOrdinary()
    ensures Ordinary(NO_KEY_LINE)
  {
    hide Ordinary;
    IndentedIsOrdinary("0 \"\";");
  }

  lemma KeyIsOrdinary()
    ensures Ordinary(KEY_LINE)
  {
    var a, b := "1 $binary", "_remote_addr;";
    assert Clean(a) && Clean(b) && a[0] == '1' && b[|b| - 1] == ';';
    hide Ordinary, Clean;
    CleanConcat(a, b);
    TrimmedConcat(a, b);
    IndentedIsOrdinary(a + b);
  }

  lemma TrimmedConcat(a: string, b: string)
    requires a != "" && b != "" && !Is(Space, a[0]) && !Is(Space, b[|b| - 1])
    ensures Trimmed(a + b) && (a + b)[0] == a[0]
  {
  }

  lemma ZoneIsOrdinary()
    ensures Ordinary(ZONE_LINE)
  {
    assert Clean("_zone $limit_key") && Clean(" zone=perip:10m;");
    hide Ordinary, Clean;
    CleanConcat("_zone $limit_key", " zone=perip:10m;");
    ConnIsOrdinary("_zone $limit_key" + " zone=perip:10m;");
  }

  lemma ConnLineIsOrdinary()
    ensures Ordinary(CONN_LINE)
  {
    hide Ordinary;
    ConnIsOrdinary(" perip 10;");
  }

  lemma EdgesAreOrdinary()
    ensures Ordinary("") && Ordinary("}")
  {
    EmptyIsSilent();
    CleanHasNoMarker("");
    HeadIsOrdinary("}");
  }

  lemma EightOrdinary(a: string, b: string, c: string, d: string, e: string, f: string, g: string, h: string)
    requires Ordinary(a) && Ordinary(b) && Ordinary(c) && Ordinary(d) && Ordinary(e) && Ordinary(f) && Ordinary(g) && Ordinary(h)
    ensures forall l :: l in [a, b, c, d, e, f, g, h] ==> Ordinary(l)
  {
    hide Ordinary;
  }

  lemma TwoEntries(a: string, b: string)
    requires Ordinary(a) && '}' !in a && !Speaks(a) && Ordinary(b) && '}' !in b && !Speaks(b)
    ensures forall l :: l in [a, b] ==> Ordinary(l) && '}' !in l && !Speaks(l)
  {
    hide Ordinary, Speaks;
  }

  lemma OrdinaryAreGood(entries: seq<string>, middle: seq<string>)
    requires forall l :: l in entries ==> Ordinary(l) && '}' !in l && !Speaks(l)
    requires forall l :: l in middle ==> Ordinary(l)
    ensures GoodLines(entries, middle)
  {
  }

  lemma StockLinesAreGood()
    ensures GoodLines(STOCK_ENTRIES, STOCK_MIDDLE)
    ensures forall l :: l in STOCK_ENTRIES || l in STOCK_MIDDLE ==> Ordinary(l)
  {
    hide Ordinary, Speaks, GoodLines;
    EntriesAreOrdinary();
    EntriesHaveNoBrace();
    TwoEntries(DEFAULT_LINE, EXEMPT_LINE);
    EdgesAreOrdinary();
    MapIsOrdinary();
    NoKeyIsOrdinary();
    KeyIsOrdinary();
    ZoneIsOrdinary();
    ConnLineIsOrdinary();
    EightOrdinary("", MAP_LINE, NO_KEY_LINE, KEY_LINE, "}", "", ZONE_LINE, CONN_LINE);
    OrdinaryAreGood(STOCK_ENTRIES, STOCK_MIDDLE);
  }

  lemma FiveIsNowhere(ls: seq<string>)
    requires forall l :: l in ls ==> '5' !in l
    ensures !Contains(Terminated(ls), DirectiveText("2500k"))
  {
    AbsentFromTerminated(ls, '5');
    assert "2500k"[1] == '5';
    assert '5' in DirectiveText("2500k");
    if Contains(Terminated(ls), DirectiveText("2500k")) { ContainsChar(Terminated(ls), DirectiveText("2500k"), '5'); }
  }

  lemma StockRate()
    ensures GlobalToken("2500k") && '#' !in "2500k" && "2500k" != EFFECTIVE_RATE_VAR && PlainRate("2500k")
  {
    assert EFFECTIVE_RATE_VAR[0] == '$' && OVERRIDE_VAR[0] == '$';
  }

  lemma RulesOfTwo(a: string, b: string, ip: string)
    requires '\n' !in a && '\n' !in b && EntryOf(a) == None && EntryOf(b) == Some((ip, "0"))
    ensures SortByIP(ExemptsFrom(Entries(Lines(SampleBody([a, b]))), [])) == [Override(ip, "", true)]
  {
    hide EntryOf, Lines, Terminated, SortByIP, ExemptsFrom, Entries;
    BodyLines([a, b]);
    EntriesOfTwo(a, b, (ip, "0"));
    OneExempt(ip);
  }

  lemma EntriesOfTwo(a: string, b: string, e: (string, string))
    requires EntryOf(a) == None && EntryOf(b) == Some(e)
    ensures Entries([""] + [a, b] + [""]) == [e]
  {
    hide EntryOf, Entries;
    BlankIsSkipped();
    BlankIsNoEntry();
    var one := [""] + [a];
    var two := one + [b];
    EntriesSnoc([""], a, None);
    EntriesSnoc(one, b, Some(e));
    EntriesSnoc(two, "", None);
    FourInOrder("", a, b, "");
  }

  lemma FourInOrder(a: string, b: string, c: string, d: string)
    ensures [a] + [b, c] + [d] == [a] + [b] + [c] + [d]
  {
  }

  lemma BlankIsNoEntry()
    ensures EntryOf("") == None
  {
    TrimSpaceBlank("");
  }

  lemma OneExempt(ip: string)
    ensures SortByIP(ExemptsFrom([(ip, "0")], [])) == [Override(ip, "", true)]
  {
    var es := [(ip, "0")];
    assert es[..0] == [];
    var os := [Override(ip, "", true)];
    assert ExemptsFrom(es, []) == os;
    assert os[..0] == [];
  }

  lemma OneRule(o: Override)
    requires o.Carries()
    ensures Restrict(ToMap([o])) == map[o.ip := o.AsRule()]
  {
    assert [o][1..] == [];
    assert ToMap([o]) == map[o.ip := o.AsRule()];
  }

  /**
   * The stock file is a live, recognizable file whose directive can be edited: it exempts one address and
   * limits everyone else to its directive's rate.
   */
  lemma StockFileIsLive()
    ensures LiveFile(STOCK_FILE) && Recognizable(ParseDoc(STOCK_FILE).value) && Unquoted(STOCK_FILE)
    ensures FileSettings(STOCK_FILE) == Settings(false, map[STOCK_ADDRESS := Rule("", true)], "2500k")
  {
    hide Contains, FindLimitRate, FindGeo, SilentBlock, Entries, SortByIP, ParseDoc, BlockPlaced, AroundPlaced;
    hide Ordinary, Terminated, Unquoted, GoodLines, ToMap, Restrict, PlainRate, EntryOf, ExemptsFrom, Lines;
    StockRate();
    StockLinesAreGood();
    var d := SampleIsRead(STOCK_ENTRIES, STOCK_MIDDLE, "2500k");
    StockRules();
    OpeningIsPlain();
    StockIsUnquoted();
    OneRule(Override(STOCK_ADDRESS, "", true));
  }

  lemma StockRules()
    ensures SortByIP(ExemptsFrom(Entries(Lines(SampleBody(STOCK_ENTRIES))), [])) == [Override(STOCK_ADDRESS, "", true)]
  {
    hide Ordinary, Terminated, SortByIP, ExemptsFrom, Entries, Lines;
    EntriesAreOrdinary();
    OrdinaryIsLine(DEFAULT_LINE);
    OrdinaryIsLine(EXEMPT_LINE);
    RulesOfTwo(DEFAULT_LINE, EXEMPT_LINE, STOCK_ADDRESS);
  }

  lemma OrdinaryIsLine(l: string)
    requires Ordinary(l)
    ensures '\n' !in l && '5' !in l
  {
  }

  lemma StockIsUnquoted()
    requires GoodLines(STOCK_ENTRIES, STOCK_MIDDLE)
    requires forall l :: l in STOCK_ENTRIES || l in STOCK_MIDDLE ==> Ordinary(l)
    ensures Unquoted(STOCK_FILE)
  {
    hide Contains, FindLimitRate, Terminated, HoldsRate, Speaks;
    StockRate();
    PartsOfDirective("2500k");
    SampleIsPlace(STOCK_ENTRIES, STOCK_MIDDLE, "2500k");
    FindLimitRateIs(SamplePlace(STOCK_ENTRIES, STOCK_MIDDLE, "2500k"));
    FiveInFront(STOCK_ENTRIES, STOCK_MIDDLE);
    FiveIsNowhere(FrontLines(STOCK_ENTRIES, STOCK_MIDDLE));
  }

  lemma FiveInFront(entries: seq<string>, middle: seq<string>)
    requires forall l :: l in entries || l in middle ==> Ordinary(l)
    ensures forall l :: l in FrontLines(entries, middle) ==> '5' !in l
  {
    hide HoldsRate, Contains;
    assert '5' !in OPENING && '5' !in "}";
  }

  // ---- Samples rewritten ----

  lemma DefaultLineFacts()
    ensures IsKept(DEFAULT_LINE) && EntryOf(DEFAULT_LINE) == None && IsVisible(DEFAULT_LINE) && !Speaks(DEFAULT_LINE)
    ensures '\n' !in DEFAULT_LINE && '}' !in DEFAULT_LINE && '#' !in DEFAULT_LINE && !Contains(DEFAULT_LINE, END_MARKER)
  {
    hide Speaks, HoldsRate, Contains;
    EntriesAreOrdinary();
    EntriesHaveNoBrace();
    assert DEFAULT_KEY[0] == 'd';
    VisibleDefault(DEFAULT_KEY + " 1;");
  }

  lemma VisibleDefault(m: string)
    requires m != "" && m[0] == 'd'
    ensures IsVisible(INDENT + m)
  {
    TrimSpaceBlank(INDENT + m);
    assert (INDENT + m)[4] == 'd';
  }

  lemma FilterOfTwo(a: string, b: string)
    requires IsKept(a) && !IsKept(b)
    ensures Filter(IsKept, [a, b]) == [a] && Filter(IsKept, [a]) == [a]
  {
    hide IsKept;
    assert [a, b][..1] == [a] && [a][..0] == [];
    assert Filter(IsKept, [a]) == [] + [a];
  }

  lemma FilterOfOne(a: string)
    requires IsKept(a) && IsVisible(a)
    ensures Filter(IsKept, [a]) == [a] && Tight(IsBlankLine, [a])
  {
    hide IsKept;
    assert [a][..0] == [];
    assert Filter(IsKept, [a]) == [] + [a];
  }

  lemma KeptBody(entries: seq<string>, kept: seq<string>, os: seq<Override>)
    requires NoNewlines(entries) && Filter(IsKept, entries) == kept && Tight(IsBlankLine, kept)
    ensures UserLines(SampleBody(entries)) == kept
    ensures ExemptLines(os) == [] ==> NewBody(SampleBody(entries), os) == SampleBody(kept)
  {
    hide IsKept, Terminated, Lines;
    BodyLines(entries);
    BlankIsKept();
    FilterConcat(IsKept, [""] + entries, [""]);
    FilterConcat(IsKept, [""], entries);
    FilterSnoc(IsKept, [], "");
    assert [] + [""] == [""];
    assert KeptLines(Lines(SampleBody(entries))) == [""] + kept + [""];
    TightIsTrimmed(IsBlankLine, kept, "");
    assert kept + [] == kept;
  }

  lemma BlankIsKept()
    ensures IsKept("") && IsBlankLine("")
  {
    TrimSpaceBlank("");
  }

  /** The stock file's own lines of the block give everyone "1", so it is exempting that makes a difference. */
  lemma StockDefaultIsOne(ip: string)
    ensures PlainLines(UserLines(SampleBody(STOCK_ENTRIES))) && BlockValue(NewBody(SampleBody(STOCK_ENTRIES), []), ip) == "1"
  {
    hide Ordinary, Terminated, IsKept, EntryOf, Lines, IsBlankLine, Speaks, NewBody, Parameters, Uncommented, UserLines;
    EntriesAreOrdinary();
    OrdinaryIsLine(DEFAULT_LINE);
    OrdinaryIsLine(EXEMPT_LINE);
    StockKept();
    KeptBody(STOCK_ENTRIES, [DEFAULT_LINE], []);
    DefaultLineIsParameter();
    assert PlainLine(DEFAULT_LINE);
    assert [DEFAULT_LINE][..0] == [];
    ParametersOfBody(SampleBody(STOCK_ENTRIES), [], [(DEFAULT_KEY, "1")]);
    assert [(DEFAULT_KEY, "1")] + ExemptEntries([]) == [(DEFAULT_KEY, "1")];
    DefaultsOnly([(DEFAULT_KEY, "1")], ip);
  }

  lemma StockKept()
    ensures Filter(IsKept, STOCK_ENTRIES) == [DEFAULT_LINE] && Tight(IsBlankLine, [DEFAULT_LINE]) && NoNewlines(STOCK_ENTRIES)
  {
    hide Ordinary, Speaks, EntryLine, IsBlankLine;
    EntriesAreOrdinary();
    OrdinaryIsLine(DEFAULT_LINE);
    OrdinaryIsLine(EXEMPT_LINE);
    DefaultLineFacts();
    hide IsKept;
    FilterOfTwo(DEFAULT_LINE, EXEMPT_LINE);
    FilterOfOne(DEFAULT_LINE);
  }

  lemma DefaultLineIsParameter()
    ensures IsParameterLine(DEFAULT_LINE, DEFAULT_KEY, "1") && !IsComment(DEFAULT_LINE)
    ensures StandsFor(Filter(IsNoComment, [DEFAULT_LINE]), [(DEFAULT_KEY, "1")])
  {
    hide IsComment, IsParameterLine, StandsFor;
    KeysAreTokens();
    assert " 1;" == " " + ("1" + ";");
    assert All(ReSpace, " ") && Token("1");
    PrintedIsParameter(DEFAULT_KEY, " ", "1");
    DefaultIsNoComment();
    OneStandsFor(DEFAULT_LINE, DEFAULT_KEY, "1");
    FilterSnoc(IsNoComment, [], DEFAULT_LINE);
    assert [] + [DEFAULT_LINE] == [DEFAULT_LINE];
  }

  lemma DefaultIsNoComment()
    ensures !IsComment(DEFAULT_LINE)
  {
    var m := DEFAULT_KEY + " 1;";
    assert m[0] == DEFAULT_KEY[0] == 'd';
    RunIs(ReSpace, INDENT, m);
  }
}

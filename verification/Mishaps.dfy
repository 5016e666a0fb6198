/** Files on which an accepted request does not do what it was made for. */
module Mishaps {
  import opened Wrappers
  import opened Lists
  import opened Text
  import opened Regex
  import opened Patterns
  import opened Overrides
  import opened Document
  import opened PrintedLines
  import opened ManagedRead
  import opened Rewrite
  import opened Directives
  import opened UserText
  import opened RoundTrip
  import opened Edits
  import opened Endpoints
  import opened Nginx
  import opened Meaning
  import opened Acceptance
  import opened Limits
  import opened Samples

  // ---- Samples rewritten ----

  /** A sample printed with no exempt rule keeps its comments and default lines and loses the other entries. */
  lemma SampleIsPrinted(d: Doc, entries: seq<string>, kept: seq<string>, middle: seq<string>, value: string)
    requires WellFormed(d) && !d.hasManaged && ExemptLines(d.overrides) == []
    requires FindGeo(d.Merged()) == Some(SampleGeo(entries, middle, value))
    requires NoNewlines(entries) && Filter(IsKept, entries) == kept && Tight(IsBlankLine, kept)
    requires forall l :: l in kept ==> '}' !in l
    ensures Emit(d) == Ok(Sample(kept, middle, value))
  {
    hide FindGeo, WellFormed, NewBody, IsKept, Terminated, Emit;
    EmitPrints(d);
    BeforeSplits(d);
    UnmanagedPre(d);
    KeptBody(entries, kept, d.overrides);
    assert Rewritten(SampleGeo(entries, middle, value), d.overrides) == SampleGeo(kept, middle, value);
    SampleIsGeo(kept, middle, value);
    assert "" + NewPost(d) == NewPost(d);
  }

  lemma NoEntries(a: string)
    requires '\n' !in a && EntryOf(a) == None
    ensures SortByIP(ExemptsFrom(Entries(Lines(SampleBody([a]))), [])) == []
  {
    hide EntryOf, Lines, Terminated;
    BodyLines([a]);
    BlankIsNoEntry();
    BlankIsSkipped();
    EntriesSnoc([""], a, None);
    EntriesSnoc([""] + [a], "", None);
  }

  lemma GrownBody(ip: string)
    requires |ip| < 16
    ensures NewBody(SampleBody([DEFAULT_LINE]), [Override(ip, "", true)]) == SampleBody([DEFAULT_LINE, EntryLine(ip, "0")])
    ensures |NewBody(SampleBody([DEFAULT_LINE]), [Override(ip, "", true)])| == |SampleBody([DEFAULT_LINE])| + 24
  {
    hide Terminated, Lines, Contains, IsKept, IsBlankLine;
    var o := Override(ip, "", true);
    var l := EntryLine(ip, "0");
    DefaultLineFacts();
    FilterOfOne(DEFAULT_LINE);
    KeptBody([DEFAULT_LINE], [DEFAULT_LINE], [o]);
    OneExemptLine(o);
    TerminatedSnoc([DEFAULT_LINE], l);
    assert [DEFAULT_LINE] + [l] == [DEFAULT_LINE, l];
    assert |l| == 4 + |ip| + |Gap(ip)| + 2;
  }

  lemma OneExemptLine(o: Override)
    requires o.exempt
    ensures ExemptLines([o]) == [EntryLine(o.ip, "0")]
  {
    assert [o][..0] == [];
  }

  lemma OneRuleSorted(ip: string)
    ensures SortByIP(Put([], Override(ip, "", true))) == [Override(ip, "", true)]
  {
    var o := Override(ip, "", true);
    assert Put([], o) == [o] by { assert Find([], ip) == 0; }
    assert [o][..0] == [];
    var none: seq<Override> := [];
    assert SortByIP(none) == [];
  }

  lemma VarHasNoEquals()
    ensures GlobalToken(EFFECTIVE_RATE_VAR) && '=' !in EFFECTIVE_RATE_VAR && '#' !in EFFECTIVE_RATE_VAR
  {
    EffectiveVarFacts();
    assert '}' !in EFFECTIVE_RATE_VAR;
    assert EFFECTIVE_RATE_VAR[0] == '$' && EFFECTIVE_RATE_VAR[|EFFECTIVE_RATE_VAR| - 1] == 'e';
  }

  lemma MarkerHasEquals()
    ensures '=' in END_MARKER && '\n' !in END_MARKER && '=' in BEGIN_MARKER
  {
    MarkersAreMarkers();
    assert MARKER_STEM[1] == '=';
    assert END_MARKER[2] == MARKER_STEM[1] && BEGIN_MARKER[2] == MARKER_STEM[1];
  }

  lemma OneTerminated(l: string)
    ensures Terminated([l]) == l + "\n"
  {
    assert [l][..0] == [];
  }

  // ---- A line of the block is dropped ----

  const DENY_LINE := EntryLine("10.0.0.7", "1")

  lemma DenyLineFacts()
    ensures EntryOf(DENY_LINE) == Some(("10.0.0.7", "1")) && !IsKept(DENY_LINE) && !Speaks(DENY_LINE)
    ensures '\n' !in DENY_LINE && '}' !in DENY_LINE && '#' !in DENY_LINE
  {
    hide EntryLine, EntryOf, IsKept, Speaks;
    assert EntryIP("10.0.0.7") && RateToken("1");
    EntryLineIsRead("10.0.0.7", "1");
    EntryLineIsNotKept("10.0.0.7", "1");
    EntryLineChars("10.0.0.7", "1");
    RateLineIsSilent("10.0.0.7", "1");
    DenyHasNoHash();
  }

  lemma DenyHasNoHash()
    ensures '#' !in DENY_LINE
  {
    EntryLineParts("10.0.0.7", "1");
    assert '#' !in "    " && '#' !in "10.0.0.7" && '#' !in Gap("10.0.0.7") && '#' !in "1" + ";";
    AbsentFromConcat('#', "10.0.0.7", Gap("10.0.0.7"));
    AbsentFromConcat('#', "    ", "10.0.0.7" + Gap("10.0.0.7"));
    AbsentFromConcat('#', "    " + ("10.0.0.7" + Gap("10.0.0.7")), "1" + ";");
  }

  lemma HashFreeHasNoMarker(l: string)
    requires '#' !in l
    ensures !Contains(l, BEGIN_MARKER) && !Contains(l, END_MARKER)
  {
    MarkersAreMarkers();
    HashIn(BEGIN_MARKER);
    HashIn(END_MARKER);
    if Contains(l, BEGIN_MARKER) { ContainsChar(l, BEGIN_MARKER, '#'); }
    if Contains(l, END_MARKER) { ContainsChar(l, END_MARKER, '#'); }
  }

  lemma FiveK()
    ensures GlobalToken("5k") && '#' !in "5k" && "5k" != EFFECTIVE_RATE_VAR && ValidRate("5k")
  {
    assert EFFECTIVE_RATE_VAR[0] == '$';
    assert Run(Digit, "5k").1 == "k" by { RunIs(Digit, "5", "k"); assert "5" + "k" == "5k"; }
  }

  lemma NoRules(a: string, b: string, ip: string, value: string)
    requires '\n' !in a && '\n' !in b && EntryOf(a) == None && EntryOf(b) == Some((ip, value)) && value != "0"
    ensures SortByIP(ExemptsFrom(Entries(Lines(SampleBody([a, b]))), [])) == []
  {
    hide EntryOf, Lines, Terminated, Entries;
    BodyLines([a, b]);
    EntriesOfTwo(a, b, (ip, value));
    var es := [(ip, value)];
    assert es[..0] == [];
  }

  /** A request whose edit prints a sane file is accepted when the world plays along. */
  lemma StepIs(valid: string -> bool, file: string, req: Request, w: World, d: Doc, d': Doc, out: string)
    requires ParseDoc(file) == Ok(d) && !req.SaveRaw? && EditedDoc(valid, d, req) == Ok(d') && Emit(d') == Ok(out)
    requires SanityCheck(out) && Willing(w)
    ensures Step(valid, file, req, w) == (out, true)
  {
    hide ParseDoc, EditedDoc, Emit, SanityCheck;
  }

  lemma DenyFileIsRead() returns (d: Doc)
    ensures var file := Sample([DEFAULT_LINE, DENY_LINE], [], "5k");
            ParseDoc(file) == Ok(d) && WellFormedFile(file) && WellFormed(d) && !d.hasManaged && d.overrides == []
    ensures FindGeo(d.Merged()) == Some(SampleGeo([DEFAULT_LINE, DENY_LINE], [], "5k")) && Recognizable(d)
  {
    hide IsKept, EntryOf, Speaks, Contains, FindGeo, FindLimitRate, Terminated, SortByIP, ExemptsFrom, Entries;
    hide SilentBlock, Lines;
    hide ParseDoc, WellFormedFile, WellFormed, HoldsRate, Recognizable, SampleGeo, Sample, EntryLine;
    FiveK();
    DenyLinesAreGood();
    d := SampleIsRead([DEFAULT_LINE, DENY_LINE], [], "5k");
    FileIsWellFormed(Sample([DEFAULT_LINE, DENY_LINE], [], "5k"));
    DefaultLineFacts();
    DenyLineFacts();
    NoRules(DEFAULT_LINE, DENY_LINE, "10.0.0.7", "1");
    SampleIsRecognizable(d, [DEFAULT_LINE, DENY_LINE], [], "5k");
  }

  lemma DenyLinesAreGood()
    ensures GoodLines([DEFAULT_LINE, DENY_LINE], [])
  {
    hide IsKept, EntryOf, Speaks, Contains, EntryLine;
    DefaultLineFacts();
    DenyLineFacts();
    HashFreeHasNoMarker(DENY_LINE);
  }

  lemma DenyFileIsPrinted(d: Doc)
    requires WellFormed(d) && !d.hasManaged && d.overrides == [] && Recognizable(d)
    requires FindGeo(d.Merged()) == Some(SampleGeo([DEFAULT_LINE, DENY_LINE], [], "5k"))
    ensures Emit(d) == Ok(Sample([DEFAULT_LINE], [], "5k")) && SanityCheck(Sample([DEFAULT_LINE], [], "5k"))
  {
    hide IsKept, EntryOf, Speaks, Contains, FindGeo, FindLimitRate, Terminated, Emit, ParseDoc, WellFormed;
    hide SanityCheck, IsBlankLine;
    hide Recognizable, SampleGeo, Sample, EntryLine, Filter;
    DefaultLineFacts();
    DenyLineFacts();
    FilterOfTwo(DEFAULT_LINE, DENY_LINE);
    SampleIsPrinted(d, [DEFAULT_LINE, DENY_LINE], [DEFAULT_LINE], [], "5k");
    PrintedIsSane(d);
  }

  /**
   * For example: the block of this file denies one address that a range above it might exempt. Clearing any
   * rule at all, even one that is not there, succeeds and drops that line.
   */
  lemma ClearDropsLine(valid: string -> bool, ip: string, w: World)
    requires Willing(w)
    ensures var file := Sample([DEFAULT_LINE, DENY_LINE], [], "5k");
            && WellFormedFile(file)
            && Step(valid, file, ClearRule(ip), w) == (Sample([DEFAULT_LINE], [], "5k"), true)
  {
    hide ParseDoc, Emit, WellFormed, WellFormedFile, Sample, SanityCheck, Step;
    var d := DenyFileIsRead();
    DenyFileIsPrinted(d);
    assert ClearOverride(d, ip) == d;
    StepIs(valid, Sample([DEFAULT_LINE, DENY_LINE], [], "5k"), ClearRule(ip), w, d, d, Sample([DEFAULT_LINE], [], "5k"));
  }

  lemma SampleIsRecognizable(d: Doc, entries: seq<string>, middle: seq<string>, value: string)
    requires FindGeo(d.Merged()) == Some(SampleGeo(entries, middle, value))
    requires FindLimitRate(d.Merged()).Some? && (d.hasManaged || FindLimitRate(d.Merged()).value.parts[3] != EFFECTIVE_RATE_VAR)
    ensures Recognizable(d)
  {
    hide Contains, FindGeo, FindLimitRate;
    OpeningIsPlain();
  }

  // ---- An exempt rule without a block ----

  /** The sanity check sees "geo $rate_limit" in a comment; there is no block. */
  const COMMENT_FILE := Terminated(["# " + ACL_TEXT, DirectiveText("5k")])

  lemma CommentFileFacts()
    ensures '}' !in COMMENT_FILE && Contains(COMMENT_FILE, ACL_TEXT) && Contains(COMMENT_FILE, LIMIT_RATE)
  {
    hide Contains;
    var a, b := "# " + ACL_TEXT, DirectiveText("5k");
    assert [a, b][..1] == [a] && [a][..0] == [];
    TwoLines(a, b);
    assert '}' !in "# " && '}' !in ACL_TEXT && '}' !in LIMIT_RATE && '}' !in " " && '}' !in "5k" + ";";
    AbsentFromConcat('}', " ", "5k" + ";");
    AbsentFromConcat('}', LIMIT_RATE, " " + ("5k" + ";"));
    AbsentFromConcat('}', "# ", ACL_TEXT);
    AbsentFromTerminated([a, b], '}');
    ContainsWhole(ACL_TEXT);
    ContainsWhole(LIMIT_RATE);
    HoldsInside("# ", ACL_TEXT, "\n" + (b + "\n"), ACL_TEXT);
    Assoc("# ", ACL_TEXT, "\n" + (b + "\n"));
    HoldsInside(a + "\n", LIMIT_RATE, (" " + ("5k" + ";")) + "\n", LIMIT_RATE);
    Assoc(LIMIT_RATE, " " + ("5k" + ";"), "\n");
    Assoc(a, "\n", b + "\n");
  }

  lemma TwoLines(a: string, b: string)
    ensures Terminated([a, b]) == a + ("\n" + (b + "\n"))
  {
    TerminatedCons(a, [b]);
    assert [b][..0] == [];
    assert [a] + [b] == [a, b];
    assert Terminated([b]) == b + "\n";
  }

  lemma NoBraceNoGeo(s: string)
    requires '}' !in s
    ensures FindGeo(s).None?
  {
    if FindGeo(s).Some? {
      FindGeoFound(s);
      WholeShape(FindGeo(s).value);
    }
  }

  lemma CommentFileIsRead() returns (d: Doc)
    ensures ParseDoc(COMMENT_FILE) == Ok(d) && !d.hasManaged && d.overrides == [] && d.Merged() == COMMENT_FILE
    ensures FindGeo(COMMENT_FILE).None?
  {
    hide Contains, FindGeo, Terminated, FirstRate, ConnLimitOf;
    CommentFileFacts();
    NoBraceNoGeo(COMMENT_FILE);
    CommentHasNoMarker();
    NotManaged(COMMENT_FILE);
    assert "" + COMMENT_FILE == COMMENT_FILE;
    d := ParseDoc(COMMENT_FILE).value;
  }

  lemma CommentHasNoMarker()
    ensures !Contains(COMMENT_FILE, END_MARKER)
  {
    hide Contains;
    var a, b := "# " + ACL_TEXT, DirectiveText("5k");
    assert '=' !in "# " && '=' !in ACL_TEXT && '=' !in LIMIT_RATE && '=' !in " " && '=' !in "5k" + ";";
    AbsentFromConcat('=', " ", "5k" + ";");
    AbsentFromConcat('=', LIMIT_RATE, " " + ("5k" + ";"));
    AbsentFromConcat('=', "# ", ACL_TEXT);
    AbsentFromTerminated([a, b], '=');
    MarkerHasEquals();
    if Contains(COMMENT_FILE, END_MARKER) { ContainsChar(COMMENT_FILE, END_MARKER, '='); }
  }

  /**
   * For example: this file passes the sanity check, the exempt rule is accepted, and the file is the same
   * as before, with no rule in it.
   */
  lemma ExemptRuleIsLost(valid: string -> bool, ip: string, w: World)
    requires valid(ip) && Willing(w)
    ensures Step(valid, COMMENT_FILE, SetRule(ip, "", true), w) == (COMMENT_FILE, true)
    ensures ParseDoc(COMMENT_FILE).Ok? && FileSettings(COMMENT_FILE).rules == map[]
  {
    hide ParseDoc, Emit, Contains, FindGeo, Terminated, Step, SortByIP;
    var d := CommentFileIsRead();
    CommentFileFacts();
    var d' := d.(overrides := SortByIP(Put(d.overrides, Override(ip, "", true))));
    assert d'.Merged() == d.Merged();
    EmitWithoutBlock(d');
    StepIs(valid, COMMENT_FILE, SetRule(ip, "", true), w, d, d', COMMENT_FILE);
  }

  // ---- An address the reader does not know ----

  /** A link-local address with a zone, as the validator's netip.ParseAddr accepts it. */
  const ZONE_HEAD := "fe80::1"
  const ZONE_ADDRESS := ZONE_HEAD + "%eth0"
  const ZONE_ENTRY := EntryLine(ZONE_ADDRESS, "0")

  lemma ZoneText()
    ensures var m := EntryText(ZONE_ADDRESS, "0");
            m != "" && m[0] == 'f' && Trimmed(m) && '\n' !in m && '}' !in m && '#' !in m && MatchEntry(m) == None
  {
    var rest := "%eth0" + (Gap(ZONE_ADDRESS) + ("0" + ";"));
    Assoc(ZONE_HEAD, "%eth0", Gap(ZONE_ADDRESS) + ("0" + ";"));
    assert EntryText(ZONE_ADDRESS, "0") == ZONE_HEAD + rest;
    assert rest[0] == '%' && rest[|rest| - 1] == ';';
    NotInZoneText('\n', Gap(ZONE_ADDRESS));
    NotInZoneText('}', Gap(ZONE_ADDRESS));
    NotInZoneText('#', Gap(ZONE_ADDRESS));
    ZoneHeadChars();
    StrangeAddress(ZONE_HEAD, rest);
  }

  lemma NotInZoneText(c: char, gap: string)
    requires (c == '\n' || c == '}' || c == '#') && forall i :: 0 <= i < |gap| ==> gap[i] == ' '
    ensures c !in ZONE_HEAD + ("%eth0" + (gap + ("0" + ";")))
  {
    assert c !in gap && c !in "0" + ";" && c !in "%eth0" && c !in ZONE_HEAD;
    AbsentFromConcat(c, gap, "0" + ";");
    AbsentFromConcat(c, "%eth0", gap + ("0" + ";"));
    AbsentFromConcat(c, ZONE_HEAD, "%eth0" + (gap + ("0" + ";")));
  }

  /** An address that goes on with a character that no address has is no entry. */
  lemma StrangeAddress(h: string, rest: string)
    requires All(IPChar, h) && h != "" && rest != "" && rest[0] == '%' && rest[|rest| - 1] == ';'
    ensures var m := h + rest; m[0] == h[0] && Trimmed(m) && MatchEntry(m) == None
  {
    hide Run;
    var m := h + rest;
    assert Is(IPChar, h[0]);
    RunIs(IPChar, h, rest);
    NothingRun(m);
    NothingRun(rest);
    var p := ENTRY;
    assert Take(p[0], m) == Some(("", m));
    assert Take(p[1..][1..][0], rest) == None;
    assert Match(p[1..][1..], rest).None?;
    assert Match(p[1..], m).None?;
  }

  lemma NothingRun(s: string)
    requires s != "" && !Is(ReSpace, s[0])
    ensures Run(ReSpace, s) == ("", s)
  {
  }

  lemma ZoneHeadChars()
    ensures All(IPChar, ZONE_HEAD) && ZONE_HEAD[0] == 'f'
  {
  }

  lemma ZoneLineFacts()
    ensures EntryOf(ZONE_ENTRY) == None && !Speaks(ZONE_ENTRY) && !Contains(ZONE_ENTRY, END_MARKER)
    ensures '\n' !in ZONE_ENTRY && '}' !in ZONE_ENTRY
  {
    hide EntryText, Contains, Speaks, MatchEntry, EntryIP, IsKept;
    ZoneText();
    var m := EntryText(ZONE_ADDRESS, "0");
    IndentedIsSilent(m);
    IndentedIsTrimmed(m);
    assert ZONE_ENTRY == INDENT + m;
    assert '#' !in INDENT && '\n' !in INDENT && '}' !in INDENT;
    HashFreeHasNoMarker(ZONE_ENTRY);
  }

  lemma NoneOfTwo(a: string, b: string)
    requires '\n' !in a && '\n' !in b && EntryOf(a) == None && EntryOf(b) == None
    ensures SortByIP(ExemptsFrom(Entries(Lines(SampleBody([a, b]))), [])) == []
  {
    hide EntryOf, Lines, Terminated;
    BodyLines([a, b]);
    BlankIsNoEntry();
    BlankIsSkipped();
    EntriesSnoc([""], a, None);
    EntriesSnoc([""] + [a], b, None);
    EntriesSnoc([""] + [a] + [b], "", None);
    FourInOrder("", a, b, "");
  }

  lemma UnmanagedIsPrinted(d: Doc, g: Geo)
    requires !d.hasManaged && FindGeo(d.Merged()) == Some(g)
    ensures Emit(d) == Ok(Rewritten(g, d.overrides).Whole())
  {
    hide FindGeo, NewBody, IsGeo, RewriteGeo;
    FindGeoFound(d.Merged());
    RewriteReplacesBody(g, d.overrides);
  }

  lemma OneExemptIsPrinted(d: Doc, ip: string, value: string)
    requires !d.hasManaged && FindGeo(d.Merged()) == Some(SampleGeo([DEFAULT_LINE], [], value))
    requires d.overrides == [Override(ip, "", true)] && |ip| < 16 && '}' !in EntryLine(ip, "0") && '}' !in DEFAULT_LINE
    ensures Emit(d) == Ok(Sample([DEFAULT_LINE, EntryLine(ip, "0")], [], value))
  {
    hide FindGeo, NewBody, Terminated, IsGeo, SampleBody, EntryLine, Emit, OPENING, DEFAULT_LINE, FrontLines, Sample;
    var g, entries := SampleGeo([DEFAULT_LINE], [], value), [DEFAULT_LINE, EntryLine(ip, "0")];
    UnmanagedIsPrinted(d, g);
    GrownBody(ip);
    SampleIsGeo(entries, [], value);
    assert Rewritten(g, d.overrides) == SampleGeo(entries, [], value);
  }

  lemma ZoneIsPrinted(d: Doc)
    requires !d.hasManaged && FindGeo(d.Merged()) == Some(SampleGeo([DEFAULT_LINE], [], "5k"))
    requires d.overrides == [Override(ZONE_ADDRESS, "", true)]
    ensures Emit(d) == Ok(Sample([DEFAULT_LINE, ZONE_ENTRY], [], "5k"))
  {
    hide FindGeo, Emit, Sample, SampleGeo, EntryLine;
    DefaultLineFacts();
    ZoneLineFacts();
    OneExemptIsPrinted(d, ZONE_ADDRESS, "5k");
  }

  lemma ZoneLinesAreGood()
    ensures GoodLines([DEFAULT_LINE], []) && GoodLines([DEFAULT_LINE, ZONE_ENTRY], [])
  {
    hide Speaks, Contains, EntryLine, GoodLines;
    DefaultLineFacts();
    ZoneLineFacts();
    OneGoodLine(DEFAULT_LINE);
    TwoGoodLines(DEFAULT_LINE, ZONE_ENTRY);
  }

  lemma OneGoodLine(a: string)
    requires '\n' !in a && '}' !in a && !Speaks(a) && !Contains(a, END_MARKER)
    ensures GoodLines([a], [])
  {
    hide Contains, Speaks;
  }

  lemma TwoGoodLines(a: string, b: string)
    requires '\n' !in a && '}' !in a && !Speaks(a) && !Contains(a, END_MARKER)
    requires '\n' !in b && '}' !in b && !Speaks(b) && !Contains(b, END_MARKER)
    ensures GoodLines([a, b], [])
  {
    hide Contains, Speaks;
  }

  lemma ZoneFileIsRead() returns (d: Doc)
    ensures ParseDoc(Sample([DEFAULT_LINE], [], "5k")) == Ok(d) && WellFormedFile(Sample([DEFAULT_LINE], [], "5k"))
    ensures !d.hasManaged && d.overrides == [] && FindGeo(d.Merged()) == Some(SampleGeo([DEFAULT_LINE], [], "5k"))
    ensures SanityCheck(Sample([DEFAULT_LINE, ZONE_ENTRY], [], "5k"))
    ensures var file := Sample([DEFAULT_LINE, ZONE_ENTRY], [], "5k"); ParseDoc(file).Ok? && ParseDoc(file).value.overrides == []
  {
    hide Contains, FindGeo, FindLimitRate, Terminated, SilentBlock, ParseDoc, Entries, GoodLines, ExemptsFrom;
    hide EntryOf, EntryLine, SampleBody;
    hide SanityCheck, Emit, WellFormedFile, WellFormed, Recognizable, SortByIP, FirstRate, NewBody;
    FiveK();
    ZoneLinesAreGood();
    d := SampleIsRead([DEFAULT_LINE], [], "5k");
    var e := SampleIsRead([DEFAULT_LINE, ZONE_ENTRY], [], "5k");
    DefaultLineFacts();
    ZoneLineFacts();
    NoEntries(DEFAULT_LINE);
    NoneOfTwo(DEFAULT_LINE, ZONE_ENTRY);
    SampleIsSane([DEFAULT_LINE, ZONE_ENTRY], "5k");
  }

  lemma SampleIsSane(entries: seq<string>, value: string)
    requires forall l :: l in entries ==> '}' !in l
    ensures SanityCheck(Sample(entries, [], value))
  {
    hide Contains, Terminated;
    OpeningIsPlain();
    SampleIsGeo(entries, [], value);
    WholeHoldsHeader(SampleGeo(entries, [], value), ACL_TEXT);
    ContainsWhole(LIMIT_RATE);
    HoldsBehind(LIMIT_RATE, " " + (value + ";"), LIMIT_RATE);
    TerminatedSnoc(FrontLines(entries, []), DirectiveText(value));
    HoldsInside(Terminated(FrontLines(entries, [])), DirectiveText(value), "\n", LIMIT_RATE);
  }

  /**
   * For example: exempting this address is accepted, its line is printed into the block, and no rule is read
   * back, so the dashboard does not show it and the next save removes the line.
   */
  lemma ZoneRuleIsLost(valid: string -> bool, w: World)
    requires valid(ZONE_ADDRESS) && Willing(w)
    ensures var file, file' := Sample([DEFAULT_LINE], [], "5k"), Sample([DEFAULT_LINE, ZONE_ENTRY], [], "5k");
            && WellFormedFile(file)
            && Step(valid, file, SetRule(ZONE_ADDRESS, "", true), w) == (file', true)
            && ParseDoc(file').Ok? && FileSettings(file').rules == map[]
  {
    hide ParseDoc, Emit, Contains, FindGeo, Terminated, Step, SortByIP, SanityCheck, WellFormedFile, Sample, SampleGeo;
    var d := ZoneFileIsRead();
    var d' := d.(overrides := [Override(ZONE_ADDRESS, "", true)]);
    OneRuleSorted(ZONE_ADDRESS);
    assert d'.Merged() == d.Merged();
    ZoneIsPrinted(d');
    var file, file' := Sample([DEFAULT_LINE], [], "5k"), Sample([DEFAULT_LINE, ZONE_ENTRY], [], "5k");
    StepIs(valid, file, SetRule(ZONE_ADDRESS, "", true), w, d, d', file');
  }
}

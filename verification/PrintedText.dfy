/** What is printed, spelled out. */
module PrintedText {
  import opened Wrappers
  import opened Lists
  import opened Text
  import opened Regex
  import opened Patterns
  import opened Overrides
  import opened Document
  import opened PrintedLines
  import opened Rewrite
  import opened UserText
  import opened RoundTrip
  import opened Parsed
  import opened Directives
  import opened Edits
  import opened Endpoints
  import opened Survival
  import opened LineShapes
  import opened FileReadings

  // ---- Entries ----

  const SIXTEEN := "                "

  /** The text in a column of sixteen characters, or wider if it is longer. */
  function Column(s: string): string {
    if |s| < 16 then s + SIXTEEN[|s|..] else s
  }

  lemma {:induction false} SpacesAre(n: nat)
    requires n <= 16
    ensures Spaces(n) == SIXTEEN[16 - n..]
  {
    if n > 0 { SpacesAre(n - 1); }
  }

  /** An entry is indented by four; its value stands behind the column of the address and one more space. */
  lemma EntryLineSpelled(ip: string, value: string)
    ensures EntryLine(ip, value) == "    " + (Column(ip) + (" " + (value + ";")))
  {
    var n := if |ip| < 16 then 16 - |ip| else 0;
    SpacesAre(n);
    SpacesSnoc(n);
    Assoc(Spaces(n), " ", value + ";");
    Assoc(ip, Spaces(n), " " + (value + ";"));
    assert Column(ip) == ip + Spaces(n);
  }

  lemma {:induction false} SpacesSnoc(n: nat)
    ensures Spaces(n + 1) == Spaces(n) + " "
  {
    var s, t := Spaces(n + 1), Spaces(n) + " ";
    assert forall i :: 0 <= i < n ==> t[i] == Spaces(n)[i] == ' ';
    assert forall i :: 0 <= i < n + 1 ==> s[i] == ' ';
  }

  function RateText(): Override -> Option<string> {
    (o: Override) => if o.rate != "" then Some("    " + (Column(o.ip) + (" " + (o.rate + ";")))) else None
  }

  function ExemptText(): Override -> Option<string> {
    (o: Override) => if o.exempt then Some("    " + (Column(o.ip) + (" " + "0;"))) else None
  }

  /** One entry for every rule with a rate, and one for every exempt rule, in the order of the rules. */
  lemma {:induction false} EntriesSpelled(os: seq<Override>)
    ensures RateLines(os) == Collect(RateText(), os) && ExemptLines(os) == Collect(ExemptText(), os)
  {
    hide Column, EntryLine;
    if os != [] {
      var front, last := os[..|os| - 1], os[|os| - 1];
      EntriesSpelled(front);
      EntryLineSpelled(last.ip, last.rate);
      EntryLineSpelled(last.ip, "0");
      assert "0" + ";" == "0;";
    }
  }

  // ---- The managed region ----

  const GEO_START := ["geo $lcm_rate_override" + " {", "    default      " + "\"\";"]

  function MapLines(global: string): seq<string> {
    ["}", "map $lcm_rate_override" + (" $lcm_effective_rate" + " {"), "    \"\"           " + (global + ";"),
     "    default      " + "$lcm_rate_override;", "}"]
  }

  /** The region line by line. */
  function RegionLines(rates: seq<string>, global: string): seq<string> {
    ([BEGIN_TEXT] + GEO_START) + (rates + (MapLines(global) + [END_TEXT]))
  }

  lemma GeoHeadSpelled()
    ensures GEO_HEAD + "{" == "geo $lcm_rate_override" + " {"
  {
    NamesSpelled();
    Assoc(MANAGED_GEO, " ", "{");
  }

  lemma MapHeadSpelled()
    ensures MAP_HEAD + "{" == "map $lcm_rate_override" + (" $lcm_effective_rate" + " {")
  {
    NamesSpelled();
    Assoc(" ", EFFECTIVE_RATE_VAR, " ");
    Assoc(" " + EFFECTIVE_RATE_VAR, " ", "{");
    Assoc(MANAGED_MAP, " " + (EFFECTIVE_RATE_VAR + " "), "{");
    assert " " + EFFECTIVE_RATE_VAR == " $lcm_effective_rate" && " " + "{" == " {";
  }

  lemma DefaultStart(value: string)
    ensures INDENT + (DEFAULT_KEY + (SHORT_GAP + value)) == "    default      " + value
  {
    assert INDENT + (DEFAULT_KEY + SHORT_GAP) == "    default      ";
    Assoc(DEFAULT_KEY, SHORT_GAP, value);
    Assoc(INDENT, DEFAULT_KEY + SHORT_GAP, value);
  }

  lemma DefaultsSpelled()
    ensures GEO_DEFAULT == "    default      " + "\"\";" && MAP_DEFAULT == "    default      " + "$lcm_rate_override;"
  {
    DefaultStart(EMPTY_KEY + ";");
    DefaultStart(OVERRIDE_VAR + ";");
    assert EMPTY_KEY + ";" == "\"\";" && OVERRIDE_VAR + ";" == "$lcm_rate_override;";
  }

  lemma FallbackSpelled(global: string)
    ensures FallbackLine(global) == "    \"\"           " + (global + ";")
  {
    assert INDENT + (EMPTY_KEY + LONG_GAP) == "    \"\"           ";
    Assoc(EMPTY_KEY, LONG_GAP, global + ";");
    Assoc(INDENT, EMPTY_KEY + LONG_GAP, global + ";");
  }

  lemma TerminatedOne(l: string)
    ensures Terminated([l]) == l + "\n"
  {
    assert [l][..0] == [];
    assert "" + l == l;
  }

  lemma BlockSpelled(head: string, ls: seq<string>)
    ensures BlockText(head, "\n" + Terminated(ls)) == Terminated([head + "{"] + (ls + ["}"]))
  {
    var t := Terminated(ls);
    TerminatedOne(head + "{");
    TerminatedOne("}");
    TerminatedConcat(ls, ["}"]);
    TerminatedConcat([head + "{"], ls + ["}"]);
    Assoc("\n", t, "}\n");
    Assoc("{", "\n", t + "}\n");
    Assoc(head, "{", "\n" + (t + "}\n"));
    Assoc(head + "{", "\n", t + "}\n");
    assert "}" + "\n" == "}\n";
  }

  /** The printed region, line by line. */
  lemma RegionSpelled(os: seq<Override>, global: string)
    ensures ManagedRegion(os, global) == Terminated(RegionLines(RateLines(os), global))
  {
    hide Terminated, BEGIN_MARKER, END_MARKER, RateLines, BEGIN_TEXT, END_TEXT;
    MarkersSpelled();
    GeoHeadSpelled();
    MapHeadSpelled();
    DefaultsSpelled();
    FallbackSpelled(global);
    var geo := [GEO_HEAD + "{"] + (([GEO_DEFAULT] + RateLines(os)) + ["}"]);
    var map_ := [MAP_HEAD + "{"] + ([FallbackLine(global), MAP_DEFAULT] + ["}"]);
    BlockSpelled(GEO_HEAD, [GEO_DEFAULT] + RateLines(os));
    BlockSpelled(MAP_HEAD, [FallbackLine(global), MAP_DEFAULT]);
    RegionJoined(BEGIN_TEXT, geo, map_, END_TEXT);
    assert RegionLines(RateLines(os), global) == [BEGIN_TEXT] + ((geo + map_) + [END_TEXT]);
  }

  lemma RegionJoined(begin: string, geo: seq<string>, map_: seq<string>, end: string)
    ensures begin + (("\n" + (Terminated(geo) + Terminated(map_))) + (end + "\n")) == Terminated([begin] + ((geo + map_) + [end]))
  {
    TerminatedOne(begin);
    TerminatedOne(end);
    TerminatedConcat(geo, map_);
    TerminatedConcat(geo + map_, [end]);
    TerminatedConcat([begin], (geo + map_) + [end]);
    var t := Terminated(geo + map_);
    Assoc("\n", t, end + "\n");
    Assoc(begin, "\n", t + (end + "\n"));
  }

  // ---- The file ----

  /** The text of a block's body: the user's own lines in order, the exempt entries, and no other visible line. */
  ghost predicate IsRewritten(body: string, was: string, os: seq<Override>) {
    Filter(HasInk, Lines(body)) == Filter(IsOwnLine, Lines(was)) + Collect(ExemptText(), os)
  }

  lemma NewBodyIsRewritten(body: string, os: seq<Override>)
    requires forall o :: o in os ==> EntryIP(o.ip)
    ensures IsRewritten(NewBody(body, os), body, os)
  {
    hide Lines, NewBody;
    OwnLinesStay(body, os);
    EntriesSpelled(os);
  }

  /** The whole of what is printed for a well-formed document. */
  lemma PrintSpelled(d: Doc) returns (body: string, blank: string)
    requires WellFormed(d)
    ensures HasBlock(d) && IsRewritten(body, TextAround(d).body, d.overrides)
    ensures var user := TextAround(d).(body := body).Whole();
            && user != "" && blank == (if user[0] == '\n' || user[0] == ' ' then "" else "\n")
            && Emit(d) == Ok(if !d.hasManaged then user
                             else d.preManaged + Terminated(RegionLines(Collect(RateText(), d.overrides), d.global)) + (blank + user))
  {
    hide FindGeo, NewBody, IsRewritten, ManagedRegion, RegionLines, Terminated, SilentBlock, ConnLimitOf, Emit, IsHeader;
    EmitPrints(d);
    RegionSpelled(d.overrides, d.global);
    EntriesSpelled(d.overrides);
    FindGeoFound(d.Merged());
    HeaderFacts(BlockOf(d).header);
    body := NewBody(TextAround(d).body, d.overrides);
    NewBodyIsRewritten(TextAround(d).body, d.overrides);
    blank := Separator(NewPost(d));
    assert NewPost(d) == TextAround(d).(body := body).Whole();
    SeparatorSpelled(NewPost(d));
  }

  lemma SeparatorSpelled(user: string)
    requires user != ""
    ensures Separator(user) == if user[0] == '\n' || user[0] == ' ' then "" else "\n"
  {
  }

  /** Without a region any file that has a block is printed with nothing but the block's body changed. */
  lemma PrintWithoutRegion(content: string) returns (body: string)
    requires ParseDoc(content).Ok? && !ParseDoc(content).value.hasManaged && FindGeo(content).Some?
    ensures var d, g := ParseDoc(content).value, FindGeo(content).value;
            Emit(d) == Ok(g.(body := body).Whole()) && IsRewritten(body, g.body, d.overrides)
  {
    hide ParseDoc, FindGeo, NewBody, RewriteGeo, IsRewritten;
    var managed, newline := ContentIsSplit(content);
    ParsedAgrees(content);
    FindGeoFound(content);
    var d, g := ParseDoc(content).value, FindGeo(content).value;
    assert d.Merged() == content;
    RewriteReplacesBody(g, d.overrides);
    body := NewBody(g.body, d.overrides);
    NewBodyIsRewritten(g.body, d.overrides);
  }

  /** Printing fails only with a region: when no global rate is known, or when the cut lies behind the end of the text. */
  lemma PrintingFailsIff(d: Doc)
    ensures RewriteMerged(d.Merged(), d.overrides).Ok?
    ensures Emit(d).Err? <==>
            d.hasManaged && (d.global == "" || |RewriteMerged(d.Merged(), d.overrides).value| < |d.preManaged|)
  {
    hide FindGeo, RewriteGeo, NewBody, ManagedRegion;
    RewriteSucceeds(d.Merged(), d.overrides);
  }

  lemma RewriteSucceeds(merged: string, os: seq<Override>)
    ensures RewriteMerged(merged, os).Ok?
  {
    hide FindGeo, RewriteGeo, NewBody;
    if FindGeo(merged).Some? {
      FindGeoFound(merged);
      RewriteReplacesBody(FindGeo(merged).value, os);
    }
  }

  /**
   * Over every run of requests other than raw saves that edits no quote, the comments and the default lines of
   * the user's block stay, in order and as often as they were there.
   */
  lemma RunKeepsOwnLines(valid: string -> bool, file: string, events: seq<Event>)
    requires WellFormedFile(file) && AdmissibleRun(valid, file, events) && forall e :: e in events ==> !e.0.SaveRaw?
    requires EffectiveRun(valid, file, events)
    ensures WellFormedFile(FileAfter(valid, file, events))
    ensures var d0, d := ParseDoc(file).value, ParseDoc(FileAfter(valid, file, events)).value;
            && HasBlock(d0) && HasBlock(d)
            && Filter(IsOwnLine, Lines(TextAround(d).body)) == Filter(IsOwnLine, Lines(TextAround(d0).body))
  {
    hide ParseDoc, WellFormed, FileAfter, Lines, UserLines, IsOwnLine, HasInk, Filter, AdmissibleRun, EffectiveRun, OwnText;
    RunKeepsUserText(valid, file, events);
    OwnLinesAre(TextAround(ParseDoc(file).value).body);
    OwnLinesAre(TextAround(ParseDoc(FileAfter(valid, file, events)).value).body);
  }

  // ---- The directive ----

  /** A directive is rewritten with one space in front of its value and none behind; its indentation stays. */
  lemma EditedSpelled(p: Place, value: string)
    requires IsFirst(p) && Token(value)
    ensures |p.parts| == 6
    ensures Edited(p, value).Whole() == p.before + (p.parts[0] + ("limit_rate " + (value + (";" + p.after))))
  {
    hide Concat;
    NewPartsRead(p, value);
    var indent, tail := p.parts[0], value + ";";
    assert LIMIT_RATE + " " == "limit_rate ";
    Assoc(LIMIT_RATE, " ", tail);
    Assoc(value, ";", p.after);
    Assoc("limit_rate ", tail, p.after);
    Assoc(indent, "limit_rate " + tail, p.after);
  }

  // ---- Rates ----

  ghost predicate IsAmount(s: string) {
    exists digits, unit ::
      s == digits + unit && digits != "" && Only(digits, DIGITS) && digits[0] != '0' && unit in ["", "k", "K", "m", "M"]
  }

  lemma AmountIsValid(s: string)
    requires IsAmount(s)
    ensures ValidRate(s)
  {
    hide DIGITS, ValidRate, All;
    var digits, unit :|
      s == digits + unit && digits != "" && Only(digits, DIGITS) && digits[0] != '0' && unit in ["", "k", "K", "m", "M"];
    OnlyIsAll(digits);
    DigitsThenUnit(digits, unit);
  }

  lemma DigitsThenUnit(digits: string, unit: string)
    requires All(Digit, digits) && digits != "" && digits[0] != '0'
    requires unit == "" || unit == "k" || unit == "K" || unit == "m" || unit == "M"
    ensures ValidRate(digits + unit)
  {
    hide Run;
    RunIs(Digit, digits, unit);
    assert Is(Digit, digits[0]) && (digits + unit)[0] == digits[0];
  }

  lemma ValidIsAmount(s: string)
    requires ValidRate(s) && s != "0"
    ensures IsAmount(s)
  {
    hide DIGITS;
    var (digits, unit) := Run(Digit, s);
    OnlyIsAll(digits);
    assert Is(Digit, s[0]) && s[0] == digits[0];
  }

  /** A rate is "0", or digits that do not start with a zero with at most one of four letters behind them. */
  lemma ValidRateIff(s: string)
    ensures ValidRate(s) <==> s == "0" || IsAmount(s)
  {
    hide ValidRate, IsAmount;
    if IsAmount(s) { AmountIsValid(s); }
    if ValidRate(s) && s != "0" { ValidIsAmount(s); }
    assert ValidRate("0") by { ZeroIsValid(); }
  }

  lemma ZeroIsValid()
    ensures ValidRate("0")
  {
  }
}

/** Files with the block in front of the managed region, where an accepted rule moves the region. */
module MovedRegions {
  import opened Wrappers
  import opened Text
  import opened Regex
  import opened Patterns
  import opened Overrides
  import opened Document
  import opened ManagedRead
  import opened Directives
  import opened UserText
  import opened RoundTrip
  import opened Endpoints
  import opened Nginx
  import opened Acceptance
  import opened QuotedMigration
  import opened Limits
  import opened SplitLine
  import opened Samples
  import opened Mishaps

  // ---- A block in front of the region ----

  /** A directive the user has commented out. */
  const SLEEPING := "limit_rate_after 1024k;"
  const NOTE_HEAD := "# off: "
  const NOTE_LINE := NOTE_HEAD + SLEEPING
  const WIRED_TEXT := Sample([DEFAULT_LINE], [], EFFECTIVE_RATE_VAR) + (NOTE_LINE + "\n")

  /** A migrated file whose region was moved behind the user's text. */
  const MOVED_FILE := WIRED_TEXT + ManagedRegion([], "5k")

  lemma WiredTextHasNoMarker()
    ensures !Contains(WIRED_TEXT, BEGIN_MARKER) && !Contains(WIRED_TEXT, END_MARKER)
  {
    hide Contains, Terminated;
    EqualsFreeParts();
    AbsentFromTerminated([OPENING] + [DEFAULT_LINE] + ["}"] + [] + [DirectiveText(EFFECTIVE_RATE_VAR)], '=');
    AbsentFromConcat('=', NOTE_LINE, "\n");
    AbsentFromConcat('=', Sample([DEFAULT_LINE], [], EFFECTIVE_RATE_VAR), NOTE_LINE + "\n");
    MarkerHasEquals();
    if Contains(WIRED_TEXT, BEGIN_MARKER) { ContainsChar(WIRED_TEXT, BEGIN_MARKER, '='); }
    if Contains(WIRED_TEXT, END_MARKER) { ContainsChar(WIRED_TEXT, END_MARKER, '='); }
  }

  lemma EqualsFreeParts()
    ensures forall l :: l in [OPENING] + [DEFAULT_LINE] + ["}"] + [] + [DirectiveText(EFFECTIVE_RATE_VAR)] ==> '=' !in l
    ensures '=' !in NOTE_LINE && '=' !in "\n"
  {
    VarHasNoEquals();
    OpeningIsLine('=');
    assert '=' !in LIMIT_RATE && '=' !in "}" && '=' !in ";" && '=' !in " ";
    AbsentFromConcat('=', EFFECTIVE_RATE_VAR, ";");
    AbsentFromConcat('=', " ", EFFECTIVE_RATE_VAR + ";");
    AbsentFromConcat('=', LIMIT_RATE, " " + (EFFECTIVE_RATE_VAR + ";"));
    assert '=' !in INDENT && '=' !in DEFAULT_KEY && '=' !in " 1;";
    AbsentFromConcat('=', DEFAULT_KEY, " 1;");
    AbsentFromConcat('=', INDENT, DEFAULT_KEY + " 1;");
    assert '=' !in NOTE_HEAD && '=' !in SLEEPING;
    AbsentFromConcat('=', NOTE_HEAD, SLEEPING);
  }

  /** The text behind the block of the moved file. */
  const BEHIND_BLOCK := "\n" + (DirectiveText(EFFECTIVE_RATE_VAR) + ("\n" + (NOTE_LINE + "\n")))

  lemma WiredTextGeo() returns (g: Geo)
    ensures FindGeo(WIRED_TEXT) == Some(g) && WIRED_TEXT == g.before + g.Block() + BEHIND_BLOCK
    ensures g == Geo("", OPENING, SampleBody([DEFAULT_LINE]), BEHIND_BLOCK)
  {
    hide Terminated, Contains;
    DefaultLineFacts();
    var h := SampleGeo([DEFAULT_LINE], [], EFFECTIVE_RATE_VAR);
    SampleIsGeo([DEFAULT_LINE], [], EFFECTIVE_RATE_VAR);
    OneTerminated(DirectiveText(EFFECTIVE_RATE_VAR));
    assert [] + [DirectiveText(EFFECTIVE_RATE_VAR)] == [DirectiveText(EFFECTIVE_RATE_VAR)];
    g := h.(after := BEHIND_BLOCK);
    Assoc(DirectiveText(EFFECTIVE_RATE_VAR), "\n", NOTE_LINE + "\n");
    Assoc("\n", DirectiveText(EFFECTIVE_RATE_VAR) + "\n", NOTE_LINE + "\n");
    Assoc(h.before + h.Block(), h.after, NOTE_LINE + "\n");
    assert g.Whole() == WIRED_TEXT;
    FindGeoIs(g);
  }

  /** A migrated file without rules whose region is behind a text with a plain block. */
  lemma RegionBehindIsRead(text: string, g: Geo) returns (d: Doc)
    requires !Contains(text, BEGIN_MARKER) && !Contains(text, END_MARKER)
    requires FindGeo(text) == Some(g) && g.body == SampleBody([DEFAULT_LINE])
    ensures ParseDoc(text + ManagedRegion([], "5k")) == Ok(d) && d.hasManaged && d.overrides == [] && d.global == "5k"
    ensures d.preManaged == text && d.postManaged == "" && d.Merged() == text
  {
    hide Contains, FindGeo, Terminated, FirstRate, ConnLimitOf, SplitAtMarkers, ManagedText, ManagedRegion;
    hide ParseManaged, Entries, ExemptsFrom, EntryOf;
    FiveK();
    MarkersAreFound(text, [], "5k", "");
    assert text + ManagedRegion([], "5k") + "" == text + ManagedRegion([], "5k");
    ManagedTextIsRead([], "5k");
    assert text + "" == text;
    DefaultLineFacts();
    NoEntries(DEFAULT_LINE);
    d := ParseUser(Split(text, Some(ManagedText([], "5k")), ""), [], "5k");
  }

  /** The text in front of the region after the cut: it ends in the middle of the comment. */
  function CutFrontOf(block: string): string {
    block + ("\n" + (DirectiveText(EFFECTIVE_RATE_VAR) + ("\n" + NOTE_HEAD)))
  }

  lemma CutEarly(x: string, d: string, h: string, c: string, n: nat)
    requires |c| == 23 && n + 24 == |x + ("\n" + (d + ("\n" + ((h + c) + "\n"))))|
    ensures var s := x + ("\n" + (d + ("\n" + ((h + c) + "\n"))));
            s[..n] == x + ("\n" + (d + ("\n" + h))) && s[n..] == c + "\n"
  {
    var s, front := x + ("\n" + (d + ("\n" + ((h + c) + "\n")))), x + ("\n" + (d + ("\n" + h)));
    Assoc(h, c, "\n");
    Assoc("\n", h, c + "\n");
    Assoc(d, "\n" + h, c + "\n");
    Assoc("\n", d + ("\n" + h), c + "\n");
    Assoc(x, "\n" + (d + ("\n" + h)), c + "\n");
    assert s == front + (c + "\n");
    assert |front| == n;
  }

  lemma SleepingLength()
    ensures |SLEEPING| == 23 && SLEEPING[0] == 'l'
  {
    assert "limit_rate_after "[0] == 'l';
  }

  /** The split file still passes the sanity check. */
  lemma SplitIsSane(block: string, region: string, rest: string)
    requires Contains(block, ACL_TEXT)
    ensures SanityCheck(CutFrontOf(block) + region + rest)
  {
    hide Contains;
    var d, tail := " " + (EFFECTIVE_RATE_VAR + ";"), "\n" + NOTE_HEAD;
    ContainsWhole(LIMIT_RATE);
    HoldsBehind(LIMIT_RATE, d, LIMIT_RATE);
    HoldsInside("\n", LIMIT_RATE + d, tail, LIMIT_RATE);
    HoldsBehind(block, "\n" + ((LIMIT_RATE + d) + tail), ACL_TEXT);
    HoldsBehind(block, "\n" + ((LIMIT_RATE + d) + tail), LIMIT_RATE);
    HoldsBehind(CutFrontOf(block), region, ACL_TEXT);
    HoldsBehind(CutFrontOf(block), region, LIMIT_RATE);
    HoldsBehind(CutFrontOf(block) + region, rest, ACL_TEXT);
    HoldsBehind(CutFrontOf(block) + region, rest, LIMIT_RATE);
  }

  lemma OpeningInBlock(body: string)
    ensures Contains(Geo("", OPENING, body, "").Whole(), ACL_TEXT)
  {
    OpeningIsPlain();
    WholeHoldsHeader(Geo("", OPENING, body, ""), ACL_TEXT);
  }

  /** The block of the moved file with one exempt address. */
  function GrownBlock(ip: string): string {
    Geo("", OPENING, SampleBody([DEFAULT_LINE, EntryLine(ip, "0")]), "").Whole()
  }

  lemma MovedIsPrinted(d: Doc, ip: string)
    requires d.hasManaged && d.preManaged == WIRED_TEXT && d.postManaged == "" && d.global == "5k"
    requires d.overrides == [Override(ip, "", true)] && EntryIP(ip) && |ip| < 16
    ensures Emit(d) == Ok(CutFrontOf(GrownBlock(ip)) + ManagedRegion(d.overrides, "5k") + ("\n" + (SLEEPING + "\n")))
  {
    hide Contains, FindGeo, Terminated, ManagedRegion, Emit, EntryLine, NewBody, SampleBody;
    var g := WiredTextGeo();
    assert d.Merged() == WIRED_TEXT;
    GrownBody(ip);
    CutAtOldLength(d, g, BEHIND_BLOCK);
    CutTextLength(d, g, BEHIND_BLOCK);
    var block := GrownBlock(ip);
    assert block == Rewritten(g, d.overrides).before + Rewritten(g, d.overrides).Block();
    CutTextOf(d, g, BEHIND_BLOCK, block);
    SleepingLength();
    CutEarly(block, DirectiveText(EFFECTIVE_RATE_VAR), NOTE_HEAD, SLEEPING, |WIRED_TEXT|);
    SeparatorOfText(SLEEPING + "\n");
  }

  /**
   * For example: exempting an address in the moved file is accepted. It makes the block 24 characters longer, so
   * the region is put 24 characters too early, into the comment, and what was commented out is a directive now.
   */
  lemma RegionSplitsLine(valid: string -> bool, ip: string, w: World)
    requires valid(ip) && EntryIP(ip) && |ip| < 16 && Willing(w)
    ensures Step(valid, MOVED_FILE, SetRule(ip, "", true), w) ==
            (CutFrontOf(GrownBlock(ip)) + ManagedRegion([Override(ip, "", true)], "5k") + ("\n" + (SLEEPING + "\n")), true)
  {
    hide Contains, FindGeo, Terminated, ManagedRegion, Emit, ParseDoc, SanityCheck, CutFrontOf, Step;
    WiredTextHasNoMarker();
    var g := WiredTextGeo();
    var d := RegionBehindIsRead(WIRED_TEXT, g);
    var os := [Override(ip, "", true)];
    var d' := d.(overrides := os);
    OneRuleSorted(ip);
    assert SetOverride(d, valid, ip, "", true) == Ok(d');
    MovedIsPrinted(d', ip);
    OpeningInBlock(SampleBody([DEFAULT_LINE, EntryLine(ip, "0")]));
    SplitIsSane(GrownBlock(ip), ManagedRegion(os, "5k"), "\n" + (SLEEPING + "\n"));
    StepIs(valid, MOVED_FILE, SetRule(ip, "", true), w, d, d', Emit(d').value);
  }

  lemma CutTextOf(d: Doc, g: Geo, z: string, block: string)
    requires d.postManaged == "" && block == Rewritten(g, d.overrides).before + Rewritten(g, d.overrides).Block()
    ensures CutText(d, g, z) == block + z
  {
  }

  lemma SeparatorOfText(s: string)
    requires s != "" && s[0] != '\n' && s[0] != ' '
    ensures Separator(s) == "\n"
  {
  }

  // ---- Another address is exempt ----

  const PRIVATE_ADDRESS := "192.168.1.10"

  /** The lines in front of the new entry, and the text behind it. */
  const SHIFTED_LINES := [DirectiveText(EFFECTIVE_RATE_VAR), OPENING, DEFAULT_LINE]
  const SHIFTED_TAIL := "\n#a\n"
  const SHIFTED_TEXT := Terminated(SHIFTED_LINES) + ("}" + SHIFTED_TAIL)

  /** A migrated file with its region behind the block and a short comment. */
  const SHIFTED_FILE := SHIFTED_TEXT + ManagedRegion([], "5k")

  lemma ShiftedGeo() returns (g: Geo)
    ensures FindGeo(SHIFTED_TEXT) == Some(g) && SHIFTED_TEXT == g.before + g.Block() + SHIFTED_TAIL
    ensures g == Geo(DirectiveText(EFFECTIVE_RATE_VAR) + "\n", OPENING, SampleBody([DEFAULT_LINE]), SHIFTED_TAIL)
  {
    hide Contains, IsHeader, Terminated;
    g := Geo(DirectiveText(EFFECTIVE_RATE_VAR) + "\n", OPENING, SampleBody([DEFAULT_LINE]), SHIFTED_TAIL);
    OpeningIsHeader();
    DefaultLineFacts();
    AbsentFromTerminated([DEFAULT_LINE], '}');
    DirectiveIsHeaderFree();
    ShiftedLines([DEFAULT_LINE]);
    BlockShape(g);
    Assoc(g.before + g.header, g.body, "}" + SHIFTED_TAIL);
    FindGeoIs(g);
  }

  lemma DirectiveIsHeaderFree()
    ensures HeaderFree(DirectiveText(EFFECTIVE_RATE_VAR) + "\n")
  {
    hide IsHeader;
    var s := DirectiveText(EFFECTIVE_RATE_VAR) + "\n";
    assert 'g' !in LIMIT_RATE && 'g' !in " " && 'g' !in EFFECTIVE_RATE_VAR && 'g' !in ";" && 'g' !in "\n";
    AbsentFromConcat('g', EFFECTIVE_RATE_VAR, ";");
    AbsentFromConcat('g', " ", EFFECTIVE_RATE_VAR + ";");
    AbsentFromConcat('g', LIMIT_RATE, " " + (EFFECTIVE_RATE_VAR + ";"));
    AbsentFromConcat('g', DirectiveText(EFFECTIVE_RATE_VAR), "\n");
    forall i, h | At(s, i, h) ensures !IsHeader(h) {
      assert h != "" ==> h[0] == s[i];
      if IsHeader(h) { HeaderFacts(h); }
    }
  }

  /** The directive, the opening and a list of lines. */
  lemma ShiftedLines(ls: seq<string>)
    ensures Terminated([DirectiveText(EFFECTIVE_RATE_VAR), OPENING] + ls) ==
            ((DirectiveText(EFFECTIVE_RATE_VAR) + "\n") + OPENING) + SampleBody(ls)
    ensures [DirectiveText(EFFECTIVE_RATE_VAR), OPENING] + [DEFAULT_LINE] == SHIFTED_LINES
  {
    hide Terminated;
    var a, b := DirectiveText(EFFECTIVE_RATE_VAR), OPENING;
    TerminatedCons(b, ls);
    TerminatedCons(a, [b] + ls);
    assert [a] + ([b] + ls) == [a, b] + ls;
    Assoc(a, "\n", b + SampleBody(ls));
    Assoc(a + "\n", b, SampleBody(ls));
  }

  lemma ShiftedHasNoEquals(s: string)
    requires '=' !in s
    ensures '=' !in Terminated(SHIFTED_LINES) + s
    ensures !Contains(Terminated(SHIFTED_LINES) + s, BEGIN_MARKER) && !Contains(Terminated(SHIFTED_LINES) + s, END_MARKER)
  {
    hide Contains, Terminated;
    EqualsFreeParts();
    AbsentFromTerminated(SHIFTED_LINES, '=');
    AbsentFromConcat('=', Terminated(SHIFTED_LINES), s);
    MarkerHasEquals();
    var t := Terminated(SHIFTED_LINES) + s;
    if Contains(t, BEGIN_MARKER) { ContainsChar(t, BEGIN_MARKER, '='); }
    if Contains(t, END_MARKER) { ContainsChar(t, END_MARKER, '='); }
  }

  lemma ShiftedIsSane(rest: string)
    ensures SanityCheck(Terminated(SHIFTED_LINES) + rest)
  {
    hide Contains, Terminated;
    var a := DirectiveText(EFFECTIVE_RATE_VAR);
    ShiftedLines([DEFAULT_LINE]);
    ContainsWhole(LIMIT_RATE);
    OpeningIsPlain();
    HoldsBehind(LIMIT_RATE, " " + (EFFECTIVE_RATE_VAR + ";"), LIMIT_RATE);
    HoldsBehind(a, "\n", LIMIT_RATE);
    HoldsBehind(a + "\n", OPENING, LIMIT_RATE);
    HoldsBehind(a + "\n", OPENING, ACL_TEXT);
    HoldsBehind((a + "\n") + OPENING, SampleBody([DEFAULT_LINE]), LIMIT_RATE);
    HoldsBehind((a + "\n") + OPENING, SampleBody([DEFAULT_LINE]), ACL_TEXT);
    HoldsBehind(Terminated(SHIFTED_LINES), rest, LIMIT_RATE);
    HoldsBehind(Terminated(SHIFTED_LINES), rest, ACL_TEXT);
  }

  /** The new entry's line, cut after its fifth character. */
  lemma PrivateEntry() returns (left: string, right: string)
    ensures left + right == EntryLine(PRIVATE_ADDRESS, "0") && |left| == 5 && |right| == 18 && right[0] == '9'
    ensures '=' !in left && '\n' !in left && '\n' !in right
    ensures EntryIP(PRIVATE_ADDRESS) && PRIVATE_ADDRESS[1..] == "92.168.1.10"
  {
    var l := EntryLine(PRIVATE_ADDRESS, "0");
    assert EntryIP(PRIVATE_ADDRESS) && |PRIVATE_ADDRESS| == 12 && |Gap(PRIVATE_ADDRESS)| == 5;
    assert PRIVATE_ADDRESS[1] == '9' && PRIVATE_ADDRESS[0] == '1';
    left, right := l[..5], l[5..];
    assert left == "    1";
    EntryLineChars(PRIVATE_ADDRESS, "0");
    assert forall c :: c in right ==> c in l;
  }

  /** The rewritten text, cut where the old length points. */
  lemma ShiftedCut(x: string, left: string, right: string, n: nat)
    requires |left| == 5 && |right| == 18 && n + 24 == |x + ((left + right) + ("\n" + ("}" + SHIFTED_TAIL)))|
    ensures var s := x + ((left + right) + ("\n" + ("}" + SHIFTED_TAIL)));
            s[..n] == x + left && s[n..] == right + ("\n" + ("}" + SHIFTED_TAIL))
  {
    var rest := "\n" + ("}" + SHIFTED_TAIL);
    Assoc(left, right, rest);
    Assoc(x, left, right + rest);
    assert |rest| == 6;
    assert x + ((left + right) + rest) == (x + left) + (right + rest);
  }

  lemma ShiftedCutText(d: Doc, g: Geo, left: string, right: string)
    requires g == Geo(DirectiveText(EFFECTIVE_RATE_VAR) + "\n", OPENING, SampleBody([DEFAULT_LINE]), SHIFTED_TAIL)
    requires d.overrides == [Override(PRIVATE_ADDRESS, "", true)] && d.postManaged == ""
    requires left + right == EntryLine(PRIVATE_ADDRESS, "0")
    ensures CutText(d, g, SHIFTED_TAIL) == Terminated(SHIFTED_LINES) + ((left + right) + ("\n" + ("}" + SHIFTED_TAIL)))
  {
    hide Terminated, NewBody, SampleBody, EntryLine, CutText;
    GrownBody(PRIVATE_ADDRESS);
    CutTextShape(d, g, SHIFTED_TAIL);
    assert SHIFTED_TAIL + "" == SHIFTED_TAIL;
    ShiftedLines([DEFAULT_LINE, left + right]);
    assert [DirectiveText(EFFECTIVE_RATE_VAR), OPENING] + [DEFAULT_LINE, left + right] == SHIFTED_LINES + [left + right];
    TerminatedSnoc(SHIFTED_LINES, left + right);
    Assoc(g.before + g.header, SampleBody([DEFAULT_LINE, left + right]), "}" + SHIFTED_TAIL);
    Assoc(Terminated(SHIFTED_LINES), (left + right) + "\n", "}" + SHIFTED_TAIL);
    Assoc(left + right, "\n", "}" + SHIFTED_TAIL);
  }

  lemma LinesOfShiftedCut(x: string, left: string, right: string, rest: string)
    requires LineTerminated(x) && '\n' !in left && '\n' !in right
    ensures LastLine(x + left) == left && FirstLine(right + ("\n" + rest)) == right
  {
    hide Lines;
    LastLineAfter(x, left);
    OneLine(left);
    LinesAcrossNewline(right, rest);
    OneLine(right);
    Assoc(right, "\n", rest);
  }

  /**
   * For example: exempting 192.168.1.10 in this file is accepted. The region is put behind the first digit of the
   * address, and what is read back exempts 92.168.1.10 instead.
   */
  lemma OtherAddressIsExempt(valid: string -> bool, w: World)
    requires valid(PRIVATE_ADDRESS) && Willing(w)
    ensures var (file, accepted) := Step(valid, SHIFTED_FILE, SetRule(PRIVATE_ADDRESS, "", true), w);
            && accepted && ParseDoc(file).Ok?
            && !ExemptOf(ParseDoc(file).value.overrides, PRIVATE_ADDRESS)
            && ExemptOf(ParseDoc(file).value.overrides, "92.168.1.10")
  {
    hide Contains, FindGeo, Terminated, ManagedRegion, Emit, ParseDoc, SanityCheck, Step, CutText, EntryOf, EntryLine;
    hide Separator, Lines, NewBody, ExemptOf;
    assert '=' !in "}" + SHIFTED_TAIL;
    ShiftedHasNoEquals("}" + SHIFTED_TAIL);
    var g := ShiftedGeo();
    var d := RegionBehindIsRead(SHIFTED_TEXT, g);
    var os := [Override(PRIVATE_ADDRESS, "", true)];
    var d' := d.(overrides := os);
    OneRuleSorted(PRIVATE_ADDRESS);
    assert SetOverride(d, valid, PRIVATE_ADDRESS, "", true) == Ok(d');
    var left, right := PrivateEntry();
    ShiftedIsRead(d', g, left, right);
    StepIs(valid, SHIFTED_FILE, SetRule(PRIVATE_ADDRESS, "", true), w, d, d', Emit(d').value);
  }

  lemma ShiftedIsRead(d: Doc, g: Geo, left: string, right: string)
    requires d.hasManaged && d.preManaged == SHIFTED_TEXT && d.postManaged == "" && d.global == "5k"
    requires FindGeo(SHIFTED_TEXT) == Some(g) && SHIFTED_TEXT == g.before + g.Block() + SHIFTED_TAIL
    requires g == Geo(DirectiveText(EFFECTIVE_RATE_VAR) + "\n", OPENING, SampleBody([DEFAULT_LINE]), SHIFTED_TAIL)
    requires d.overrides == [Override(PRIVATE_ADDRESS, "", true)]
    requires left + right == EntryLine(PRIVATE_ADDRESS, "0") && |left| == 5 && |right| == 18 && right[0] == '9'
    requires '=' !in left && '\n' !in left && '\n' !in right && EntryIP(PRIVATE_ADDRESS) && PRIVATE_ADDRESS[1..] == "92.168.1.10"
    ensures Emit(d).Ok? && SanityCheck(Emit(d).value) && ParseDoc(Emit(d).value).Ok?
    ensures !ExemptOf(ParseDoc(Emit(d).value).value.overrides, PRIVATE_ADDRESS)
    ensures ExemptOf(ParseDoc(Emit(d).value).value.overrides, "92.168.1.10")
  {
    hide Contains, FindGeo, Terminated, ManagedRegion, Emit, ParseDoc, SanityCheck, CutText, EntryOf, EntryLine;
    hide Separator, Lines, NewBody, SampleBody, ExemptOf;
    assert d.Merged() == SHIFTED_TEXT;
    var x, rest, n := Terminated(SHIFTED_LINES), "}" + SHIFTED_TAIL, |SHIFTED_TEXT|;
    ShiftedCutText(d, g, left, right);
    GrownBody(PRIVATE_ADDRESS);
    CutTextLength(d, g, SHIFTED_TAIL);
    ShiftedCut(x, left, right, n);
    SeparatorOfText(right + ("\n" + rest));
    ShiftedHasNoEquals(left);
    TerminatedIsLineTerminated(SHIFTED_LINES);
    LinesOfShiftedCut(x, left, right, rest);
    SplitEntryIs(PRIVATE_ADDRESS, left, right);
    FiveK();
    SplitLineIsReadBack(d, g, SHIFTED_TAIL, PRIVATE_ADDRESS);
    SplitLineIsReadBack(d, g, SHIFTED_TAIL, "92.168.1.10");
    CutAtOldLength(d, g, SHIFTED_TAIL);
    var region, tail := ManagedRegion(d.overrides, "5k"), "\n" + (right + ("\n" + rest));
    ShiftedIsSane(left + (region + tail));
    Assoc(x + left, region, tail);
    Assoc(x, left, region + tail);
  }
}

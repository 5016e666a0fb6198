/** Files whose comments quote a directive, on which an accepted request edits the comment. */
module QuotingFiles {
  import opened Wrappers
  import opened Lists
  import opened Text
  import opened Regex
  import opened Patterns
  import opened Overrides
  import opened Document
  import opened ManagedRead
  import opened Directives
  import opened UserText
  import opened RoundTrip
  import opened Edits
  import opened FixedPoint
  import opened Parsed
  import opened Endpoints
  import opened Meaning
  import opened Acceptance
  import opened Samples
  import opened Mishaps

  // ---- A comment that quotes the directive ----

  /** A migrated file, as printed, whose first directive still holds a literal rate. */
  predicate Ineffective(file: string, value: string) {
    && WellFormedFile(file) && ParseDoc(file).value.hasManaged && Emit(ParseDoc(file).value) == Ok(file)
    && StillLiteral(ParseDoc(file).value, value)
  }

  lemma LiteralIsPrinted(d: Doc, value: string, ip: string)
    requires WellFormed(d) && d.hasManaged && StillLiteral(d, value)
    ensures Emit(d).Ok? && Ineffective(Emit(d).value, value) && FileRate(Emit(d).value, ip) == Some(value)
  {
    hide FindGeo, ManagedRegion, Separator, NewBody, WellFormed, Emit, ParseDoc, StillLiteral, FileRate;
    PrintedIsReread(d);
    EmitIsFixedPoint(d);
    FileIsWellFormed(Emit(d).value);
    LiteralStays(d, value, ip);
  }

  /** No edit of a migrated document touches the user's directive. */
  lemma ManagedEditKeepsText(valid: string -> bool, d: Doc, req: Request)
    requires d.hasManaged && !req.SaveRaw? && EditedDoc(valid, d, req).Ok?
    ensures var d' := EditedDoc(valid, d, req).value; d'.hasManaged && d'.Merged() == d.Merged()
  {
    hide ValidRate, SortByIP, Put;
  }

  lemma StepStaysIneffective(valid: string -> bool, file: string, req: Request, w: World, value: string)
    requires Ineffective(file, value) && Admissible(valid, file, req) && !req.SaveRaw? && w.restoreOk
    ensures Ineffective(Step(valid, file, req, w).0, value)
  {
    hide WellFormedFile, WellFormed, ParseDoc, Emit, EditedDoc, FindLimitRate, Unquoted;
    FileIsWellFormed(file);
    var d := ParseDoc(file).value;
    if Wanted(valid, file, req).Ok? {
      EditApplies(valid, d, req);
      ManagedEditKeepsText(valid, d, req);
      LiteralIsPrinted(EditedDoc(valid, d, req).value, value, "");
      SaveOutcome(file, Wanted(valid, file, req).value, w);
    }
  }

  lemma IneffectiveRate(file: string, value: string, ip: string)
    requires Ineffective(file, value)
    ensures FileRate(file, ip) == Some(value)
  {
    hide WellFormed, ParseDoc, Emit, FindLimitRate, FileRate;
    FileIsWellFormed(file);
    LiteralIsPrinted(ParseDoc(file).value, value, ip);
  }

  /** Once migrated with a literal rate in force, a file gives every client that rate, whatever rules are set. */
  lemma {:induction false} StaysIneffective(valid: string -> bool, file: string, events: seq<Event>, value: string, ip: string)
    requires Ineffective(file, value) && AdmissibleRun(valid, file, events) && forall e :: e in events ==> !e.0.SaveRaw?
    ensures Ineffective(FileAfter(valid, file, events), value)
    ensures FileRate(FileAfter(valid, file, events), ip) == Some(value)
  {
    hide Ineffective, Admissible, Step, FileRate;
    if events != [] {
      var front, last := events[..|events| - 1], events[|events| - 1];
      assert last in events && forall e :: e in front ==> e in events;
      StaysIneffective(valid, file, front, value, ip);
      StepStaysIneffective(valid, FileAfter(valid, file, front), last.0, last.1, value);
    }
    IneffectiveRate(FileAfter(valid, file, events), value, ip);
  }

  /** A file whose comment quotes a directive, in front of its own directive. */
  function QuotingFile(quoted: string, value: string): string {
    Sample([DEFAULT_LINE], ["#" + DirectiveText(quoted)], value)
  }

  lemma QuoteFacts(quoted: string)
    requires Token(quoted) && '=' !in quoted
    ensures var l := "#" + DirectiveText(quoted); '\n' !in l && !Speaks(l) && !HoldsRate(l) && !Contains(l, END_MARKER)
  {
    hide Contains, Speaks;
    var l := "#" + DirectiveText(quoted);
    PartsOfDirective(quoted);
    HeadIsSilent(l);
    assert '=' !in LIMIT_RATE && '=' !in " " && '=' !in ";" && '=' !in "#";
    AbsentFromConcat('=', quoted, ";");
    AbsentFromConcat('=', " ", quoted + ";");
    AbsentFromConcat('=', LIMIT_RATE, " " + (quoted + ";"));
    AbsentFromConcat('=', "#", DirectiveText(quoted));
    MarkerHasEquals();
    if Contains(l, END_MARKER) { ContainsChar(l, END_MARKER, '='); }
    SilentHoldsNoRate(l);
  }

  lemma SilentHoldsNoRate(l: string)
    requires !Speaks(l)
    ensures !HoldsRate(l)
  {
  }

  lemma QuotingLinesAreGood(quoted: string)
    requires Token(quoted) && '=' !in quoted
    ensures GoodLines([DEFAULT_LINE], ["#" + DirectiveText(quoted)])
  {
    hide Contains, Speaks, HoldsRate, GoodLines, DirectiveText;
    DefaultLineFacts();
    QuoteFacts(quoted);
    OneOfEach(DEFAULT_LINE, "#" + DirectiveText(quoted));
  }

  lemma OneOfEach(a: string, b: string)
    requires '\n' !in a && '}' !in a && !Speaks(a) && !Contains(a, END_MARKER)
    requires '\n' !in b && !HoldsRate(b) && !Contains(b, END_MARKER)
    ensures GoodLines([a], [b])
  {
    hide Contains, Speaks, HoldsRate;
  }

  lemma RateHasNoEquals(v: string)
    requires ValidRate(v)
    ensures GlobalToken(v) && '=' !in v && '#' !in v && '$' !in v
  {
    ValidRateChars(v);
    RateChars(v);
  }

  lemma RateChars(s: string)
    requires ValidRate(s)
    ensures '=' !in s
  {
    hide Run;
    if s != "0" {
      var (digits, rest) := Run(Digit, s);
      assert forall c :: c in s ==> c in digits || c in rest;
      assert forall c :: c in digits ==> Is(Digit, c);
    }
  }

  // ---- The quote comes first in the file ----

  /** The lines of the block and the hash in front of the quote. */
  function FrontOfQuote(): string {
    Terminated(FrontLines([DEFAULT_LINE], [])) + "#"
  }

  lemma QuotingPieces(quoted: string, value: string)
    ensures QuotingFile(quoted, value) == FrontOfQuote() + (DirectiveText(quoted) + ("\n" + (DirectiveText(value) + "\n")))
  {
    hide DirectiveText;
    var front := FrontLines([DEFAULT_LINE], []);
    var q := "#" + DirectiveText(quoted);
    assert FrontLines([DEFAULT_LINE], [q]) + [DirectiveText(value)] == (front + [q]) + [DirectiveText(value)];
    TerminatedSnoc(front + [q], DirectiveText(value));
    TerminatedSnoc(front, q);
    PiecesOfQuote(Terminated(front), "#", DirectiveText(quoted), "\n", DirectiveText(value) + "\n");
  }

  lemma PiecesOfQuote(f: string, h: string, t: string, n: string, rest: string)
    ensures (f + ((h + t) + n)) + rest == (f + h) + (t + (n + rest))
  {
  }

  /** A directive's text does not start in front of the quote. */
  lemma NotBeforeQuote(t: string, i: int, y: string)
    requires t != "" && '\n' !in t && t[0] == 'l' && '_' in t && ';' in t && '#' !in t
    requires At(FrontOfQuote() + y, i, t)
    ensures i >= |FrontOfQuote()|
  {
    hide Terminated;
    var ls := FrontLines([DEFAULT_LINE], []);
    var f := Terminated(ls);
    var s := FrontOfQuote() + y;
    assert s[|f|] == '#';
    assert s[i..i + |t|][0] == s[i];
    NotInBlockLines(t);
    assert f + "" == f;
    if i < |f| {
      TerminatedIsLineTerminated(ls);
      Assoc(f, "#", y);
      InsideBefore(f, "#" + y, i, t);
      ContainedInTerminated(ls, "", t);
    }
  }

  lemma NotInBlockLines(t: string)
    requires '_' in t && ';' in t
    ensures !Contains("", t)
    ensures forall l :: l in FrontLines([DEFAULT_LINE], []) ==> !Contains(l, t)
  {
    OpeningHasNoSemicolon();
    DefaultHasNoUnderscore();
    forall l | l in FrontLines([DEFAULT_LINE], []) ensures !Contains(l, t) {
      assert l == OPENING || l == DEFAULT_LINE || l == "}";
      if Contains(l, t) {
        ContainsChar(l, t, ';');
        ContainsChar(l, t, '_');
      }
    }
    if Contains("", t) { ContainsChar("", t, ';'); }
  }

  lemma OpeningHasNoSemicolon()
    ensures ';' !in OPENING
  {
    OpeningIsHeader();
    HeaderFacts(OPENING);
  }

  lemma DefaultHasNoUnderscore()
    ensures '_' !in DEFAULT_LINE
  {
    assert '_' !in INDENT && '_' !in DEFAULT_KEY && '_' !in " 1;";
    AbsentFromConcat('_', DEFAULT_KEY, " 1;");
    AbsentFromConcat('_', INDENT, DEFAULT_KEY + " 1;");
  }

  lemma DirectiveLetters(v: string)
    requires Token(v) && '#' !in v
    ensures var t := DirectiveText(v); t != "" && '\n' !in t && t[0] == 'l' && '_' in t && ';' in t && '#' !in t
  {
    PartsOfDirective(v);
    var t := DirectiveText(v);
    assert LIMIT_RATE[0] == 'l' && LIMIT_RATE[5] == '_';
    assert t[0] == 'l' && t[5] == '_' && t[|t| - 1] == ';';
    assert '#' !in LIMIT_RATE;
    AbsentFromConcat('#', v, ";");
    AbsentFromConcat('#', " ", v + ";");
    AbsentFromConcat('#', LIMIT_RATE, " " + (v + ";"));
  }

  /** Where the comment quotes the directive exactly, the textual replacement edits the comment. */
  lemma QuoteIsReplaced(v: string, value: string)
    requires Token(v) && '#' !in v
    ensures ReplaceFirst(QuotingFile(v, v), DirectiveText(v), DirectiveText(value)) == QuotingFile(value, v)
  {
    var t, f := DirectiveText(v), FrontOfQuote();
    var y := "\n" + (t + "\n");
    var s := QuotingFile(v, v);
    DirectiveLetters(v);
    QuotingPieces(v, v);
    QuotingPieces(value, v);
    Assoc(f, t, y);
    AtMiddle(f, t, y);
    NotBeforeQuote(t, Index(s, t), t + y);
    hide DirectiveText, FrontOfQuote, QuotingFile;
    assert Index(s, t) == |f|;
    assert s[..|f|] == f && s[|f| + |t|..] == y;
    Assoc(f, DirectiveText(value), y);
  }

  // ---- Migrating such a file ----

  lemma {:induction false} NoConnInLines(ls: seq<string>)
    requires forall l :: l in ls ==> MatchLimitConn(l).None?
    ensures FirstConn(ls) == None
  {
    if ls != [] {
      assert ls[0] in ls && forall l :: l in ls[1..] ==> l in ls;
      NoConnInLines(ls[1..]);
    }
  }

  lemma QuotingHasNoConn(quoted: string, value: string)
    requires Token(quoted) && '=' !in quoted && Token(value)
    ensures ConnLimitOf(QuotingFile(quoted, value)) == None
  {
    hide Terminated, Lines, Contains, MatchLimitRate, MatchLimitConn, FirstConn, DirectiveText, Speaks, Reads, Concat;
    hide OPENING, IsKept, EntryOf;
    var q, t := "#" + DirectiveText(quoted), DirectiveText(value);
    var ls := FrontLines([DEFAULT_LINE], [q]) + [t];
    QuoteFacts(quoted);
    PartsOfDirective(value);
    DefaultLineFacts();
    OpeningIsSilentLine();
    OpeningIsLine('\n');
    RateIsNotConn(DirectiveParts(value), "");
    assert t + "" == t;
    FiveNoConn(OPENING, DEFAULT_LINE, "}", q, t, ls);
  }

  lemma FiveNoConn(a: string, b: string, c: string, d: string, e: string, ls: seq<string>)
    requires ls == [a] + [b] + [c] + [d] + [e] && NoNewlines([a, b, c, d, e])
    requires !Speaks(a) && !Speaks(b) && !Speaks(c) && !Speaks(d) && MatchLimitConn(e).None?
    ensures FirstConn(Lines(Terminated(ls))) == None
  {
    hide Terminated, Lines, MatchLimitRate, MatchLimitConn, FirstConn;
    EmptyIsSilent();
    assert ls == [a, b, c, d, e];
    TerminatedLines(ls, "");
    assert Terminated(ls) + "" == Terminated(ls) && Lines("") == [""] by { OneLine(""); }
    NoConnInLines(ls + [""]);
  }

  lemma MigrateIs(d: Doc, p: Place, user: string)
    requires !d.hasManaged && FindLimitRate(d.postManaged) == Some(p) && p.parts[3] != EFFECTIVE_RATE_VAR
    requires ReplaceDirective(d.postManaged, p, EFFECTIVE_RATE_VAR) == user
    ensures Migrate(d) == Ok(d.(global := p.parts[3], hasManaged := true, postManaged := user))
  {
    hide FindLimitRate, ReplaceDirective;
  }

  lemma MigratedPlace(d: Doc, p: Place, v: string)
    requires p.parts == DirectiveParts(v) && Concat(p.parts) == DirectiveText(v)
    requires "" + (LIMIT_RATE + (" " + (EFFECTIVE_RATE_VAR + ";"))) == DirectiveText(EFFECTIVE_RATE_VAR)
    requires d.postManaged == QuotingFile(v, v)
    requires ReplaceFirst(QuotingFile(v, v), DirectiveText(v), DirectiveText(EFFECTIVE_RATE_VAR)) == QuotingFile(EFFECTIVE_RATE_VAR, v)
    ensures ReplaceDirective(d.postManaged, p, EFFECTIVE_RATE_VAR) == QuotingFile(EFFECTIVE_RATE_VAR, v)
  {
    hide ReplaceFirst, QuotingFile, DirectiveText, Concat;
  }

  lemma DirectiveTextIs(value: string)
    ensures "" + (LIMIT_RATE + (" " + (value + ";"))) == DirectiveText(value)
  {
  }

  lemma QuotingIsRead(v: string) returns (d: Doc)
    requires ValidRate(v)
    ensures ParseDoc(QuotingFile(v, v)) == Ok(d) && !d.hasManaged && d.preManaged == "" && d.postManaged == QuotingFile(v, v)
    ensures FindLimitRate(d.postManaged) == Some(SamplePlace([DEFAULT_LINE], ["#" + DirectiveText(v)], v))
    ensures d.overrides == [] && d.connLimit == DEFAULT_CONN_LIMIT && !d.connLimitParsed
  {
    hide Contains, FindGeo, FindLimitRate, Terminated, SilentBlock, ParseDoc, WellFormedFile, Entries, GoodLines;
    hide DirectiveText, ConnLimitOf, ExemptsFrom;
    hide Concat, Lines, SortByIP, FirstRate, Reads;
    RateHasNoEquals(v);
    QuotingLinesAreGood(v);
    d := SampleIsRead([DEFAULT_LINE], ["#" + DirectiveText(v)], v);
    DefaultLineFacts();
    NoEntries(DEFAULT_LINE);
    QuotingHasNoConn(v, v);
    ParsedAgrees(QuotingFile(v, v));
  }

  /** What reading and migrating the file gives. */
  lemma QuotingIsMigrated(v: string) returns (d: Doc, d': Doc)
    requires ValidRate(v)
    ensures ParseDoc(QuotingFile(v, v)) == Ok(d) && Migrate(d) == Ok(d')
    ensures d'.hasManaged && d'.preManaged == "" && d'.postManaged == QuotingFile(EFFECTIVE_RATE_VAR, v) && d'.global == v
    ensures d'.overrides == [] && d'.connLimit == DEFAULT_CONN_LIMIT && !d'.connLimitParsed
  {
    hide FindLimitRate, ParseDoc, ReplaceFirst, DirectiveText, Concat, ReplaceDirective, Migrate, Reads, QuotingFile;
    RateHasNoEquals(v);
    EffectiveVarFacts();
    d := QuotingIsRead(v);
    PartsOfDirective(v);
    QuoteIsReplaced(v, EFFECTIVE_RATE_VAR);
    var p := SamplePlace([DEFAULT_LINE], ["#" + DirectiveText(v)], v);
    DirectiveTextIs(EFFECTIVE_RATE_VAR);
    MigratedPlace(d, p, v);
    MigrateIs(d, p, QuotingFile(EFFECTIVE_RATE_VAR, v));
    d' := d.(global := v, hasManaged := true, postManaged := QuotingFile(EFFECTIVE_RATE_VAR, v));
  }

  /** The migrated document is well formed and sane, with its literal rate still in force. */
  lemma QuotingMigrates(v: string, d: Doc)
    requires ValidRate(v)
    requires d.hasManaged && d.preManaged == "" && d.postManaged == QuotingFile(EFFECTIVE_RATE_VAR, v) && d.global == v
    requires d.overrides == [] && d.connLimit == DEFAULT_CONN_LIMIT && !d.connLimitParsed
    ensures WellFormed(d) && StillLiteral(d, v) && Recognizable(d)
  {
    hide Contains, FindGeo, FindLimitRate, Terminated, SilentBlock, ParseDoc, Entries, GoodLines, ConnLimitOf;
    hide ExemptsFrom, SortByIP, ValidRate;
    var q := "#" + DirectiveText(EFFECTIVE_RATE_VAR);
    RateHasNoEquals(v);
    VarHasNoEquals();
    QuotingLinesAreGood(EFFECTIVE_RATE_VAR);
    var e := SampleIsRead([DEFAULT_LINE], [q], v);
    QuotingHasNoConn(EFFECTIVE_RATE_VAR, v);
    assert d.Merged() == e.Merged();
    EmptyHasNoMarkers();
    ValidIsPlain(v);
    SampleIsRecognizable(d, [DEFAULT_LINE], [q], v);
  }

  /**
   * For example, with v "5k": migrating this file is accepted and edits the comment. From then on every
   * client gets the rate of the directive, over every run and whatever rules are accepted.
   */
  lemma CommentIsMigratedInstead(valid: string -> bool, v: string, w: World, events: seq<Event>, ip: string)
    requires ValidRate(v) && Willing(w)
    ensures var (file, accepted) := Step(valid, QuotingFile(v, v), MigrateFile, w);
            && accepted && Ineffective(file, v) && Recognizable(ParseDoc(file).value)
            && (AdmissibleRun(valid, file, events) && (forall e :: e in events ==> !e.0.SaveRaw?) ==>
                  FileRate(FileAfter(valid, file, events), ip) == Some(v))
  {
    hide Ineffective, WellFormed, ParseDoc, Emit, SanityCheck, Recognizable, StillLiteral, AdmissibleRun, FileRate;
    hide Migrate, Step;
    var d, d' := QuotingIsMigrated(v);
    QuotingMigrates(v, d');
    LiteralIsPrinted(d', v, ip);
    PrintedIsSane(d');
    var file := Emit(d').value;
    StepIs(valid, QuotingFile(v, v), MigrateFile, w, d, d', file);
    if AdmissibleRun(valid, file, events) && forall e :: e in events ==> !e.0.SaveRaw? {
      StaysIneffective(valid, file, events, v, ip);
    }
  }

  /** So a rule with a rate is accepted, is in the file, and changes nothing for its client. */
  lemma AcceptedRuleHasNoEffect(valid: string -> bool, w: World, ip: string)
    requires Willing(w) && w.restoreOk && valid(ip) && EntryIP(ip)
    ensures var migrated := Step(valid, QuotingFile("5k", "5k"), MigrateFile, w).0;
            var (file, accepted) := Step(valid, migrated, SetRule(ip, "1m", false), w);
            && accepted && ParseDoc(file).Ok?
            && ip in FileSettings(file).rules && FileSettings(file).rules[ip] == Rule("1m", false)
            && FileRate(file, ip) == Some("5k")
  {
    hide ParseDoc, Emit, SanityCheck, AdmissibleRun, FileRate, Step, FileSettings, ValidRate, WellFormedFile, Unquoted;
    FiveK();
    OneM();
    var req := SetRule(ip, "1m", false);
    CommentIsMigratedInstead(valid, "5k", w, [], ip);
    var migrated := Step(valid, QuotingFile("5k", "5k"), MigrateFile, w).0;
    StepStaysIneffective(valid, migrated, req, w, "5k");
    IneffectiveRate(Step(valid, migrated, req, w).0, "5k", ip);
    StepRefines(valid, migrated, req, w);
    IneffectiveAccepts(valid, migrated, req, w);
  }

  lemma OneM()
    ensures ValidRate("1m")
  {
    assert Run(Digit, "1m").1 == "m" by { RunIs(Digit, "1", "m"); assert "1" + "m" == "1m"; }
  }

  lemma IneffectiveAccepts(valid: string -> bool, file: string, req: Request, w: World)
    requires Ineffective(file, "5k") && Admissible(valid, file, req) && !req.SaveRaw? && Usable(valid, req) && Willing(w)
    requires Recognizable(ParseDoc(file).value)
    ensures Step(valid, file, req, w).1
  {
    hide ParseDoc, Step, Usable, Recognizable, WellFormedFile;
    AcceptedIff(valid, file, req, w);
  }

  // ---- Setting a rate that a comment quotes ----

  lemma EditedSample(entries: seq<string>, middle: seq<string>, value: string, value': string)
    requires Token(value') && GoodLines(entries, middle)
    ensures Edited(SamplePlace(entries, middle, value), value').Whole() == Sample(entries, middle, value')
  {
    hide Contains, Terminated, GoodLines;
    assert NewParts(SamplePlace(entries, middle, value), value') == DirectiveParts(value');
    SampleIsPlace(entries, middle, value');
  }

  lemma OneMIsNotQuotedAsFiveK()
    ensures Unquoted(QuotingFile("1m", "5k"))
  {
    hide Contains, FindLimitRate, Terminated, Speaks, HoldsRate, GoodLines;
    OneM();
    FiveK();
    ValidRateChars("1m");
    RateHasNoEquals("1m");
    QuotingLinesAreGood("1m");
    var q := "#" + DirectiveText("1m");
    SampleIsPlace([DEFAULT_LINE], [q], "5k");
    FindLimitRateIs(SamplePlace([DEFAULT_LINE], [q], "5k"));
    PartsOfDirective("5k");
    EntriesAreOrdinary();
    OrdinaryIsLine(DEFAULT_LINE);
    NoFiveInQuote();
    NoFiveAnywhere([DEFAULT_LINE], [q], "5k");
  }

  lemma NoFiveInQuote()
    ensures '5' !in "#" + DirectiveText("1m")
  {
    assert '5' !in LIMIT_RATE && '5' !in " " && '5' !in "1m" + ";" && '5' !in "#";
    AbsentFromConcat('5', " ", "1m" + ";");
    AbsentFromConcat('5', LIMIT_RATE, " " + ("1m" + ";"));
    AbsentFromConcat('5', "#", DirectiveText("1m"));
  }

  lemma NoFiveAnywhere(entries: seq<string>, middle: seq<string>, value: string)
    requires value != "" && value[0] == '5' && forall l :: l in entries || l in middle ==> '5' !in l
    ensures !Contains(Terminated(FrontLines(entries, middle)), DirectiveText(value))
  {
    var s, t := Terminated(FrontLines(entries, middle)), DirectiveText(value);
    assert '5' !in OPENING && '5' !in "}";
    AbsentFromTerminated(FrontLines(entries, middle), '5');
    assert t[11] == '5';
    if Contains(s, t) { ContainsChar(s, t, '5'); }
  }

  /**
   * For example: this file quotes another rate than its own, so setting that rate works. But then the file
   * quotes its directive, and migrating it is not effective any more: it edits the comment instead.
   */
  lemma QuotedRateIsSet(valid: string -> bool, w: World)
    requires Willing(w)
    ensures var file, file' := QuotingFile("1m", "5k"), QuotingFile("1m", "1m");
            && WellFormedFile(file) && Unquoted(file)
            && Step(valid, file, SetGlobalRate("1m"), w) == (file', true)
            && !Unquoted(file') && !Effective(file', MigrateFile)
  {
    hide Contains, FindGeo, FindLimitRate, Terminated, SilentBlock, ParseDoc, Entries, GoodLines, ConnLimitOf;
    hide ExemptsFrom, SortByIP, ValidRate;
    hide Emit, SanityCheck, WellFormed, WellFormedFile, Recognizable, Step, Unquoted, SetGlobal, SampleGeo, IsKept;
    hide IsBlankLine, QuotingFile, DirectiveText, Filter;
    var file, file' := QuotingFile("1m", "5k"), QuotingFile("1m", "1m");
    OneMIsNotQuotedAsFiveK();
    var d, d' := QuotedRateDoc();
    StepIs(valid, file, SetGlobalRate("1m"), w, d, d', file');
    QuotedNow();
  }

  lemma QuotedRateDoc() returns (d: Doc, d': Doc)
    ensures ParseDoc(QuotingFile("1m", "5k")) == Ok(d) && WellFormedFile(QuotingFile("1m", "5k"))
    ensures SetGlobal(d, "1m") == (d', None) && Emit(d') == Ok(QuotingFile("1m", "1m"))
    ensures SanityCheck(QuotingFile("1m", "1m"))
  {
    hide Contains, FindGeo, FindLimitRate, Terminated, SilentBlock, ParseDoc, Entries, GoodLines, ConnLimitOf;
    hide ExemptsFrom, SortByIP, ValidRate;
    hide Emit, SanityCheck, WellFormed, WellFormedFile, Recognizable, Unquoted, ReplaceDirective, SampleGeo, IsKept;
    hide IsBlankLine, DirectiveText, Filter;
    var q := "#" + DirectiveText("1m");
    OneM();
    FiveK();
    RateHasNoEquals("1m");
    QuotingLinesAreGood("1m");
    OneMIsNotQuotedAsFiveK();
    d := SampleIsRead([DEFAULT_LINE], [q], "5k");
    DefaultLineFacts();
    NoEntries(DEFAULT_LINE);
    FileIsWellFormed(QuotingFile("1m", "5k"));
    SetGlobalIsSet(d, "1m");
    SetGlobalKeeps(d, "1m");
    d' := SetGlobal(d, "1m").0;
    EditedSample([DEFAULT_LINE], [q], "5k", "1m");
    QuotingPrints(d', q);
    SampleIsRecognizable(d, [DEFAULT_LINE], [q], "5k");
    SetGlobalStaysRecognizable(d, "1m");
    PrintedIsSane(d');
  }

  lemma SetGlobalIsSet(d: Doc, rate: string)
    requires ValidRate(rate) && rate != "0" && FindLimitRate(d.postManaged).Some?
    ensures SetGlobal(d, rate).1 == None
  {
  }

  lemma QuotingPrints(d: Doc, q: string)
    requires WellFormed(d) && !d.hasManaged && d.overrides == [] && d.postManaged == Sample([DEFAULT_LINE], [q], "1m")
    ensures Emit(d) == Ok(Sample([DEFAULT_LINE], [q], "1m"))
  {
    hide Contains, FindGeo, FindLimitRate, Terminated, IsKept, IsBlankLine, WellFormed, Emit;
    DefaultLineFacts();
    FilterOfOne(DEFAULT_LINE);
    SampleIsGeo([DEFAULT_LINE], [q], "1m");
    FindGeoIs(SampleGeo([DEFAULT_LINE], [q], "1m"));
    UnmanagedMerged(d);
    SampleIsPrinted(d, [DEFAULT_LINE], [DEFAULT_LINE], [q], "1m");
  }

  lemma QuotedNow()
    ensures !Unquoted(QuotingFile("1m", "1m")) && !Effective(QuotingFile("1m", "1m"), MigrateFile)
  {
    hide Contains, FindGeo, FindLimitRate, Terminated, SilentBlock, ParseDoc, Entries, GoodLines, SortByIP;
    hide ExemptsFrom, WellFormedFile;
    OneM();
    RateHasNoEquals("1m");
    QuotingLinesAreGood("1m");
    var q := "#" + DirectiveText("1m");
    var d := SampleIsRead([DEFAULT_LINE], [q], "1m");
    PartsOfDirective("1m");
    QuoteInFront(FrontLines([DEFAULT_LINE], []), DirectiveText("1m"));
    assert FrontLines([DEFAULT_LINE], [q]) == FrontLines([DEFAULT_LINE], []) + [q];
  }

  lemma QuoteInFront(ls: seq<string>, t: string)
    ensures Contains(Terminated(ls + ["#" + t]), t)
  {
    hide Contains;
    TerminatedSnoc(ls, "#" + t);
    ContainsWhole(t);
    HoldsInside(Terminated(ls) + "#", t, "\n", t);
    Assoc("#", t, "\n");
    Assoc(Terminated(ls), "#", t + "\n");
  }
}

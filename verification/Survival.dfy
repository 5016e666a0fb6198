/** The user's own text over whole runs: what the program may change of it, and what never changes. */
module Survival {
  import opened Wrappers
  import opened Text
  import opened Regex
  import opened Patterns
  import opened Overrides
  import opened Document
  import opened Rewrite
  import opened Directives
  import opened UserText
  import opened RoundTrip
  import opened Edits
  import opened QuotedMigration
  import opened Endpoints

  // ---- The user's own text ----

  predicate HasBlock(d: Doc) {
    FindGeo(d.Merged()).Some? && |BlockOf(d).before| >= |d.preManaged|
  }

  /** The user's text behind the managed region, cut at its block. */
  function TextAround(d: Doc): Geo
    requires HasBlock(d)
  {
    BlockOf(d).(before := BlockOf(d).before[|d.preManaged|..])
  }

  /** The same text with the entries taken out of the block, so that only what the user wrote is left. */
  function OwnText(d: Doc): string
    requires HasBlock(d)
  {
    Rewritten(TextAround(d), []).Whole()
  }

  /** These pieces are the text read from the file, so with ContentIsSplit they are the whole file. */
  lemma TextAroundIs(d: Doc)
    requires HasBlock(d)
    ensures d.postManaged == TextAround(d).Whole()
    ensures OwnText(d) == TextAround(d).(body := "\n" + Terminated(UserLines(TextAround(d).body))).Whole()
  {
    hide FindGeo, Terminated, UserLines;
    BeforeSplits(d);
    var g, mid := BlockOf(d), TextAround(d).before;
    BeforeCut(g, d.preManaged, mid);
    assert d.Merged()[|d.preManaged|..] == d.postManaged;
    assert (d.preManaged + TextAround(d).Whole())[|d.preManaged|..] == TextAround(d).Whole();
    NoEntriesLeft(g.body);
  }

  lemma NoEntriesLeft(body: string)
    ensures NewBody(body, []) == "\n" + Terminated(UserLines(body))
  {
    assert UserLines(body) + [] == UserLines(body);
  }

  // ---- One print ----

  /** What the printer puts between the region and the user's text. */
  function BlankLine(d: Doc): string
    requires HasBlock(d)
  {
    if d.hasManaged then Separator(NewPost(d)) else ""
  }

  lemma HeadOfWhole(g: Geo, body: string)
    requires g.before + g.header != ""
    ensures Separator(g.Whole()) == Separator(g.(body := body).Whole())
  {
    WholeShape(g);
    WholeShape(g.(body := body));
  }

  /** Whether a blank line is needed can be told from the user's own text. */
  lemma BlankLineOfOwnText(d: Doc)
    requires HasBlock(d)
    ensures BlankLine(d) == if d.hasManaged then Separator(OwnText(d)) else ""
  {
    hide FindGeo, NewBody;
    FindGeoFound(d.Merged());
    HeaderFacts(BlockOf(d).header);
    HeadOfWhole(Rewritten(TextAround(d), d.overrides), NewBody(TextAround(d).body, []));
  }

  /** Printing and reading back adds the separating line and nothing else to the user's own text. */
  lemma PrintKeepsOwnText(d: Doc)
    requires WellFormed(d) && HasBlock(d)
    ensures HasBlock(Reread(d))
    ensures OwnText(Reread(d)) == BlankLine(d) + OwnText(d)
    ensures UserLines(TextAround(Reread(d)).body) == UserLines(TextAround(d).body)
  {
    hide FindGeo, NewBody, UserLines, Separator, Speaking, SilentBlock, ConnLimitOf;
    var g, pre := BlockOf(d), d.preManaged;
    var mid, sep := TextAround(d).before, BlankLine(d);
    BlankLineIsLine(d);
    UserTextIsReread(d, sep);
    assert Reread(d).Merged() == pre + (sep + NewPost(d)) by { assert "" + NewPost(d) == NewPost(d); }
    RewriteIsCanonical(g.body, d.overrides, []);
    assert (pre + (sep + mid))[|pre|..] == sep + mid;
    BeforeCut(Geo(sep + mid, g.header, NewBody(g.body, []), g.after), sep, mid);
  }

  lemma BlankLineIsLine(d: Doc)
    requires HasBlock(d)
    ensures BlankLine(d) == "" || BlankLine(d) == "\n"
  {
  }

  // ---- One edit ----

  /** Rewriting the first directive and taking the entries out of the block can be done in either order. */
  lemma EditCommutes(g: Geo, p: Place, value: string, os: seq<Override>) returns (g': Geo, q: Place)
    requires IsGeo(g) && SilentBlock(g) && g.Whole() == p.Whole() && IsFirst(p) && Token(value)
    requires forall o :: o in os ==> EntryIP(o.ip)
    ensures FindGeo(Edited(p, value).Whole()) == Some(g') && g' == g.(before := g'.before, after := g'.after)
    ensures FindLimitRate(Rewritten(g, os).Whole()) == Some(q) && q.parts == p.parts
    ensures Rewritten(g', os).Whole() == Edited(q, value).Whole()
  {
    hide FindGeo, FindLimitRate, Concat, SilentBlock, NewBody, HeaderFree, IsHeader;
    var r := Rewritten(g, os);
    SilentIsApart(p, g);
    RewrittenIsGeo(g, os);
    RewriteIsSilent(g, os);
    q := DirectiveAfterRewrite(g, os, p);
    var r': Geo;
    if |p.before| + |Concat(p.parts)| <= |g.before| {
      g' := EditInFront(g, p, value);
      r' := EditInFront(r, q, value);
    } else {
      g' := EditBehind(g, p, value);
      r' := EditBehind(r, q, value);
    }
    assert r' == Rewritten(g', os);
    FindGeoIs(g');
  }

  lemma EditKeepsOwnText(d: Doc, value: string)
    requires WellFormed(d) && !d.hasManaged && FindLimitRate(d.postManaged).Some? && Token(value) && HasBlock(d)
    ensures var d' := d.(postManaged := Edited(FindLimitRate(d.postManaged).value, value).Whole());
            && HasBlock(d') && TextAround(d').body == TextAround(d).body
            && FindLimitRate(OwnText(d)).Some?
            && OwnText(d') == Edited(FindLimitRate(OwnText(d)).value, value).Whole()
  {
    hide FindGeo, FindLimitRate, NewBody, SilentBlock, Concat, ConnLimitOf;
    var user := d.postManaged;
    assert d.preManaged == "" && d.Merged() == user;
    FindLimitRateFound(user);
    FindGeoFound(user);
    var p, g := FindLimitRate(user).value, BlockOf(d);
    var g', q := EditCommutes(g, p, value, []);
    var d' := d.(postManaged := Edited(p, value).Whole());
    assert d'.Merged() == d'.postManaged;
    assert TextAround(d) == g && TextAround(d') == g';
  }

  /** A second edit of the directive replaces the first one. */
  lemma EditTwice(p: Place, v: string, value: string)
    requires IsFirst(p) && Token(v)
    ensures FindLimitRate(Edited(p, v).Whole()) == Some(Edited(p, v))
    ensures Edited(Edited(p, v), value) == Edited(p, value)
  {
    NewPartsRead(p, v);
    FindLimitRateIs(Edited(p, v));
  }

  // ---- From one document to a later one ----

  /** The text with its first directive set to a value. */
  function WithRate(s: string, value: string): string
    requires FindLimitRate(s).Some?
  {
    Edited(FindLimitRate(s).value, value).Whole()
  }

  /**
   * A later document of the same file: the text in front of the region and the user's lines of the block are
   * the same. The rest of the user's text is the same up to the first directive, which only SetGlobal (in an
   * unmanaged file) and Migrate rewrite, and one newline behind the region.
   */
  predicate SameUserText(d0: Doc, d: Doc)
    requires HasBlock(d0) && HasBlock(d)
  {
    var u0, u := OwnText(d0), OwnText(d);
    && d.preManaged == d0.preManaged
    && UserLines(TextAround(d).body) == UserLines(TextAround(d0).body)
    && if d0.hasManaged then d.hasManaged && (u == u0 || u == "\n" + u0)
       else if !d.hasManaged then u == u0 || (FindLimitRate(u0).Some? && Token(d.global) && u == WithRate(u0, d.global))
       else FindLimitRate(u0).Some? && (u == WithRate(u0, EFFECTIVE_RATE_VAR) || u == "\n" + WithRate(u0, EFFECTIVE_RATE_VAR))
  }

  lemma SameFromStart(d: Doc)
    requires WellFormed(d)
    ensures HasBlock(d) && SameUserText(d, d)
  {
  }

  /** Edits of the rules leave the text alone. */
  lemma SameTextSame(d0: Doc, d: Doc, d': Doc)
    requires HasBlock(d0) && HasBlock(d) && SameUserText(d0, d) && d' == d.(overrides := d'.overrides)
    ensures HasBlock(d') && SameUserText(d0, d')
  {
    hide FindGeo, FindLimitRate, NewBody;
    assert d'.Merged() == d.Merged();
  }

  /** Setting the directive of an unmanaged document once more. */
  lemma RateSetAgain(d0: Doc, d: Doc, value: string)
    requires HasBlock(d0) && HasBlock(d) && SameUserText(d0, d) && WellFormed(d) && !d.hasManaged && Token(value)
    requires FindLimitRate(d.postManaged).Some?
    ensures var d' := d.(postManaged := Edited(FindLimitRate(d.postManaged).value, value).Whole());
            && FindLimitRate(OwnText(d0)).Some? && HasBlock(d') && OwnText(d') == WithRate(OwnText(d0), value)
            && UserLines(TextAround(d').body) == UserLines(TextAround(d0).body)
  {
    hide FindGeo, FindLimitRate, NewBody, Edited, WellFormed, UserLines, HasBlock, OwnText, TextAround;
    EditKeepsOwnText(d, value);
    var u0 := OwnText(d0);
    if OwnText(d) != u0 {
      FindLimitRateFound(u0);
      EditTwice(FindLimitRate(u0).value, d.global, value);
    }
  }

  lemma SetGlobalSame(d0: Doc, d: Doc, rate: string)
    requires HasBlock(d0) && HasBlock(d) && SameUserText(d0, d) && WellFormed(d)
    requires SetGlobal(d, rate).1.None? && (d.hasManaged || Unquoted(d.postManaged))
    ensures HasBlock(SetGlobal(d, rate).0) && SameUserText(d0, SetGlobal(d, rate).0)
  {
    hide FindGeo, FindLimitRate, NewBody, WellFormed, UserLines, Unquoted, ReplaceDirective;
    SetGlobalKeeps(d, rate);
    if d.hasManaged {
      assert d.(global := rate).Merged() == d.Merged();
    } else {
      ValidRateChars(rate);
      RateSetAgain(d0, d, rate);
      assert SetGlobal(d, rate).0.Merged() == d.(postManaged := SetGlobal(d, rate).0.postManaged).Merged();
    }
  }

  lemma MigrateSame(d0: Doc, d: Doc)
    requires HasBlock(d0) && HasBlock(d) && SameUserText(d0, d) && WellFormed(d)
    requires Migrate(d).Ok? && (d.hasManaged || Unquoted(d.postManaged))
    ensures HasBlock(Migrate(d).value) && SameUserText(d0, Migrate(d).value)
  {
    hide FindGeo, FindLimitRate, NewBody, WellFormed, UserLines, Unquoted, ReplaceDirective;
    MigrateKeeps(d);
    if !d.hasManaged {
      EffectiveVarFacts();
      RateSetAgain(d0, d, EFFECTIVE_RATE_VAR);
      assert Migrate(d).value.Merged() == d.(postManaged := Migrate(d).value.postManaged).Merged();
    }
  }

  lemma EditSame(valid: string -> bool, d0: Doc, d: Doc, req: Request)
    requires HasBlock(d0) && HasBlock(d) && SameUserText(d0, d) && WellFormed(d) && !req.SaveRaw?
    requires EditsDirective(d, req) ==> Unquoted(d.postManaged)
    requires EditedDoc(valid, d, req).Ok?
    ensures HasBlock(EditedDoc(valid, d, req).value) && SameUserText(d0, EditedDoc(valid, d, req).value)
  {
    hide HasBlock, SameUserText, WellFormed, Unquoted, Migrate, SetGlobal;
    match req
    case MigrateFile =>
      MigrateSame(d0, d);
    case SetRule(ip, rate, exempt) =>
      if !d.hasManaged && rate != "" {
        MigrateSame(d0, d);
        SameTextSame(d0, Migrate(d).value, EditedDoc(valid, d, req).value);
      } else {
        SameTextSame(d0, d, EditedDoc(valid, d, req).value);
      }
    case ClearRule(ip) =>
      SameTextSame(d0, d, EditedDoc(valid, d, req).value);
    case SetGlobalRate(rate) =>
      SetGlobalSame(d0, d, rate);
  }

  lemma OneNewline(u: string)
    ensures Separator(u) == "" || Separator(u) == "\n"
    ensures Separator("\n" + u) == "" && "" + u == u
  {
  }

  lemma PrintSame(d0: Doc, d: Doc)
    requires HasBlock(d0) && HasBlock(d) && SameUserText(d0, d) && WellFormed(d)
    ensures HasBlock(Reread(d)) && SameUserText(d0, Reread(d))
  {
    hide FindGeo, FindLimitRate, NewBody, WellFormed, UserLines, Separator, OwnText, TextAround, HasBlock, WithRate;
    hide BlankLine;
    PrintKeepsOwnText(d);
    BlankLineOfOwnText(d);
    OneNewline(OwnText(d));
    OneNewline(OwnText(d0));
    if FindLimitRate(OwnText(d0)).Some? { OneNewline(WithRate(OwnText(d0), EFFECTIVE_RATE_VAR)); }
  }

  // ---- An edited quote ----

  /**
   * Up to some document a, and again from its migrated one b on, the text survives; in between, the quote in front
   * of the directive was edited in the directive's place.
   */
  ghost predicate SameButQuote(d0: Doc, d: Doc)
    requires HasBlock(d0) && HasBlock(d)
  {
    exists a: Doc, b: Doc :: HasBlock(a) && SameUserText(d0, a) && QuoteMigrated(a, b) && HasBlock(b) && SameUserText(b, d)
  }

  lemma ManagedStays(d: Doc, d': Doc)
    requires HasBlock(d) && HasBlock(d') && SameUserText(d, d') && d.hasManaged
    ensures d'.hasManaged
  {
  }

  /** A request that rewrites a quote migrates the document, and changes at most a rule besides. */
  lemma QuoteRequest(valid: string -> bool, d: Doc, req: Request)
    requires WellFormed(d) && EditsDirective(d, req) && !SetsDirective(d, req) && !Unquoted(d.postManaged)
    requires EditedDoc(valid, d, req).Ok?
    ensures Migrate(d).Ok? && WellFormed(Migrate(d).value) && QuoteMigrated(d, Migrate(d).value)
    ensures var m, d' := Migrate(d).value, EditedDoc(valid, d, req).value; d' == m.(overrides := d'.overrides)
  {
    hide WellFormed, Unquoted, Migrate, QuoteMigrated;
    QuotedMigrate(d);
    MigrateEditsQuote(d);
  }

  lemma StepMigratesQuote(valid: string -> bool, file: string, req: Request, w: World)
    requires WellFormedFile(file) && Admissible(valid, file, req) && !Effective(file, req) && !req.SaveRaw? && w.restoreOk
    ensures var d, file' := ParseDoc(file).value, Step(valid, file, req, w).0;
            file' == file ||
            (ParseDoc(file').Ok? && HasBlock(ParseDoc(file').value) &&
             exists b :: QuoteMigrated(d, b) && HasBlock(b) && SameUserText(b, ParseDoc(file').value))
  {
    hide WellFormed, WellFormedFile, ParseDoc, Emit, HasBlock, SameUserText, Unquoted, EditedDoc, QuoteMigrated;
    FileIsWellFormed(file);
    if Wanted(valid, file, req).Ok? {
      var d := ParseDoc(file).value;
      QuoteRequest(valid, d, req);
      var b, d' := Migrate(d).value, EditedDoc(valid, d, req).value;
      SameFromStart(b);
      SameTextSame(b, b, d');
      EditApplies(valid, d, req);
      PrintedIsReread(d');
      PrintSame(b, d');
      SaveOutcome(file, Wanted(valid, file, req).value, w);
    }
  }

  // ---- Over runs ----

  lemma StepKeepsUserText(valid: string -> bool, d0: Doc, file: string, req: Request, w: World)
    requires WellFormedFile(file) && Admissible(valid, file, req) && Effective(file, req) && !req.SaveRaw? && w.restoreOk
    requires HasBlock(d0) && HasBlock(ParseDoc(file).value) && SameUserText(d0, ParseDoc(file).value)
    ensures var file' := Step(valid, file, req, w).0;
            ParseDoc(file').Ok? && HasBlock(ParseDoc(file').value) && SameUserText(d0, ParseDoc(file').value)
  {
    hide WellFormed, WellFormedFile, ParseDoc, Emit, HasBlock, SameUserText, Unquoted, EditedDoc;
    FileIsWellFormed(file);
    if Wanted(valid, file, req).Ok? {
      var d := ParseDoc(file).value;
      EditApplies(valid, d, req);
      EditSame(valid, d0, d, req);
      PrintedIsReread(EditedDoc(valid, d, req).value);
      PrintSame(d0, EditedDoc(valid, d, req).value);
      SaveOutcome(file, Wanted(valid, file, req).value, w);
    }
  }

  lemma StepKeepsOrQuotes(valid: string -> bool, d0: Doc, file: string, req: Request, w: World)
    requires WellFormedFile(file) && Admissible(valid, file, req) && !req.SaveRaw? && w.restoreOk
    requires HasBlock(d0) && HasBlock(ParseDoc(file).value)
    requires SameUserText(d0, ParseDoc(file).value) || SameButQuote(d0, ParseDoc(file).value)
    ensures var file' := Step(valid, file, req, w).0;
            && ParseDoc(file').Ok? && HasBlock(ParseDoc(file').value)
            && (SameUserText(d0, ParseDoc(file').value) || SameButQuote(d0, ParseDoc(file').value))
            && (Effective(file, req) && SameUserText(d0, ParseDoc(file).value) ==> SameUserText(d0, ParseDoc(file').value))
  {
    hide WellFormed, ParseDoc, Step, Admissible, HasBlock, SameUserText, Unquoted, QuoteMigrated;
    var d := ParseDoc(file).value;
    if !SameUserText(d0, d) {
      var a, b :| HasBlock(a) && SameUserText(d0, a) && QuoteMigrated(a, b) && HasBlock(b) && SameUserText(b, d);
      QuoteIsManaged(a, b);
      ManagedStays(b, d);
      StepKeepsUserText(valid, b, file, req, w);
    } else if Effective(file, req) {
      StepKeepsUserText(valid, d0, file, req, w);
    } else {
      StepMigratesQuote(valid, file, req, w);
    }
  }

  lemma QuoteIsManaged(a: Doc, b: Doc)
    requires QuoteMigrated(a, b)
    ensures b.hasManaged
  {
  }

  /**
   * Over every run of requests other than raw saves, and every behaviour of nginx and docker, the user's text
   * survives: see SameUserText. If the run migrates a quoted directive, that quote is edited, and nothing else.
   */
  lemma {:induction false} RunKeepsUserText(valid: string -> bool, file: string, events: seq<Event>)
    requires WellFormedFile(file) && AdmissibleRun(valid, file, events) && forall e :: e in events ==> !e.0.SaveRaw?
    ensures WellFormedFile(FileAfter(valid, file, events))
    ensures var d0, d := ParseDoc(file).value, ParseDoc(FileAfter(valid, file, events)).value;
            && HasBlock(d0) && HasBlock(d) && (SameUserText(d0, d) || SameButQuote(d0, d))
            && (EffectiveRun(valid, file, events) ==> SameUserText(d0, d))
  {
    hide WellFormed, ParseDoc, Step, Admissible, SameUserText, Effective, SameButQuote;
    RunRefinesMap(valid, file, events);
    if events == [] {
      FileIsWellFormed(file);
      SameFromStart(ParseDoc(file).value);
    } else {
      var front, last := events[..|events| - 1], events[|events| - 1];
      assert last in events && forall e :: e in front ==> e in events;
      RunKeepsUserText(valid, file, front);
      StepKeepsOrQuotes(valid, ParseDoc(file).value, FileAfter(valid, file, front), last.0, last.1);
    }
  }

  // ---- Runs that are admissible from the start ----

  /** The same indentation, and nothing a directive could say is quoted in front that was not quoted there at first. */
  ghost predicate QuotesNoMore(p0: Place, p: Place) {
    && |p0.parts| == 6 && |p.parts| == 6 && p.parts[0] == p0.parts[0]
    && forall t :: '\n' !in t && 'l' in t && Contains(p.before, t) ==> Contains(p0.before, t)
  }

  /** The directive says what it said at first, or what some request of the run set. */
  predicate SaysOneOf(p0: Place, p: Place, events: seq<Event>)
    requires |p0.parts| == 6
  {
    p.parts == p0.parts ||
    exists e :: e in events && e.0.SetGlobalRate? && ValidRate(e.0.rate) && p.parts == NewParts(p0, e.0.rate)
  }

  /** An unmanaged document of the run, against the one the run started with. */
  ghost predicate Tracks(d0: Doc, d: Doc, events: seq<Event>) {
    !d.hasManaged ==>
      && !d0.hasManaged
      && (FindLimitRate(d.postManaged).Some? ==>
            && FindLimitRate(d0.postManaged).Some?
            && var p0, p := FindLimitRate(d0.postManaged).value, FindLimitRate(d.postManaged).value;
               QuotesNoMore(p0, p) && SaysOneOf(p0, p, events))
  }

  /** No text the run could give the directive is quoted in front of it. */
  predicate NothingQuoted(p0: Place, events: seq<Event>)
    requires |p0.parts| == 6
  {
    && !Contains(p0.before, Concat(p0.parts))
    && forall e :: e in events && e.0.SetGlobalRate? && ValidRate(e.0.rate) ==> !Contains(p0.before, Concat(NewParts(p0, e.0.rate)))
  }

  lemma TracksUnquoted(d0: Doc, d: Doc, events: seq<Event>)
    requires Tracks(d0, d, events) && !d.hasManaged
    requires FindLimitRate(d0.postManaged).Some? ==> NothingQuoted(FindLimitRate(d0.postManaged).value, events)
    ensures Unquoted(d.postManaged)
  {
    hide Contains, FindLimitRate, Concat;
    if FindLimitRate(d.postManaged).Some? {
      FindLimitRateFound(d.postManaged);
      DirectiveSpelling(FindLimitRate(d.postManaged).value.parts);
    }
  }

  lemma EditTracks(valid: string -> bool, d0: Doc, d: Doc, req: Request, w: World, events: seq<Event>)
    requires Tracks(d0, d, events) && WellFormed(d) && !req.SaveRaw? && (req, w) in events
    requires SetsDirective(d, req) ==> Unquoted(d.postManaged)
    requires EditedDoc(valid, d, req).Ok?
    ensures Tracks(d0, EditedDoc(valid, d, req).value, events)
  {
    hide FindLimitRate, WellFormed, Unquoted, Contains, SaysOneOf, QuotesNoMore, ReplaceDirective, SortByIP, Put, ValidRate;
    if req.SetGlobalRate? && !d.hasManaged {
      SetGlobalTracks(d0, d, req.rate, w, events);
    }
  }

  lemma SetGlobalTracks(d0: Doc, d: Doc, rate: string, w: World, events: seq<Event>)
    requires Tracks(d0, d, events) && WellFormed(d) && !d.hasManaged && Unquoted(d.postManaged)
    requires SetGlobal(d, rate).1.None? && (SetGlobalRate(rate), w) in events
    ensures Tracks(d0, SetGlobal(d, rate).0, events)
  {
    SetGlobalKeeps(d, rate);
    hide FindLimitRate, WellFormed, Unquoted, Contains, ReplaceDirective;
    ValidRateChars(rate);
    FindLimitRateFound(d.postManaged);
    var p0, p := FindLimitRate(d0.postManaged).value, FindLimitRate(d.postManaged).value;
    EditTwice(p, rate, rate);
    assert NewParts(p, rate) == NewParts(p0, rate);
    var e := (SetGlobalRate(rate), w);
    assert e.0.SetGlobalRate? && e.0.rate == rate && ValidRate(rate);
  }

  lemma PrintTracks(d0: Doc, d: Doc, events: seq<Event>)
    requires Tracks(d0, d, events) && WellFormed(d) && HasBlock(d)
    ensures Tracks(d0, Reread(d), events)
  {
    hide FindLimitRate, Contains, FindGeo, NewBody, Concat, NewParts, ValidRate;
    if !d.hasManaged {
      var g := BlockOf(d);
      BeforeSplits(d);
      assert d.Merged() == d.postManaged && d.preManaged + NewPost(d) == NewPost(d);
      RewriteKeepsSpeaking(g, d.overrides);
      SameDirective(NewPost(d), d.postManaged);
      if FindLimitRate(d.postManaged).Some? {
        FindLimitRateFound(d.postManaged);
        var p := FindLimitRate(d.postManaged).value;
        SilentIsApart(p, g);
        var q := DirectiveAfterRewrite(g, d.overrides, p);
        forall t | '\n' !in t && 'l' in t && Contains(q.before, t) ensures Contains(p.before, t) {
          RewriteQuotesNothing(g, d.overrides, p, q, t);
        }
      }
    }
  }

  lemma StepTracks(valid: string -> bool, d0: Doc, file: string, e: Event, events: seq<Event>)
    requires WellFormedFile(file) && Admissible(valid, file, e.0) && !e.0.SaveRaw? && e.1.restoreOk && e in events
    requires Tracks(d0, ParseDoc(file).value, events)
    ensures ParseDoc(Step(valid, file, e.0, e.1).0).Ok?
    ensures Tracks(d0, ParseDoc(Step(valid, file, e.0, e.1).0).value, events)
  {
    hide WellFormed, WellFormedFile, ParseDoc, Emit, Tracks, Unquoted, EditedDoc;
    FileIsWellFormed(file);
    if Wanted(valid, file, e.0).Ok? {
      var d := ParseDoc(file).value;
      EditApplies(valid, d, e.0);
      EditTracks(valid, d0, d, e.0, e.1, events);
      PrintedIsReread(EditedDoc(valid, d, e.0).value);
      PrintTracks(d0, EditedDoc(valid, d, e.0).value, events);
      SaveOutcome(file, Wanted(valid, file, e.0).value, e.1);
    }
  }

  lemma TracksItself(d: Doc, events: seq<Event>)
    ensures Tracks(d, d, events)
  {
    hide Contains;
  }

  lemma {:induction false} AdmissiblePrefix(valid: string -> bool, file: string, events: seq<Event>, all: seq<Event>)
    requires WellFormedFile(file) && forall e :: e in events ==> e in all
    requires forall e :: e in all ==> !e.0.SaveRaw? && e.1.restoreOk && (e.0.SetRule? && valid(e.0.ip) ==> EntryIP(e.0.ip))
    requires var d0 := ParseDoc(file).value;
             !d0.hasManaged && FindLimitRate(d0.postManaged).Some? ==> NothingQuoted(FindLimitRate(d0.postManaged).value, all)
    ensures AdmissibleRun(valid, file, events) && EffectiveRun(valid, file, events)
    ensures WellFormedFile(FileAfter(valid, file, events))
    ensures Tracks(ParseDoc(file).value, ParseDoc(FileAfter(valid, file, events)).value, all)
  {
    hide ParseDoc, Step, Tracks, Unquoted, NothingQuoted, WellFormed, BlockPlaced, AroundPlaced, FindLimitRate;
    var d0 := ParseDoc(file).value;
    if events == [] {
      TracksItself(d0, all);
    } else {
      var front, last := events[..|events| - 1], events[|events| - 1];
      assert last in events && forall e :: e in front ==> e in events;
      AdmissiblePrefix(valid, file, front, all);
      var f := FileAfter(valid, file, front);
      if !ParseDoc(f).value.hasManaged {
        UnmanagedStart(d0, ParseDoc(f).value, all);
        TracksUnquoted(d0, ParseDoc(f).value, all);
      }
      StepTracks(valid, d0, f, last, all);
      RunRefinesMap(valid, file, events);
    }
  }

  lemma UnmanagedStart(d0: Doc, d: Doc, events: seq<Event>)
    requires Tracks(d0, d, events) && !d.hasManaged
    ensures !d0.hasManaged
  {
  }

  /**
   * Whether a run is admissible and edits no quotes can be told before it starts: the accepted addresses have the entry pattern's
   * characters, roll-backs succeed, and neither the directive's text nor a text that a request of the run
   * would give it is quoted in front of it. A managed file needs nothing of the last kind.
   */
  lemma AdmissibleFromStart(valid: string -> bool, file: string, events: seq<Event>)
    requires WellFormedFile(file)
    requires forall e :: e in events ==> !e.0.SaveRaw? && e.1.restoreOk && (e.0.SetRule? && valid(e.0.ip) ==> EntryIP(e.0.ip))
    requires var d0 := ParseDoc(file).value;
             !d0.hasManaged && FindLimitRate(d0.postManaged).Some? ==> NothingQuoted(FindLimitRate(d0.postManaged).value, events)
    ensures AdmissibleRun(valid, file, events) && EffectiveRun(valid, file, events)
  {
    AdmissiblePrefix(valid, file, events, events);
  }
}

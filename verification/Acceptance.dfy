/** Which requests are accepted: on a recognizable file it can be told without looking at the file. */
module Acceptance {
  import opened Wrappers
  import opened Text
  import opened Regex
  import opened Patterns
  import opened Document
  import opened Directives
  import opened UserText
  import opened RoundTrip
  import opened Edits
  import opened QuotedMigration
  import opened Endpoints

  /** The block is opened with a single space, as the sanity check wants it, and there is a directive to edit. */
  predicate Recognizable(d: Doc) {
    && FindGeo(d.Merged()).Some? && Contains(BlockOf(d).header, ACL_TEXT)
    && FindLimitRate(d.Merged()).Some?
    && (d.hasManaged || FindLimitRate(d.Merged()).value.parts[3] != EFFECTIVE_RATE_VAR)
  }

  // ---- Edits keep a document recognizable ----

  /** Rewriting the first directive leaves the block's opening and body alone. */
  lemma EditedBlock(d: Doc, value: string)
    requires WellFormed(d) && !d.hasManaged && Unquoted(d.postManaged) && Token(value)
    requires FindLimitRate(d.postManaged).Some?
    ensures var user' := Edited(FindLimitRate(d.postManaged).value, value).Whole();
            && FindGeo(d.Merged()).Some? && FindGeo(user').Some?
            && FindGeo(user').value.header == BlockOf(d).header && FindGeo(user').value.body == BlockOf(d).body
            && FindLimitRate(user').Some? && FindLimitRate(user').value.parts[3] == value
  {
    hide FindGeo, FindLimitRate, Lines, Contains, ReplaceDirective, SilentBlock, Concat, Unquoted, ConnLimitOf;
    UnmanagedMerged(d);
    var p, g' := EditedText(d.postManaged, value);
  }

  lemma MigrateStaysRecognizable(d: Doc)
    requires WellFormed(d) && Recognizable(d) && Migrate(d).Ok?
    ensures Recognizable(Migrate(d).value)
  {
    hide Contains, FindGeo, FindLimitRate, WellFormed, Unquoted;
    if !d.hasManaged {
      UnmanagedMerged(d);
      if Unquoted(d.postManaged) {
        MigrateKeeps(d);
        EffectiveVarFacts();
        EditedBlock(d, EFFECTIVE_RATE_VAR);
      } else {
        QuotedMigrate(d);
      }
      UnmanagedMerged(Migrate(d).value);
    }
  }

  lemma UnmanagedMerged(d: Doc)
    requires d.preManaged == "" || (WellFormed(d) && !d.hasManaged)
    ensures d.Merged() == d.postManaged
  {
  }

  lemma SetGlobalStaysRecognizable(d: Doc, rate: string)
    requires WellFormed(d) && Recognizable(d) && SetGlobal(d, rate).1.None? && (d.hasManaged || Unquoted(d.postManaged))
    ensures Recognizable(SetGlobal(d, rate).0)
  {
    hide Contains, FindGeo, FindLimitRate, WellFormed, Unquoted, ReplaceDirective;
    SetGlobalKeeps(d, rate);
    if d.hasManaged {
      assert d.(global := rate).Merged() == d.Merged();
    } else {
      ValidRateChars(rate);
      EffectiveVarFacts();
      UnmanagedMerged(d);
      EditedBlock(d, rate);
      UnmanagedMerged(SetGlobal(d, rate).0);
    }
  }

  lemma EditStaysRecognizable(valid: string -> bool, d: Doc, req: Request)
    requires WellFormed(d) && Recognizable(d) && !req.SaveRaw?
    requires SetsDirective(d, req) ==> Unquoted(d.postManaged)
    requires EditedDoc(valid, d, req).Ok?
    ensures Recognizable(EditedDoc(valid, d, req).value)
  {
    hide Contains, FindGeo, FindLimitRate, WellFormed, Unquoted, Recognizable, Migrate, SetGlobal;
    match req
    case MigrateFile =>
      MigrateStaysRecognizable(d);
    case SetRule(ip, rate, exempt) =>
      if !d.hasManaged && rate != "" {
        MigrateStaysRecognizable(d);
        SameTextRecognizable(Migrate(d).value, EditedDoc(valid, d, req).value);
      } else {
        SameTextRecognizable(d, EditedDoc(valid, d, req).value);
      }
    case ClearRule(ip) =>
      SameTextRecognizable(d, EditedDoc(valid, d, req).value);
    case SetGlobalRate(rate) =>
      SetGlobalStaysRecognizable(d, rate);
  }

  lemma SameTextRecognizable(d: Doc, d': Doc)
    requires Recognizable(d) && d' == d.(overrides := d'.overrides)
    ensures Recognizable(d')
  {
    assert d'.Merged() == d.Merged();
  }

  // ---- The printed file is sane ----

  lemma FoundInParts(x: string, y: string, t: string)
    requires LineTerminated(x) && '\n' !in t && Contains(x + y, t)
    ensures Contains(x, t) || Contains(y, t)
  {
    var i := Index(x + y, t);
    if i < |x| { InsideBefore(x, y, i, t); } else { AtBehind(x, y, i, t); }
  }

  lemma DirectiveHoldsName(s: string)
    requires FindLimitRate(s).Some?
    ensures Contains(s, LIMIT_RATE)
  {
    hide Contains, FindLimitRate;
    FindLimitRateFound(s);
    var p := FindLimitRate(s).value;
    SpelledWithName(p.parts);
    HoldsInside(p.before, Concat(p.parts), p.after, LIMIT_RATE);
  }

  lemma SpelledWithName(parts: seq<string>)
    requires Reads(LIMIT_RATE_LINE, parts)
    ensures Contains(Concat(parts), LIMIT_RATE)
  {
    hide Contains;
    assert LIMIT_RATE_LINE[1].Fits(parts[1]);
    ConcatSix(parts[0], LIMIT_RATE, parts[2], parts[3], parts[4], parts[5]);
    assert parts == [parts[0], LIMIT_RATE, parts[2], parts[3], parts[4], parts[5]];
    ContainsWhole(LIMIT_RATE);
    HoldsInside(parts[0], LIMIT_RATE, parts[2] + (parts[3] + (parts[4] + parts[5])), LIMIT_RATE);
  }

  lemma HoldsInside(a: string, s: string, b: string, t: string)
    requires Contains(s, t)
    ensures Contains(a + (s + b), t)
  {
    ContainsWithin(a, s, b, t);
    Assoc(a, s, b);
  }

  lemma NewPostHoldsHeader(d: Doc, t: string)
    requires FindGeo(d.Merged()).Some? && |BlockOf(d).before| >= |d.preManaged| && Contains(BlockOf(d).header, t)
    ensures Contains(NewPost(d), t)
  {
    hide Contains, FindGeo, NewBody;
    var g := BlockOf(d);
    WholeHoldsHeader(Geo(g.before[|d.preManaged|..], g.header, NewBody(g.body, d.overrides), g.after), t);
  }

  lemma WholeHoldsHeader(g: Geo, t: string)
    requires Contains(g.header, t)
    ensures Contains(g.Whole(), t)
  {
    hide Contains;
    WholeShape(g);
    Assoc(g.before, g.header, g.body + ("}" + g.after));
    HoldsInside(g.before, g.header, g.body + ("}" + g.after), t);
  }

  lemma HoldsBehind(x: string, y: string, t: string)
    requires Contains(x, t) || Contains(y, t)
    ensures Contains(x + y, t)
  {
    if Contains(x, t) { ContainsWithin("", x, y, t); } else { ContainsWithin(x, y, "", t); }
    assert "" + x + y == x + y && x + y + "" == x + y;
  }

  lemma LineNamesAreLines()
    ensures '\n' !in LIMIT_RATE && '\n' !in ACL_TEXT
  {
  }

  /** A recognizable document is printed recognizably, and passes the sanity check. */
  lemma PrintedIsSane(d: Doc)
    requires WellFormed(d) && Recognizable(d)
    ensures Emit(d).Ok? && ParseDoc(Emit(d).value).Ok?
    ensures Recognizable(ParseDoc(Emit(d).value).value) && SanityCheck(Emit(d).value)
  {
    hide Contains, FindGeo, FindLimitRate, ParseDoc, Emit, Lines, Speaking, SilentBlock, ManagedRegion;
    PrintedIsReread(d);
    EmitPrints(d);
    var pre, post := d.preManaged, NewPost(d);
    var sep := if d.hasManaged then Separator(post) else "";
    var region := if d.hasManaged then ManagedRegion(d.overrides, d.global) else "";
    assert sep + post == post || sep == "\n";
    UserTextIsReread(d, sep);
    assert Reread(d).Merged() == pre + (sep + post);
    SameDirective(pre + (sep + post), d.Merged());
    DirectiveHoldsName(pre + (sep + post));
    LineNamesAreLines();
    NewPostHoldsHeader(d, ACL_TEXT);
    FoundInParts(pre, sep + post, LIMIT_RATE);
    PrintedHolds(pre, region, sep, post, ACL_TEXT);
    PrintedHolds(pre, region, sep, post, LIMIT_RATE);
    PrintedAs(d, region, sep);
  }

  lemma UnmanagedPre(d: Doc)
    requires WellFormed(d) && !d.hasManaged
    ensures d.preManaged == ""
  {
  }

  lemma PrintedAs(d: Doc, region: string, sep: string)
    requires WellFormed(d) && FindGeo(d.Merged()).Some? && |BlockOf(d).before| >= |d.preManaged|
    requires sep == if d.hasManaged then Separator(NewPost(d)) else ""
    requires region == if d.hasManaged then ManagedRegion(d.overrides, d.global) else ""
    ensures Emit(d) == Ok(d.preManaged + region + (sep + NewPost(d)))
  {
    hide FindGeo, NewBody, ManagedRegion, Separator, WellFormed, Emit;
    EmitPrints(d);
    if !d.hasManaged { UnmanagedPre(d); }
    assert d.hasManaged || d.preManaged + region + (sep + NewPost(d)) == NewPost(d);
  }

  lemma PrintedHolds(pre: string, region: string, sep: string, post: string, t: string)
    requires Contains(pre, t) || Contains(sep + post, t) || Contains(post, t)
    ensures Contains(pre + region + (sep + post), t)
  {
    hide Contains;
    if Contains(pre, t) { HoldsBehind(pre, region, t); }
    if Contains(post, t) { HoldsBehind(sep, post, t); }
    HoldsBehind(pre + region, sep + post, t);
  }

  // ---- Requests ----

  /** A request with a usable address and rate. */
  predicate Usable(valid: string -> bool, req: Request) {
    match req
    case SetRule(ip, rate, _) => valid(ip) && (rate == "" || ValidRate(rate))
    case SetGlobalRate(rate) => ValidRate(rate) && rate != "0"
    case _ => true
  }

  predicate Willing(w: World) {
    w.readOk && w.writeOk && w.reload == Accepted
  }

  lemma UsableIsEditable(valid: string -> bool, d: Doc, req: Request)
    requires WellFormed(d) && Recognizable(d) && !req.SaveRaw?
    ensures Editable(valid, d, req) <==> Usable(valid, req)
  {
    hide FindLimitRate, ValidRate;
    if !d.hasManaged { UnmanagedMerged(d); }
  }

  /** What an endpoint wants to install on a recognizable file is recognizable and sane. */
  lemma WantedIsSane(valid: string -> bool, file: string, req: Request)
    requires WellFormedFile(file) && Admissible(valid, file, req) && !req.SaveRaw? && Recognizable(ParseDoc(file).value)
    ensures Wanted(valid, file, req).Ok? <==> Usable(valid, req)
    ensures Wanted(valid, file, req).Ok? ==>
              var content := Wanted(valid, file, req).value;
              WellFormedFile(content) && Recognizable(ParseDoc(content).value) && SanityCheck(content)
  {
    hide WellFormedFile, WellFormed, Recognizable, ParseDoc, Emit, Unquoted, Editable, SanityCheck, Usable;
    FileIsWellFormed(file);
    WantedIff(valid, file, req);
    var d := ParseDoc(file).value;
    UsableIsEditable(valid, d, req);
    if Wanted(valid, file, req).Ok? {
      WantedApplies(valid, file, req);
      EditApplies(valid, d, req);
      EditStaysRecognizable(valid, d, req);
      PrintedIsSane(EditedDoc(valid, d, req).value);
    }
  }

  /**
   * On a recognizable file a request is accepted if and only if its address and rate are usable and the
   * world plays along: nothing in the file can stop it, and the file stays recognizable.
   */
  lemma AcceptedIff(valid: string -> bool, file: string, req: Request, w: World)
    requires WellFormedFile(file) && Admissible(valid, file, req) && !req.SaveRaw? && Recognizable(ParseDoc(file).value)
    ensures Step(valid, file, req, w).1 <==> Usable(valid, req) && Willing(w)
    ensures w.restoreOk ==>
              var file' := Step(valid, file, req, w).0;
              WellFormedFile(file') && Recognizable(ParseDoc(file').value)
  {
    hide WellFormedFile, Recognizable, ParseDoc, Wanted, SanityCheck, Usable;
    WantedIsSane(valid, file, req);
  }

  /** Raw content is accepted if and only if both words occur in it, it can be written and nginx takes it. */
  lemma RawSaveIff(valid: string -> bool, file: string, content: string, w: World)
    ensures Step(valid, file, SaveRaw(content), w).1 <==>
            Contains(content, "geo $rate_limit") && Contains(content, "limit_rate") && w.writeOk && w.reload == Accepted
    ensures w.restoreOk ==>
              Step(valid, file, SaveRaw(content), w).0 == if Step(valid, file, SaveRaw(content), w).1 then content else file
  {
    hide Contains;
  }

  // ---- Runs ----

  /** The requests that are accepted, told from the requests and the world alone. */
  function Expected(valid: string -> bool, events: seq<Event>): seq<Request> {
    if events == [] then []
    else
      var before, last := Expected(valid, events[..|events| - 1]), events[|events| - 1];
      if Usable(valid, last.0) && Willing(last.1) then before + [last.0] else before
  }

  lemma {:induction false} RunAcceptsExpected(valid: string -> bool, file: string, events: seq<Event>)
    requires WellFormedFile(file) && AdmissibleRun(valid, file, events) && forall e :: e in events ==> !e.0.SaveRaw?
    requires Recognizable(ParseDoc(file).value)
    ensures AcceptedIn(valid, file, events) == Expected(valid, events)
    ensures var file' := FileAfter(valid, file, events); WellFormedFile(file') && Recognizable(ParseDoc(file').value)
  {
    hide WellFormedFile, Recognizable, ParseDoc, Step, Usable, Unquoted, Admissible;
    if events != [] {
      var front, last := events[..|events| - 1], events[|events| - 1];
      assert last in events && forall e :: e in front ==> e in events;
      RunAcceptsExpected(valid, file, front);
      AcceptedIff(valid, FileAfter(valid, file, front), last.0, last.1);
    }
  }

  /**
   * Over every run on a recognizable file, the map and the global rate are those of the usable requests
   * made while the world played along, whatever else the file holds.
   */
  lemma RunIsExpected(valid: string -> bool, file: string, events: seq<Event>)
    requires WellFormedFile(file) && AdmissibleRun(valid, file, events) && forall e :: e in events ==> !e.0.SaveRaw?
    requires Recognizable(ParseDoc(file).value)
    ensures AllReadable(Expected(valid, events)) && WellFormedFile(FileAfter(valid, file, events))
    ensures FileSettings(FileAfter(valid, file, events)) == ApplyAll(valid, FileSettings(file), Expected(valid, events))
  {
    hide WellFormedFile, Recognizable, ParseDoc, FileSettings, ApplyAll, AdmissibleRun;
    RunAcceptsExpected(valid, file, events);
    RunRefinesMap(valid, file, events);
  }
}

/** The rate every client gets from the file, over every run of requests. */
module Meaning {
  import opened Wrappers
  import opened Lists
  import opened Text
  import opened Regex
  import opened Patterns
  import opened Overrides
  import opened Document
  import opened PrintedLines
  import opened ManagedRead
  import opened Directives
  import opened UserText
  import opened RoundTrip
  import opened Edits
  import opened FixedPoint
  import opened QuotedMigration
  import opened Endpoints
  import opened Nginx

  /**
   * The rate nginx applies to a client: the literal value of the first limit_rate directive, or,
   * if that names the effective-rate variable, what the geo and map blocks make of the address.
   */
  function FileRate(content: string, ip: string): Option<string> {
    match FindLimitRate(content)
    case None => None
    case Some(p) =>
      if p.parts[3] != EFFECTIVE_RATE_VAR then Some(p.parts[3])
      else
        match BracedAfter(content, MANAGED_GEO)
        case Err(_) => None
        case Ok(geoBody) =>
          match BracedAfter(content, MANAGED_MAP)
          case Err(_) => None
          case Ok(mapBody) => Some(EffectiveRate(geoBody, mapBody, ip))
  }

  // ---- The managed region holds no directive ----

  predicate SilentText(x: string) {
    LineTerminated(x) && Filter(HoldsRate, FullLines(x)) == []
  }

  lemma SilentConcat(x: string, y: string)
    requires SilentText(x) && SilentText(y)
    ensures SilentText(x + y)
  {
    FullLinesAfterTerminated(x, y);
    FilterConcat(HoldsRate, FullLines(x), FullLines(y));
    TerminatedTogether(x, y);
  }

  lemma TerminatedTogether(x: string, y: string)
    requires LineTerminated(x) && LineTerminated(y)
    ensures LineTerminated(x + y)
  {
    assert y == "" ==> x + y == x;
  }

  lemma SilentLine(l: string)
    requires '\n' !in l && !Speaks(l)
    ensures SilentText(l + "\n")
  {
    FullLinesBehind(l, "");
    assert l + "\n" + "" == l + "\n";
    assert FullLines("") == [];
    FilterSnoc(HoldsRate, [], l);
    assert [] + [l] == [l];
  }

  lemma {:induction false} SilentLines(ls: seq<string>)
    requires NoNewlines(ls) && forall l :: l in ls ==> !Speaks(l)
    ensures SilentText(Terminated(ls))
  {
    if ls == [] {
      assert FullLines("") == [];
    } else {
      var front, last := ls[..|ls| - 1], ls[|ls| - 1];
      assert last in ls && forall l :: l in front ==> l in ls;
      SilentLines(front);
      SilentLine(last);
      SilentConcat(Terminated(front), last + "\n");
      Assoc(Terminated(front), last, "\n");
    }
  }

  lemma VisibleIsSilent(s: string, m: string)
    requires TrimSpace(s) == m && m != "" && m[0] != 'l'
    ensures !Speaks(s)
  {
    if Speaks(s) { SpeakingHead(s); }
  }

  lemma {:induction false} RateLinesAreSilent(os: seq<Override>)
    requires forall o :: o in os ==> EntryIP(o.ip)
    ensures forall l :: l in RateLines(os) ==> !Speaks(l)
  {
    if os != [] {
      var front, last := os[..|os| - 1], os[|os| - 1];
      assert last in os && forall o :: o in front ==> o in os;
      RateLinesAreSilent(front);
      if last.HasRate() { RateLineIsSilent(last.ip, last.rate); }
    }
  }

  lemma RateLineIsSilent(ip: string, rate: string)
    requires EntryIP(ip)
    ensures !Speaks(EntryLine(ip, rate))
  {
    EntryTextShape(ip, rate);
    EntryTextIsTrimmed(ip, rate);
    assert Is(IPChar, ip[0]);
    assert EntryText(ip, rate)[0] == ip[0];
    VisibleIsSilent(EntryLine(ip, rate), EntryText(ip, rate));
  }

  lemma IndentedIsSilent(m: string)
    requires m != "" && Trimmed(m) && m[0] != 'l'
    ensures !Speaks(INDENT + m)
  {
    IndentedIsTrimmed(m);
    VisibleIsSilent(INDENT + m, m);
  }

  lemma DefaultIsSilent(value: string)
    ensures !Speaks(INDENT + (DEFAULT_KEY + (SHORT_GAP + (value + ";"))))
  {
    var m := DEFAULT_KEY + (SHORT_GAP + (value + ";"));
    assert m[0] == 'd' && m[|m| - 1] == ';';
    IndentedIsSilent(m);
  }

  lemma GeoLinesAreSilent(os: seq<Override>)
    requires forall o :: o in os ==> GoodRule(o)
    ensures SilentText(Terminated([GEO_DEFAULT] + RateLines(os)))
  {
    RateLinesAreSilent(os);
    RateLinesChars(os);
    DefaultsAreClean();
    DefaultIsSilent(EMPTY_KEY);
    SilentLines([GEO_DEFAULT] + RateLines(os));
  }

  lemma MapLinesAreSilent(global: string)
    requires GlobalToken(global)
    ensures SilentText(Terminated([FallbackLine(global), MAP_DEFAULT]))
  {
    hide Speaks, Terminated, TrimSpace;
    DefaultIsSilent(OVERRIDE_VAR);
    DefaultsAreClean();
    FallbackLineChars(global);
    FallbackLineIsRead(global);
    assert EMPTY_KEY[0] == '"';
    VisibleIsSilent(FallbackLine(global), EMPTY_KEY + (LONG_GAP + (global + ";")));
    SilentLines([FallbackLine(global), MAP_DEFAULT]);
  }

  lemma BlockIsSilent(head: string, lines: string)
    requires head != "" && !Is(Space, head[0]) && head[0] != 'l' && '\n' !in head && SilentText(lines)
    ensures SilentText(BlockText(head, "\n" + lines))
  {
    var open := head + "{";
    HeadIsSilent(open);
    SilentLine(open);
    assert "}"[0] == '}';
    HeadIsSilent("}");
    SilentLine("}");
    SilentConcat(open + "\n", lines);
    SilentConcat(open + "\n" + lines, "}" + "\n");
    BlockPieces(head, "{", "\n", lines, "}\n");
    assert "}" + "\n" == "}\n";
  }

  lemma BlockPieces(head: string, open: string, nl: string, lines: string, close: string)
    ensures head + (open + ((nl + lines) + close)) == ((head + open) + nl + lines) + close
  {
  }

  lemma MarkerIsSilent(m: string)
    requires IsMarker(m)
    ensures SilentText(m + "\n")
  {
    HeadIsSilent(m);
    SilentLine(m);
  }

  lemma RegionIsSilent(os: seq<Override>, global: string)
    requires (forall o :: o in os ==> GoodRule(o)) && GlobalToken(global)
    ensures SilentText(ManagedRegion(os, global))
  {
    var geo, map_ := BlockText(GEO_HEAD, GeoBody(os)), BlockText(MAP_HEAD, MapBody(global));
    MarkersAreMarkers();
    MarkerIsSilent(BEGIN_MARKER);
    MarkerIsSilent(END_MARKER);
    GeoLinesAreSilent(os);
    MapLinesAreSilent(global);
    GeoLiterals('\n');
    MapLiterals('\n');
    assert GEO_HEAD[0] == 'g' && MAP_HEAD[0] == 'm';
    BlockIsSilent(GEO_HEAD, Terminated([GEO_DEFAULT] + RateLines(os)));
    BlockIsSilent(MAP_HEAD, Terminated([FallbackLine(global), MAP_DEFAULT]));
    SilentConcat(geo, map_);
    SilentConcat(geo + map_, END_MARKER + "\n");
    SilentConcat(BEGIN_MARKER + "\n", (geo + map_) + (END_MARKER + "\n"));
    RegionPieces(BEGIN_MARKER, geo + map_, END_MARKER + "\n");
  }

  lemma RegionPieces(b: string, m: string, e: string)
    ensures b + (("\n" + m) + e) == (b + "\n") + (m + e)
  {
  }

  // ---- The blocks are found in the whole file ----

  /** A name with a dollar sign in fifth place does not start inside a marker. */
  lemma NotInMarker(b: string, t: string, name: string, i: nat)
    requires |b| >= 4 && '$' !in b && (forall k :: |b| - 4 <= k < |b| ==> b[k] == ' ' || b[k] == '=')
    requires |name| >= 5 && name[4] == '$' && name[0] != ' ' && name[0] != '='
    requires i < |b|
    ensures !At(b + t, i, name)
  {
    FifthOfOccurrence(b + t, i, name);
    assert forall k :: 0 <= k < |b| ==> (b + t)[k] == b[k];
  }

  lemma FifthOfOccurrence(s: string, i: int, p: string)
    requires |p| >= 5
    ensures At(s, i, p) ==> s[i] == p[0] && s[i + 4] == p[4]
  {
    if At(s, i, p) { assert s[i..i + |p|][0] == s[i] && s[i..i + |p|][4] == s[i + 4]; }
  }

  lemma IndexBehind(b: string, t: string, name: string)
    requires name != ""
    requires forall i :: 0 <= i < |b| ==> !At(b + t, i, name)
    ensures Index(b + t, name) == if Index(t, name) < 0 then -1 else |b| + Index(t, name)
  {
    var i, j := Index(b + t, name), Index(t, name);
    if j >= 0 { AtInBack(b, t, j, name); }
    if i >= 0 { AtBehind(b, t, i, name); }
  }

  lemma AtInBack(b: string, t: string, j: int, name: string)
    requires At(t, j, name)
    ensures At(b + t, |b| + j, name)
  {
    AtWithin(b, t, "", j, name);
    assert b + t + "" == b + t;
  }

  lemma BracedAfterFront(b: string, t: string, name: string)
    requires name != ""
    requires forall i :: 0 <= i < |b| ==> !At(b + t, i, name)
    ensures BracedAfter(b + t, name) == BracedAfter(t, name)
  {
    IndexBehind(b, t, name);
    var j := Index(t, name);
    if j >= 0 { assert (b + t)[|b| + j..] == t[j..]; }
    hide Index;
  }

  lemma BeginMarkerFacts()
    ensures |BEGIN_MARKER| >= 4 && '$' !in BEGIN_MARKER
    ensures forall k :: |BEGIN_MARKER| - 4 <= k < |BEGIN_MARKER| ==> BEGIN_MARKER[k] == ' ' || BEGIN_MARKER[k] == '='
  {
    MarkerTails('$');
    var front := "#" + (MARKER_STEM + (BEGIN_WORDS + (BEGIN_DASH + BEGIN_REST)));
    Assoc(BEGIN_DASH, BEGIN_REST, " ===");
    Assoc(BEGIN_WORDS, BEGIN_DASH + BEGIN_REST, " ===");
    Assoc(MARKER_STEM, BEGIN_WORDS + (BEGIN_DASH + BEGIN_REST), " ===");
    Assoc("#", MARKER_STEM + (BEGIN_WORDS + (BEGIN_DASH + BEGIN_REST)), " ===");
    LastFour(front, " ===");
    assert BEGIN_MARKER == front + " ===";
  }

  lemma LastFour(a: string, b: string)
    requires |b| == 4 && forall k :: 0 <= k < 4 ==> b[k] == ' ' || b[k] == '='
    ensures forall k :: |a + b| - 4 <= k < |a + b| ==> (a + b)[k] == ' ' || (a + b)[k] == '='
  {
  }

  lemma BlocksAreFound(os: seq<Override>, global: string, rest: string)
    requires (forall o :: o in os ==> GoodRule(o)) && GlobalToken(global)
    ensures var s := BEGIN_MARKER + (ManagedText(os, global) + rest);
            BracedAfter(s, MANAGED_GEO) == Ok(GeoBody(os)) && BracedAfter(s, MANAGED_MAP) == Ok(MapBody(global))
  {
    var t := ManagedText(os, global) + rest;
    BeginMarkerFacts();
    NamesFacts();
    forall i | 0 <= i < |BEGIN_MARKER| ensures !At(BEGIN_MARKER + t, i, MANAGED_GEO) && !At(BEGIN_MARKER + t, i, MANAGED_MAP) {
      NotInMarker(BEGIN_MARKER, t, MANAGED_GEO, i);
      NotInMarker(BEGIN_MARKER, t, MANAGED_MAP, i);
    }
    BracedAfterFront(BEGIN_MARKER, t, MANAGED_GEO);
    BracedAfterFront(BEGIN_MARKER, t, MANAGED_MAP);
    GeoIsFoundThen(os, global, rest);
    MapIsFoundThen(os, global, rest);
  }

  lemma NamesFacts()
    ensures |MANAGED_GEO| >= 5 && MANAGED_GEO[4] == '$' && MANAGED_GEO[0] == 'g'
    ensures |MANAGED_MAP| >= 5 && MANAGED_MAP[4] == '$' && MANAGED_MAP[0] == 'm'
  {
    assert OVERRIDE_VAR[0] == '$';
  }

  lemma GeoIsFoundThen(os: seq<Override>, global: string, rest: string)
    requires forall o :: o in os ==> GoodRule(o)
    ensures BracedAfter(ManagedText(os, global) + rest, MANAGED_GEO) == Ok(GeoBody(os))
  {
    var b1, b2 := BlockText(GEO_HEAD, GeoBody(os)), BlockText(MAP_HEAD, MapBody(global));
    var s := "\n" + (b1 + (b2 + rest));
    GeoLiterals('{');
    GeoLiterals('}');
    GeoBodyChars(os);
    NamesFacts();
    FifthOfOccurrence(s, 0, MANAGED_GEO);
    BlockIsFound("\n", GEO_HEAD, GeoBody(os), b2 + rest, MANAGED_GEO);
    Assoc(b1, b2, rest);
    Assoc("\n", b1 + b2, rest);
  }

  lemma MapIsFoundThen(os: seq<Override>, global: string, rest: string)
    requires (forall o :: o in os ==> GoodRule(o)) && GlobalToken(global)
    ensures BracedAfter(ManagedText(os, global) + rest, MANAGED_MAP) == Ok(MapBody(global))
  {
    var b1, b2 := BlockText(GEO_HEAD, GeoBody(os)), BlockText(MAP_HEAD, MapBody(global));
    var lead, t := "\n" + b1, b2 + rest;
    LeadFacts(os);
    NamesFacts();
    forall i | 0 <= i < |lead| ensures !At(lead + t, i, MANAGED_MAP) {
      MapNameIsFirst(lead, t, i);
    }
    MapLiterals('{');
    MapLiterals('}');
    MapBodyChars(global);
    BlockIsFound(lead, MAP_HEAD, MapBody(global), rest, MANAGED_MAP);
    Assoc("\n", b1, t);
    Assoc(b1, b2, rest);
    Assoc("\n", b1 + b2, rest);
  }

  // ---- Documents whose rates take effect ----

  /** The text in front of the managed region does not declare the blocks of the region itself. */
  predicate NamesBehind(pre: string) {
    !Contains(pre, MANAGED_GEO) && !Contains(pre, MANAGED_MAP)
  }

  /** A managed document whose directive names the effective-rate variable and whose rates are taken literally. */
  predicate Wired(d: Doc) {
    && d.hasManaged && NamesBehind(d.preManaged)
    && FindLimitRate(d.Merged()).Some? && FindLimitRate(d.Merged()).value.parts[3] == EFFECTIVE_RATE_VAR
    && PlainRates(d.overrides) && PlainRate(d.global)
  }

  /** An unmanaged document with a literal directive. */
  predicate Literal(d: Doc) {
    && !d.hasManaged
    && FindLimitRate(d.postManaged).Some? && FindLimitRate(d.postManaged).value.parts[3] != EFFECTIVE_RATE_VAR
    && PlainRate(d.global)
  }

  /** The rate the settings give a client. */
  function RateFor(s: Settings, ip: string): string {
    if ip in s.rules && s.rules[ip].rate != "" then s.rules[ip].rate else s.global
  }

  lemma RateForIs(d: Doc, ip: string)
    ensures RateFor(SettingsOf(d), ip) == if RateOf(d.overrides, ip) != "" then RateOf(d.overrides, ip) else d.global
  {
  }

  /** The printed file of a wired document gives every client the rate its settings say. */
  lemma WiredMeaning(d: Doc, ip: string)
    requires WellFormed(d) && Wired(d)
    ensures Emit(d).Ok? && FileRate(Emit(d).value, ip) == Some(RateFor(SettingsOf(d), ip))
  {
    hide BlockPlaced, ConnAgrees, FindGeo, FindLimitRate, ManagedText, NewBody, NamesBehind, BracedAfter;
    EmitPrints(d);
    var user := Separator(NewPost(d)) + NewPost(d);
    WiredDirective(d, user);
    PrintedMeaning(d.overrides, d.global, ip);
    RateForIs(d, ip);
    var rest := (END_MARKER + "\n") + user;
    BlocksAreFound(d.overrides, d.global, rest);
    RegionThenUser(BEGIN_MARKER, ManagedText(d.overrides, d.global), END_MARKER + "\n", user);
    BlocksBehind(d.preManaged, BEGIN_MARKER + (ManagedText(d.overrides, d.global) + rest));
    Assoc(d.preManaged, ManagedRegion(d.overrides, d.global), user);
  }

  /** A managed document whose first directive still holds a literal rate. */
  predicate StillLiteral(d: Doc, value: string) {
    && FindLimitRate(d.Merged()).Some? && FindLimitRate(d.Merged()).value.parts[3] == value
    && value != EFFECTIVE_RATE_VAR
  }

  /** Its printed file gives every client that rate, whatever the rules are. */
  lemma LiteralStays(d: Doc, value: string, ip: string)
    requires WellFormed(d) && d.hasManaged && StillLiteral(d, value)
    ensures FindGeo(d.Merged()).Some? && |BlockOf(d).before| >= |d.preManaged|
    ensures StillLiteral(Reread(d), value)
    ensures Emit(d).Ok? && FileRate(Emit(d).value, ip) == Some(value)
  {
    hide FindGeo, FindLimitRate, ManagedRegion, Separator, NewBody, WellFormed, Emit, BracedAfter;
    EmitPrints(d);
    var user := Separator(NewPost(d)) + NewPost(d);
    WiredDirective(d, user);
    Assoc(d.preManaged, ManagedRegion(d.overrides, d.global), user);
    assert Reread(d).Merged() == d.preManaged + user;
  }

  /** Text in front of the region that does not name its blocks does not hide them. */
  lemma BlocksBehind(pre: string, t: string)
    requires LineTerminated(pre) && NamesBehind(pre)
    ensures BracedAfter(pre + t, MANAGED_GEO) == BracedAfter(t, MANAGED_GEO)
    ensures BracedAfter(pre + t, MANAGED_MAP) == BracedAfter(t, MANAGED_MAP)
  {
    hide BracedAfter;
    NamesAreLines();
    NotInFrontText(pre, t, MANAGED_GEO);
    NotInFrontText(pre, t, MANAGED_MAP);
    BracedAfterFront(pre, t, MANAGED_GEO);
    BracedAfterFront(pre, t, MANAGED_MAP);
  }

  lemma NamesAreLines()
    ensures '\n' !in MANAGED_GEO && '\n' !in MANAGED_MAP && MANAGED_GEO != "" && MANAGED_MAP != ""
  {
    Literals('\n');
    AbsentFromConcat('\n', "geo ", OVERRIDE_VAR);
    AbsentFromConcat('\n', "map ", OVERRIDE_VAR);
  }

  lemma NotInFrontText(pre: string, t: string, name: string)
    requires LineTerminated(pre) && '\n' !in name && !Contains(pre, name)
    ensures forall i :: 0 <= i < |pre| ==> !At(pre + t, i, name)
  {
    if i :| 0 <= i < |pre| && At(pre + t, i, name) { InsideBefore(pre, t, i, name); }
  }

  /** The first directive of the printed file is the user's: the region holds none, and the block's rewrite keeps it. */
  lemma WiredDirective(d: Doc, user: string)
    requires WellFormed(d) && d.hasManaged && FindLimitRate(d.Merged()).Some?
    requires FindGeo(d.Merged()).Some? && |BlockOf(d).before| >= |d.preManaged|
    requires user == Separator(NewPost(d)) + NewPost(d)
    ensures var p := FindLimitRate(d.preManaged + (ManagedRegion(d.overrides, d.global) + user));
            p.Some? && p.value.parts == FindLimitRate(d.Merged()).value.parts
    ensures FindLimitRate(d.preManaged + user).Some?
    ensures FindLimitRate(d.preManaged + user).value.parts == FindLimitRate(d.Merged()).value.parts
  {
    hide FindGeo, FindLimitRate, ManagedRegion, Speaking, SilentBlock, Lines, NewBody;
    var sep, pre := Separator(NewPost(d)), d.preManaged;
    UserTextIsReread(d, sep);
    SameDirective(pre + user, d.Merged());
    RegionIsSilent(d.overrides, d.global);
    SilentBetween(pre, ManagedRegion(d.overrides, d.global), user);
  }

  /** Silent text between lines does not change which directive is first. */
  lemma SilentBetween(pre: string, x: string, t: string)
    requires LineTerminated(pre) && SilentText(x)
    ensures FindLimitRate(pre + (x + t)).Some? <==> FindLimitRate(pre + t).Some?
    ensures FindLimitRate(pre + t).Some? ==> FindLimitRate(pre + (x + t)).value.parts == FindLimitRate(pre + t).value.parts
  {
    hide FindLimitRate, Lines, FullLines, MatchLimitRate;
    LinesAfterTerminated(pre, x + t);
    LinesAfterTerminated(x, t);
    LinesAfterTerminated(pre, t);
    FilterConcat(HoldsRate, FullLines(pre), FullLines(x) + Lines(t));
    FilterConcat(HoldsRate, FullLines(x), Lines(t));
    FilterConcat(HoldsRate, FullLines(pre), Lines(t));
    assert [] + Filter(HoldsRate, Lines(t)) == Filter(HoldsRate, Lines(t));
    FirstDirectiveLine(pre + (x + t));
    FirstDirectiveLine(pre + t);
  }

  lemma RegionThenUser(b: string, m: string, e: string, user: string)
    ensures "" + (b + (m + e)) + user == b + (m + (e + user))
    ensures (b + (m + e)) + user == b + (m + (e + user))
  {
    assert "" + (b + (m + e)) == b + (m + e);
    Assoc(m, e, user);
    Assoc(b, m + e, user);
  }

  /** An unmanaged file gives every client the value of its directive. */
  lemma LiteralMeaning(d: Doc, ip: string)
    requires WellFormed(d) && Literal(d)
    ensures FileRate(d.postManaged, ip) == Some(RateFor(SettingsOf(d), ip))
  {
    FindLimitRateFound(d.postManaged);
    var p := FindLimitRate(d.postManaged).value;
    RateAroundDirective(p);
    RateForIs(d, ip);
    var n := Find(d.overrides, ip);
    assert n < |d.overrides| ==> d.overrides[n] in d.overrides;
  }

  // ---- Staying wired ----

  lemma WiredReread(d: Doc)
    requires WellFormed(d) && Wired(d)
    requires FindGeo(d.Merged()).Some? && |BlockOf(d).before| >= |d.preManaged|
    ensures Wired(Reread(d))
  {
    hide FindGeo, FindLimitRate, NewBody, NamesBehind;
    WiredDirective(d, Separator(NewPost(d)) + NewPost(d));
    CarryingMembers(d.overrides);
  }

  lemma LiteralReread(d: Doc)
    requires WellFormed(d) && Literal(d)
    requires FindGeo(d.Merged()).Some? && |BlockOf(d).before| >= |d.preManaged|
    ensures Literal(Reread(d))
  {
    hide FindGeo, FindLimitRate, NewBody;
    var g := BlockOf(d);
    BeforeSplits(d);
    assert d.Merged() == d.postManaged && d.preManaged + NewPost(d) == NewPost(d);
    RewriteKeepsSpeaking(g, d.overrides);
    SameDirective(NewPost(d), d.postManaged);
  }

  /** Migrating points the directive at the variable, so that the printed blocks take effect. */
  lemma MigrateWires(d: Doc)
    requires WellFormed(d) && Literal(d) && Migrate(d).Ok? && Unquoted(d.postManaged)
    ensures Wired(Migrate(d).value)
  {
    hide FindGeo, FindLimitRate, Lines, Contains, ReplaceDirective, SilentBlock, Concat, Unquoted, ConnLimitOf;
    EffectiveVarFacts();
    MigrateKeeps(d);
    EditedDirective(d, EFFECTIVE_RATE_VAR);
    EmptyIsPlain();
    EmptyNamesBehind();
  }

  lemma EditedDirective(d: Doc, value: string)
    requires WellFormed(d) && !d.hasManaged && Unquoted(d.postManaged) && Token(value) && FindLimitRate(d.postManaged).Some?
    ensures var p := FindLimitRate(d.postManaged).value;
            var d' := d.(postManaged := Edited(p, value).Whole());
            && d'.Merged() == d'.postManaged
            && FindLimitRate(d'.postManaged) == Some(Edited(p, value))
  {
    hide FindGeo, FindLimitRate, Lines, Contains, ReplaceDirective, SilentBlock, Concat, Unquoted, ConnLimitOf;
    assert d.Merged() == d.postManaged;
    var p, g' := EditedText(d.postManaged, value);
  }

  lemma EmptyNamesBehind()
    ensures NamesBehind("")
  {
    NamesFacts();
  }

  lemma EmptyIsPlain()
    ensures PlainRate("")
  {
    OverrideVarIsToken();
  }

  lemma ValidIsPlain(rate: string)
    requires ValidRate(rate)
    ensures PlainRate(rate) && rate != EFFECTIVE_RATE_VAR
  {
    ValidRateChars(rate);
    OverrideVarIsToken();
    EffectiveVarFacts();
    assert rate[0] in rate;
  }

  lemma LiteralSetGlobal(d: Doc, rate: string)
    requires WellFormed(d) && Literal(d) && SetGlobal(d, rate).1.None? && Unquoted(d.postManaged)
    ensures Literal(SetGlobal(d, rate).0)
  {
    hide FindGeo, FindLimitRate, Lines, Contains, ReplaceDirective, SilentBlock, Concat, Unquoted, ConnLimitOf;
    ValidRateChars(rate);
    ValidIsPlain(rate);
    SetGlobalKeeps(d, rate);
    EditedDirective(d, rate);
  }

  lemma SetRuleStaysPlain(valid: string -> bool, d: Doc, ip: string, rate: string, exempt: bool)
    requires WellFormed(d) && PlainRates(d.overrides) && SetOverride(d, valid, ip, rate, exempt).Ok?
    ensures PlainRates(SetOverride(d, valid, ip, rate, exempt).value.overrides)
  {
    var o := Override(ip, rate, exempt);
    var os := Put(d.overrides, o);
    SortedIsUnique(d.overrides);
    SortMembers(os);
    EmptyIsPlain();
    if rate != "" { ValidIsPlain(rate); }
    forall x | x in SortByIP(os) ensures PlainRate(x.rate) {
      MemberOfPermutation(SortByIP(os), os, x);
      PutMembers(d.overrides, o, x);
    }
  }

  predicate Live(d: Doc) {
    Wired(d) || Literal(d)
  }

  lemma SetRuleStaysLive(valid: string -> bool, d: Doc, ip: string, rate: string, exempt: bool)
    requires WellFormed(d) && Live(d) && SetOverride(d, valid, ip, rate, exempt).Ok?
    ensures Live(SetOverride(d, valid, ip, rate, exempt).value)
  {
    if Wired(d) { SetRuleStaysPlain(valid, d, ip, rate, exempt); }
    assert SetOverride(d, valid, ip, rate, exempt).value.Merged() == d.Merged();
  }

  lemma SetGlobalStaysLive(d: Doc, rate: string)
    requires WellFormed(d) && Live(d) && SetGlobal(d, rate).1.None? && (d.hasManaged || Unquoted(d.postManaged))
    ensures Live(SetGlobal(d, rate).0)
  {
    hide FindGeo, FindLimitRate, ReplaceDirective, Unquoted;
    if Wired(d) {
      ValidIsPlain(rate);
      assert d.(global := rate).Merged() == d.Merged();
    } else {
      LiteralSetGlobal(d, rate);
    }
  }

  lemma EditStaysLive(valid: string -> bool, d: Doc, req: Request)
    requires WellFormed(d) && Live(d) && !req.SaveRaw? && EditedDoc(valid, d, req).Ok?
    requires EditsDirective(d, req) ==> Unquoted(d.postManaged)
    ensures Live(EditedDoc(valid, d, req).value)
  {
    hide FindGeo, FindLimitRate, ReplaceDirective, Unquoted, SetOverride;
    match req
    case MigrateFile =>
      if Literal(d) { MigrateWires(d); }
    case SetRule(ip, rate, exempt) =>
      if !d.hasManaged && rate != "" {
        MigrateWires(d);
        MigrateKeeps(d);
        SetRuleStaysLive(valid, Migrate(d).value, ip, rate, exempt);
      } else {
        SetRuleStaysLive(valid, d, ip, rate, exempt);
      }
    case ClearRule(ip) =>
      WithoutMembers(d.overrides, ip);
      assert ClearOverride(d, ip).Merged() == d.Merged();
    case SetGlobalRate(rate) =>
      SetGlobalStaysLive(d, rate);
  }

  // ---- Over runs ----

  /** A file whose rates take effect once the program has printed it. */
  predicate Workable(file: string) {
    WellFormedFile(file) && Live(ParseDoc(file).value)
  }

  /** What is in the managed region, if there is one, is what the program would print. */
  predicate AsPrinted(file: string) {
    ParseDoc(file).Ok? && (ParseDoc(file).value.hasManaged ==> Emit(ParseDoc(file).value) == Ok(file))
  }

  /** A file whose rates take effect: not yet migrated, or printed by the program. */
  predicate LiveFile(file: string) {
    Workable(file) && AsPrinted(file)
  }

  lemma PrintedIsLive(d: Doc)
    requires WellFormed(d) && Live(d)
    ensures Emit(d).Ok? && LiveFile(Emit(d).value)
  {
    PrintedIsReread(d);
    EmitIsFixedPoint(d);
    FileIsWellFormed(Emit(d).value);
    if Wired(d) { WiredReread(d); } else { LiteralReread(d); }
  }

  lemma WantedIsLive(valid: string -> bool, file: string, req: Request)
    requires Workable(file) && !req.SaveRaw? && Admissible(valid, file, req) && Effective(file, req)
    requires Wanted(valid, file, req).Ok?
    ensures LiveFile(Wanted(valid, file, req).value)
  {
    hide Live, BlockPlaced, AroundPlaced, FieldsAgree, Unquoted, Emit;
    FileIsWellFormed(file);
    var d := ParseDoc(file).value;
    EditApplies(valid, d, req);
    EditStaysLive(valid, d, req);
    PrintedIsLive(EditedDoc(valid, d, req).value);
  }

  /** An accepted request leaves a workable file, and one that is not a raw save a live one. */
  lemma StepStaysLive(valid: string -> bool, file: string, req: Request, w: World)
    requires Workable(file) && Admissible(valid, file, req) && Effective(file, req) && w.restoreOk
    requires req.SaveRaw? ==> Workable(req.content)
    ensures var (file', accepted) := Step(valid, file, req, w);
            && Workable(file')
            && (!accepted ==> file' == file)
            && (accepted ==> if req.SaveRaw? then file' == req.content else LiveFile(file'))
  {
    hide Workable, AsPrinted, Admissible, Effective;
    if Wanted(valid, file, req).Ok? {
      if !req.SaveRaw? { WantedIsLive(valid, file, req); }
      LiveIsWorkable(Wanted(valid, file, req).value);
      SaveOutcome(file, Wanted(valid, file, req).value, w);
    }
  }

  lemma LiveIsWorkable(file: string)
    ensures LiveFile(file) ==> Workable(file)
  {
  }

  lemma UnmanagedIsItself(file: string)
    requires ParseDoc(file).Ok? && !ParseDoc(file).value.hasManaged
    ensures ParseDoc(file).value.postManaged == file
  {
  }

  /** In a live file nginx gives every client exactly the rate the settings say. */
  lemma LiveMeaning(file: string, ip: string)
    requires LiveFile(file)
    ensures FileRate(file, ip) == Some(RateFor(FileSettings(file), ip))
  {
    FileIsWellFormed(file);
    var d := ParseDoc(file).value;
    if d.hasManaged {
      WiredMeaning(d, ip);
    } else {
      UnmanagedIsItself(file);
      LiteralMeaning(d, ip);
    }
  }

  /** Raw saves are of workable files. */
  predicate WorkableSaves(events: seq<Event>) {
    forall e :: e in events && e.0.SaveRaw? ==> Workable(e.0.content)
  }

  /** The region is the program's own work: the file in force was printed, or saved raw as it would be printed. */
  predicate LastIsPrinted(file: string, accepted: seq<Request>) {
    if accepted == [] then AsPrinted(file)
    else accepted[|accepted| - 1].SaveRaw? ==> AsPrinted(accepted[|accepted| - 1].content)
  }

  lemma {:induction false} RunStaysLive(valid: string -> bool, file: string, events: seq<Event>)
    requires Workable(file) && WorkableSaves(events)
    requires AdmissibleRun(valid, file, events) && EffectiveRun(valid, file, events)
    ensures Workable(FileAfter(valid, file, events))
    ensures LastIsPrinted(file, AcceptedIn(valid, file, events)) ==> LiveFile(FileAfter(valid, file, events))
  {
    hide Workable, AsPrinted, Step, Unquoted, Admissible, Effective;
    if events != [] {
      var front, last := events[..|events| - 1], events[|events| - 1];
      assert last in events && forall e :: e in front ==> e in events;
      RunStaysLive(valid, file, front);
      StepStaysLive(valid, FileAfter(valid, file, front), last.0, last.1);
    }
  }

  /**
   * After every run of requests, whatever nginx and docker did, each client gets the rate that the accepted
   * requests add up to: its own override if it has one, the global rate otherwise. Where a region was edited
   * by hand, at the start or by a raw save, this is so again from the next accepted request on.
   */
  lemma RunMeaning(valid: string -> bool, file: string, events: seq<Event>, ip: string)
    requires Workable(file) && WorkableSaves(events)
    requires AdmissibleRun(valid, file, events) && EffectiveRun(valid, file, events)
    requires LastIsPrinted(file, AcceptedIn(valid, file, events))
    ensures AllReadable(AcceptedIn(valid, file, events))
    ensures FileRate(FileAfter(valid, file, events), ip) ==
            Some(RateFor(ApplyAll(valid, FileSettings(file), AcceptedIn(valid, file, events)), ip))
  {
    hide Live, Emit, FileRate, RateFor, AdmissibleRun, EffectiveRun, LastIsPrinted, WorkableSaves;
    RunRefinesMap(valid, file, events);
    RunStaysLive(valid, file, events);
    LiveMeaning(FileAfter(valid, file, events), ip);
  }

  /** Migrating a file changes no client's rate, even when it edits a quote instead of the directive. */
  lemma MigrationKeepsRates(d: Doc, ip: string)
    requires WellFormed(d) && Literal(d) && Migrate(d).Ok?
    ensures Emit(Migrate(d).value).Ok?
    ensures FileRate(Emit(Migrate(d).value).value, ip) == FileRate(d.postManaged, ip) == Some(FindLimitRate(d.postManaged).value.parts[3])
  {
    hide FindLimitRate, WellFormed, Unquoted, Emit, FileRate, Migrate;
    LiteralRate(d, ip);
    if Unquoted(d.postManaged) {
      UnquotedMigrationKeepsRates(d, ip);
    } else {
      MigrateStaysWellFormed(d);
      MigratedText(d);
      LiteralStays(Migrate(d).value, FindLimitRate(d.postManaged).value.parts[3], ip);
    }
  }

  lemma MigratedText(d: Doc)
    requires WellFormed(d) && !d.hasManaged && Migrate(d).Ok?
    ensures Migrate(d).value.hasManaged && Migrate(d).value.Merged() == Migrate(d).value.postManaged
  {
  }

  lemma LiteralRate(d: Doc, ip: string)
    requires Literal(d)
    ensures FileRate(d.postManaged, ip) == Some(FindLimitRate(d.postManaged).value.parts[3])
  {
  }

  lemma UnquotedMigrationKeepsRates(d: Doc, ip: string)
    requires WellFormed(d) && Literal(d) && Migrate(d).Ok? && Unquoted(d.postManaged)
    ensures Emit(Migrate(d).value).Ok?
    ensures FileRate(Emit(Migrate(d).value).value, ip) == FileRate(d.postManaged, ip)
  {
    MigrateKeeps(d);
    MigrateWires(d);
    WiredMeaning(Migrate(d).value, ip);
    LiteralMeaning(d, ip);
  }
}

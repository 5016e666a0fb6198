/** The global rate and the connection limit read from a file, stated on its text alone. */
module ValueReadings {
  import opened Wrappers
  import opened Lists
  import opened Text
  import opened Regex
  import opened Patterns
  import opened Overrides
  import opened Document
  import opened ManagedRead
  import opened Directives
  import opened Parsed
  import opened RoundTrip
  import opened LineShapes
  import opened FileReadings
  import opened Decimal

  // ---- The global rate ----

  /** The line of the empty key: its value without the white space around it and without one semicolon behind it. */
  ghost predicate IsFallbackLine(l: string, value: string) {
    exists lead, gap, semicolon, tail, rest ::
      && l == lead + ("\"\"" + (gap + (value + (tail + (semicolon + rest)))))
      && Only(lead, WHITE) && Only(gap, WHITE) && Only(tail, WHITE) && Only(rest, WHITE)
      && value != "" && value[0] !in WHITE && value[|value| - 1] !in WHITE
      && (semicolon == ";" || (semicolon == "" && value[|value| - 1] != ';'))
  }

  ghost function Falls(value: string): string -> bool {
    (l: string) => IsFallbackLine(l, value)
  }

  ghost function HasEmptyKey(): string -> bool {
    (l: string) => StartsWith(l, "\"\"")
  }

  /** The first line of the empty key has this value. */
  ghost predicate FirstFallback(ls: seq<string>, value: string) {
    First(Falls(value), HasEmptyKey(), ls)
  }

  const VARIABLE := "$lcm_effective_rate"

  ghost function SetsRate(value: string): string -> bool {
    (l: string) => IsRateLine(l, value)
  }

  ghost predicate IsLiteralLine(l: string) {
    exists w :: w != VARIABLE && IsRateLine(l, w)
  }

  /** The first directive that does not name the variable of the region has this value. */
  ghost predicate FirstLiteral(ls: seq<string>, value: string) {
    value != VARIABLE && First(SetsRate(value), IsLiteralLine, ls)
  }

  lemma {:induction false} FirstRateIff(ls: seq<string>, value: string)
    requires value != ""
    ensures FirstRate(ls) == value <==> FirstLiteral(ls, value)
  {
    hide First, IsRateLine, Match;
    if ls == [] {
      NothingFirst(SetsRate(value), IsLiteralLine);
    } else {
      assert ls == [ls[0]] + ls[1..];
      FirstRateIff(ls[1..], value);
      FirstCons(SetsRate(value), IsLiteralLine, ls[0], ls[1..]);
      forall w ensures MatchLimitRate(ls[0]).Some? && MatchLimitRate(ls[0]).value.0[3] == w <==> IsRateLine(ls[0], w) {
        RateLineIff(ls[0], w);
      }
      RateNotEmpty(ls[0]);
      var m := MatchLimitRate(ls[0]);
      assert m.Some? ==> IsRateLine(ls[0], m.value.0[3]);
    }
  }

  lemma NothingFirst(f: string -> bool, g: string -> bool)
    ensures !First(f, g, [])
  {
  }

  lemma RateNotEmpty(l: string)
    ensures forall w :: IsRateLine(l, w) ==> w != ""
  {
  }

  lemma TrimIsTight(s: string)
    ensures Trimmed(TrimSpace(s))
  {
    var l := TrimLeft(s);
    TrimLeftFacts(s);
    TrimRightFacts(l);
    assert TrimRight(l) != "" ==> TrimRight(l)[0] == l[0];
  }

  lemma TightIsItself(s: string)
    requires s != "" && Trimmed(s)
    ensures TrimSpace(s) == s
  {
    TrimSpaceIs("", s, "");
    assert "" + s + "" == s;
  }

  /** The value the reader takes from what is behind the empty key. */
  function Unsemicoloned(s: string): string {
    TrimSpace(DropSemicolon(TrimSpace(s)))
  }

  lemma WithSemicolon(gap: string, value: string, tail: string)
    requires All(Space, gap) && All(Space, tail) && value != "" && Trimmed(value)
    ensures Unsemicoloned(gap + (value + (tail + ";"))) == value
  {
    hide TrimSpace;
    var m := value + (tail + ";");
    assert m[0] == value[0] && m[|m| - 1] == ';';
    TrimSpaceIs(gap, m, "");
    assert gap + m + "" == gap + m;
    assert m[..|m| - 1] == value + tail;
    TrimSpaceIs("", value, tail);
    assert "" + value + tail == value + tail;
  }

  lemma WithoutSemicolon(gap: string, value: string)
    requires All(Space, gap) && value != "" && Trimmed(value) && value[|value| - 1] != ';'
    ensures Unsemicoloned(gap + value) == value
  {
    hide TrimSpace;
    TrimSpaceIs(gap, value, "");
    assert gap + value + "" == gap + value;
    TightIsItself(value);
  }

  /** What is behind the key, white space around it aside. */
  lemma KeyIsCut(lead: string, m: string, rest: string)
    requires All(Space, lead) && All(Space, rest) && m != "" && !Is(Space, m[|m| - 1])
    ensures TrimSpace(lead + (("\"\"" + m) + rest)) == "\"\"" + m
  {
    var k := "\"\"" + m;
    assert k[0] == '"' && k[|k| - 1] == m[|m| - 1];
    TrimSpaceIs(lead, k, rest);
    assert lead + k + rest == lead + (k + rest);
  }

  lemma FallbackIfShape(l: string, value: string)
    requires IsFallbackLine(l, value)
    ensures EMPTY_KEY <= TrimSpace(l) && Unsemicoloned(TrimSpace(l)[2..]) == value
  {
    hide TrimSpace, WHITE, Only, Unsemicoloned;
    var lead, gap, semicolon, tail, rest :|
      && l == lead + ("\"\"" + (gap + (value + (tail + (semicolon + rest)))))
      && Only(lead, WHITE) && Only(gap, WHITE) && Only(tail, WHITE) && Only(rest, WHITE)
      && value != "" && value[0] !in WHITE && value[|value| - 1] !in WHITE
      && (semicolon == ";" || (semicolon == "" && value[|value| - 1] != ';'));
    OnlyIsAll(lead);
    OnlyIsAll(gap);
    OnlyIsAll(tail);
    OnlyIsAll(rest);
    WhiteChars(value[0]);
    WhiteChars(value[|value| - 1]);
    if semicolon == ";" { CutWith(lead, gap, value, tail, rest); } else { CutWithout(lead, gap, value, tail, semicolon, rest); }
  }

  lemma CutWith(lead: string, gap: string, value: string, tail: string, rest: string)
    requires All(Space, lead) && All(Space, gap) && All(Space, tail) && All(Space, rest) && value != "" && Trimmed(value)
    ensures var t := TrimSpace(lead + ("\"\"" + (gap + (value + (tail + (";" + rest))))));
            EMPTY_KEY <= t && Unsemicoloned(t[2..]) == value
  {
    hide TrimSpace, Unsemicoloned, All, Trimmed;
    var m := gap + (value + (tail + ";"));
    WithSemicolon(gap, value, tail);
    KeyIsCut(lead, m, rest);
    SixThenText(lead, gap, value, tail, ";", rest);
    EmptyKeyCut(m);
  }

  lemma CutWithout(lead: string, gap: string, value: string, tail: string, semicolon: string, rest: string)
    requires All(Space, lead) && All(Space, gap) && All(Space, tail) && All(Space, rest) && value != "" && Trimmed(value)
    requires semicolon == "" && value[|value| - 1] != ';'
    ensures var t := TrimSpace(lead + ("\"\"" + (gap + (value + (tail + (semicolon + rest))))));
            EMPTY_KEY <= t && Unsemicoloned(t[2..]) == value
  {
    hide TrimSpace, Unsemicoloned;
    var m := gap + value;
    WithoutSemicolon(gap, value);
    KeyIsCut(lead, m, tail + rest);
    SixThenText(lead, gap, value, "", "", tail + rest);
    assert "" + (tail + rest) == tail + rest && value + "" == value && semicolon + rest == rest;
    EmptyKeyCut(m);
  }

  lemma SixThenText(lead: string, gap: string, value: string, tail: string, semicolon: string, rest: string)
    ensures lead + (("\"\"" + (gap + (value + (tail + semicolon)))) + rest)
            == lead + ("\"\"" + (gap + (value + (tail + (semicolon + rest)))))
  {
    Assoc(tail, semicolon, rest);
    Assoc(value, tail + semicolon, rest);
    Assoc(gap, value + (tail + semicolon), rest);
    Assoc("\"\"", gap + (value + (tail + semicolon)), rest);
  }

  lemma ShapeIfFallback(l: string, value: string)
    requires EMPTY_KEY <= TrimSpace(l) && Unsemicoloned(TrimSpace(l)[2..]) == value && value != ""
    ensures IsFallbackLine(l, value)
  {
    hide TrimSpace, WHITE, Only, All;
    var t := TrimSpace(l);
    var lead, rest := TrimParts(l);
    var gap, more := TrimParts(t[2..]);
    var m := TrimSpace(t[2..]);
    var gap', tail := TrimParts(DropSemicolon(m));
    TrimIsTight(DropSemicolon(m));
    TrimIsTight(t[2..]);
    var semicolon := if m != "" && m[|m| - 1] == ';' then ";" else "";
    assert m == DropSemicolon(m) + semicolon;
    if semicolon == "" { TightIsItself(m); }
    assert semicolon == "" ==> value == m;
    FallbackPieces(lead, gap, gap', value, tail, semicolon, more, rest);
    assert l == lead + (("\"\"" + (gap + ((gap' + (value + tail) + semicolon) + more))) + rest);
    WhiteSums(gap, gap');
    WhiteSums(more, rest);
    OnlyIsAll(lead);
    OnlyIsAll(gap + gap');
    OnlyIsAll(tail);
    OnlyIsAll(more + rest);
    WhiteChars(value[0]);
    WhiteChars(value[|value| - 1]);
  }

  lemma WhiteSums(a: string, b: string)
    requires All(Space, a) && All(Space, b)
    ensures All(Space, a + b)
  {
  }

  lemma FallbackPieces(
    lead: string, gap: string, gap': string, value: string, tail: string, semicolon: string, more: string, rest: string)
    ensures lead + (("\"\"" + (gap + ((gap' + (value + tail) + semicolon) + more))) + rest)
            == lead + ("\"\"" + ((gap + gap') + (value + (tail + (semicolon + (more + rest))))))
  {
    Assoc(gap', value + tail, semicolon);
    Assoc(value, tail, semicolon);
    Assoc(gap', value + (tail + semicolon), more);
    Assoc(gap, gap', (value + (tail + semicolon)) + more);
    Assoc(value, tail + semicolon, more);
    Assoc(tail, semicolon, more);
    var v := value + (tail + (semicolon + more));
    Assoc("\"\"", (gap + gap') + v, rest);
    Assoc(gap + gap', v, rest);
    Assoc(value, tail + (semicolon + more), rest);
    Assoc(tail, semicolon + more, rest);
    Assoc(semicolon, more, rest);
  }

  lemma {:induction false} FallbackIff(ls: seq<string>, value: string)
    requires value != ""
    ensures Fallback(ls) == value <==> FirstFallback(ls, value)
  {
    hide First, IsFallbackLine, StartsWith, TrimSpace, DropSemicolon;
    if ls == [] {
      NothingFirst(Falls(value), HasEmptyKey());
    } else {
      var l := ls[0];
      assert ls == [l] + ls[1..];
      FallbackIff(ls[1..], value);
      FirstCons(Falls(value), HasEmptyKey(), l, ls[1..]);
      StartIff(l, "\"\"");
      if IsFallbackLine(l, value) { FallbackIfShape(l, value); }
      if "\"\"" <= TrimSpace(l) && Unsemicoloned(TrimSpace(l)[2..]) == value { ShapeIfFallback(l, value); }
    }
  }

  /** The map block of the region gives the empty key this value. */
  ghost predicate RegionSays(content: string, value: string) {
    exists managed, body ::
      IsManaged(content, managed) && BracedPlain(managed, MAP_NAME, body) && FirstFallback(Lines(body), value)
  }

  lemma MapFallbackIff(managed: string, value: string)
    requires value != ""
    ensures MapFallback(managed) == value <==> exists body :: BracedPlain(managed, MAP_NAME, body) && FirstFallback(Lines(body), value)
  {
    hide FirstBraces, Fallback, FirstFallback, BracedPlain, Lines;
    forall body
      ensures FirstBraces(managed, MANAGED_MAP) == Some(body) <==> BracedPlain(managed, MAP_NAME, body)
      ensures Fallback(Lines(body)) == value <==> FirstFallback(Lines(body), value)
    {
      BracedIff(managed, body);
      FallbackIff(Lines(body), value);
    }
  }

  /** The global rate is what the map block of the region says, and without that the first literal rate of the user's text. */
  lemma GlobalIff(content: string, value: string)
    requires ParseDoc(content).Ok? && value != ""
    ensures var d := ParseDoc(content).value;
            d.global == value <==>
            RegionSays(content, value) || ((forall w :: !RegionSays(content, w)) && FirstLiteral(Lines(d.Merged()), value))
  {
    hide SplitAtMarkers, ParseUser, BracedAfter, MapFallback, Lines, IsManaged, FirstRate, FirstLiteral, FirstFallback, BracedPlain;
    hide RegionSays;
    var s := SplitAtMarkers(content);
    forall w | w != "" ensures RegionSays(content, w) <==> s.managed.Some? && MapFallback(s.managed.value) == w {
      RegionSaysIff(content, w);
    }
    assert !RegionSays(content, "") by { NeverEmpty(content); }
    FirstRateIff(Lines(s.pre + s.post), value);
    MergedIsSplit(s);
    if s.managed.None? {
      GlobalOfUser(s, [], "");
    } else {
      var global := MapFallback(s.managed.value);
      assert global != "" ==> RegionSays(content, global);
      GlobalOfUser(s, RatesFrom(Entries(Lines(BracedAfter(s.managed.value, MANAGED_GEO).value))), global);
    }
  }

  lemma GlobalOfUser(s: Split, rates: seq<Override>, global: string)
    ensures ParseUser(s, rates, global).global == if global == "" then FirstRate(Lines(s.pre + s.post)) else global
  {
    hide SortByIP, FindGeo, ConnLimitOf, FirstRate, ExemptsFrom;
  }

  lemma NeverEmpty(content: string)
    ensures !RegionSays(content, "")
  {
  }

  lemma RegionSaysIff(content: string, value: string)
    requires value != ""
    ensures RegionSays(content, value) <==>
            SplitAtMarkers(content).managed.Some? && MapFallback(SplitAtMarkers(content).managed.value) == value
  {
    hide SplitAtMarkers, MapFallback, Lines, IsManaged, FirstFallback, BracedPlain;
    var s := SplitAtMarkers(content);
    forall managed ensures s.managed == Some(managed) <==> IsManaged(content, managed) {
      ManagedIff(content, managed);
    }
    if s.managed.Some? { MapFallbackIff(s.managed.value, value); }
  }

  // ---- The connection limit ----

  ghost function SetsLimit(digits: string): string -> bool {
    (l: string) => IsConnLine(l, digits)
  }

  ghost predicate IsLimitLine(l: string) {
    exists w :: IsConnLine(l, w)
  }

  /** The first limit_conn line of perip has these digits. */
  ghost predicate FirstLimit(ls: seq<string>, digits: string) {
    First(SetsLimit(digits), IsLimitLine, ls)
  }

  lemma {:induction false} FirstConnIff(ls: seq<string>, digits: string)
    ensures FirstConn(ls) == Some(digits) <==> FirstLimit(ls, digits)
  {
    hide First, IsConnLine, MatchLimitConn;
    if ls == [] {
      NothingFirst(SetsLimit(digits), IsLimitLine);
    } else {
      assert ls == [ls[0]] + ls[1..];
      FirstConnIff(ls[1..], digits);
      FirstCons(SetsLimit(digits), IsLimitLine, ls[0], ls[1..]);
      forall w ensures MatchLimitConn(ls[0]) == Some(w) <==> IsConnLine(ls[0], w) {
        ConnLineIff(ls[0], w);
      }
      var m := MatchLimitConn(ls[0]);
      assert m.Some? ==> IsConnLine(ls[0], m.value);
    }
  }

  /** The limit is the number the first limit_conn line of perip states, if it is positive and an int64, and otherwise 10. */
  lemma ConnLimitIff(content: string, n: int)
    requires ParseDoc(content).Ok?
    ensures var d := ParseDoc(content).value;
            && (d.connLimitParsed && d.connLimit == n <==> StatesLimit(Lines(d.Merged()), n))
            && (!d.connLimitParsed ==> d.connLimit == 10)
  {
    hide ParseDoc, Lines, FirstConn, FirstLimit;
    var d := ParseDoc(content).value;
    ParsedAgrees(content);
    forall digits ensures FirstConn(Lines(d.Merged())) == Some(digits) <==> FirstLimit(Lines(d.Merged()), digits) {
      FirstConnIff(Lines(d.Merged()), digits);
    }
    var r := FirstConn(Lines(d.Merged()));
    if r.Some? { LimitIsDigits(Lines(d.Merged()), r.value); }
  }

  ghost predicate StatesLimit(ls: seq<string>, n: int) {
    exists digits :: FirstLimit(ls, digits) && All(Digit, digits) && n == Value(digits) && 0 < n <= 9223372036854775807
  }

  lemma LimitIsDigits(ls: seq<string>, digits: string)
    requires FirstLimit(ls, digits)
    ensures All(Digit, digits)
  {
    hide IsConnLine;
    var i :| 0 <= i < |ls| && SetsLimit(digits)(ls[i]) && NoneBefore(IsLimitLine, ls, i);
    ConnLineDigits(ls[i], digits);
  }

  lemma ConnLineDigits(l: string, digits: string)
    requires IsConnLine(l, digits)
    ensures All(Digit, digits)
  {
    hide DIGITS, BLANKS;
    OnlyIsAll(digits);
  }
}

/** Reading back the managed region. */
module ManagedRead {
  import opened Wrappers
  import opened Text
  import opened Regex
  import opened Patterns
  import opened Overrides
  import opened Document
  import opened PrintedLines

  /** A global rate that survives printing: a token without a closing brace that trimming leaves alone. */
  predicate GlobalToken(s: string) {
    RateToken(s) && Trimmed(s)
  }

  // ---- Blocks ----

  /** A block whose name is not repeated before it is found, and its body is cut out exactly. */
  lemma BlockIsFound(lead: string, head: string, body: string, rest: string, name: string)
    requires name <= head && name != "" && '{' !in head && '}' !in head && '}' !in body
    requires forall i :: 0 <= i < |lead| ==> !At(lead + (BlockText(head, body) + rest), i, name)
    ensures BracedAfter(lead + (BlockText(head, body) + rest), name) == Ok(body)
    ensures FirstBraces(lead + (BlockText(head, body) + rest), name) == Some(body)
  {
    var s := lead + (BlockText(head, body) + rest);
    var t := BlockText(head, body) + rest;
    assert At(s, |lead|, name) by { assert s[|lead|..|lead| + |name|] == t[..|name|] == name; }
    assert Index(s, name) == |lead|;
    assert s[|lead|..] == t;
    assert |head| > 0;
    BlockIsCut(head, body, rest);
  }

  lemma DropPrefix(x: string, y: string)
    ensures (x + y)[|x|..] == y && (x + y)[..|x|] == x
  {
  }

  lemma BlockIsCut(head: string, body: string, rest: string)
    requires '{' !in head && '}' !in head && '}' !in body
    ensures var t := BlockText(head, body) + rest;
            var open, close := Index(t, "{"), Index(t, "}");
            && open == |head| && close == |head| + 1 + |body|
            && Index(t[open..], "}") == close - open
            && t[open + 1..close] == body
  {
    var t, r := BlockText(head, body) + rest, "\n" + rest;
    var inner := "{" + body;
    BlockAssoc(head, body, rest);
    IndexOfChar(head, '{', body + ("}" + r));
    DropPrefix(head, "{" + (body + ("}" + r)));
    IndexOfChar(inner, '}', r);
    IndexOfChar(head + inner, '}', r);
    DropPrefix(head + inner, "}" + r);
    DropPrefix(head + "{", body);
    Assoc(head, "{", body);
  }

  lemma BlockAssoc(head: string, body: string, rest: string)
    ensures var t, r, inner := BlockText(head, body) + rest, "\n" + rest, "{" + body;
            && t == head + "{" + (body + ("}" + r))
            && t == head + ("{" + (body + ("}" + r)))
            && "{" + (body + ("}" + r)) == inner + "}" + r
            && t == (head + inner) + "}" + r
            && t == (head + inner) + ("}" + r)
  {
  }

  // ---- Characters of the printed lines ----

  /** c does not occur in s before the last character of s, or is never followed by d. */
  lemma NoPairSplit(lead: string, tail: string, c: char, d: char)
    requires c !in lead && d !in tail
    ensures NoPair(lead + tail, c, d)
  {
    var t := lead + tail;
    forall i | 0 <= i < |t| - 1 ensures !(t[i] == c && t[i + 1] == d) {
      if i < |lead| { assert t[i] in lead; } else { assert t[i + 1] in tail; }
    }
  }

  lemma {:induction false} AbsentFromTerminated(ls: seq<string>, c: char)
    requires c != '\n' && forall l :: l in ls ==> c !in l
    ensures c !in Terminated(ls)
  {
    if ls != [] {
      var front, last := ls[..|ls| - 1], ls[|ls| - 1];
      assert last in ls && forall l :: l in front ==> l in ls;
      AbsentFromTerminated(front, c);
    }
  }

  lemma EntryLineChars(ip: string, value: string)
    requires EntryIP(ip) && RateToken(value)
    ensures '}' !in EntryLine(ip, value) && '\n' !in EntryLine(ip, value)
    ensures NoPair(EntryLine(ip, value), 'p', ' ') && NoPair(EntryLine(ip, value), '#', ' ')
  {
    var lead := "    " + (ip + Gap(ip));
    var tail := value + ";";
    EntryLineParts(ip, value);
    assert forall c :: c in lead ==> c == ' ' || Is(IPChar, c);
    assert forall c :: c in tail ==> c == ';' || (Is(TokenChar, c) && c != '}');
    NoPairSplit(lead, tail, 'p', ' ');
    NoPairSplit(lead, tail, '#', ' ');
  }

  lemma EntryLineParts(ip: string, value: string)
    ensures EntryLine(ip, value) == "    " + (ip + Gap(ip)) + (value + ";")
  {
    Assoc(ip, Gap(ip), value + ";");
    Assoc("    ", ip + Gap(ip), value + ";");
  }

  lemma FallbackLineChars(global: string)
    requires RateToken(global)
    ensures '}' !in FallbackLine(global) && '\n' !in FallbackLine(global)
    ensures NoPair(FallbackLine(global), '#', ' ')
  {
    var lead, tail := INDENT + (EMPTY_KEY + LONG_GAP), global + ";";
    Literals('}');
    Literals('\n');
    Literals('#');
    assert '}' !in lead && '\n' !in lead && '#' !in lead;
    assert forall c :: c in tail ==> c == ';' || (Is(TokenChar, c) && c != '}');
    Assoc(EMPTY_KEY, LONG_GAP, tail);
    Assoc(INDENT, EMPTY_KEY + LONG_GAP, tail);
    NoPairSplit(lead, tail, '#', ' ');
  }

  predicate CleanLine(l: string) {
    '}' !in l && '\n' !in l && NoPair(l, '#', ' ')
  }

  lemma {:induction false} RateLinesChars(os: seq<Override>)
    requires forall o :: o in os ==> GoodRule(o)
    ensures forall l :: l in RateLines(os) ==> CleanLine(l) && NoPair(l, 'p', ' ')
  {
    if os != [] {
      var front, last := os[..|os| - 1], os[|os| - 1];
      assert last in os && forall o :: o in front ==> o in os;
      RateLinesChars(front);
      if last.HasRate() { EntryLineChars(last.ip, last.rate); }
    }
  }

  lemma AbsentPair(s: string, c: char, d: char)
    requires c !in s
    ensures NoPair(s, c, d)
  {
    assert forall i :: 0 <= i < |s| ==> s[i] in s;
  }

  lemma Literals(c: char)
    requires c == '{' || c == '}' || c == '#' || c == '\n' || c == 'p'
    ensures c !in OVERRIDE_VAR && c !in EFFECTIVE_RATE_VAR
    ensures c !in INDENT && c !in DEFAULT_KEY && c !in SHORT_GAP && c !in LONG_GAP && c !in EMPTY_KEY
  {
    GapLiterals(c);
  }

  lemma GapLiterals(c: char)
    requires c == '{' || c == '}' || c == '#' || c == '\n' || c == 'p'
    ensures c !in INDENT && c !in DEFAULT_KEY && c !in SHORT_GAP && c !in LONG_GAP && c !in EMPTY_KEY
  {
  }

  /** A character that is in no part of a parameter line is not in the line. */
  lemma ParameterLineChars(c: char, key: string, gap: string, value: string)
    requires c == '{' || c == '}' || c == '#' || c == '\n' || c == 'p'
    requires c !in key && c !in gap && c !in value
    ensures c !in INDENT + (key + (gap + (value + ";")))
  {
    Literals(c);
    AbsentFromConcat(c, value, ";");
    AbsentFromConcat(c, gap, value + ";");
    AbsentFromConcat(c, key, gap + (value + ";"));
    AbsentFromConcat(c, INDENT, key + (gap + (value + ";")));
  }

  lemma GeoLiterals(c: char)
    requires c == '{' || c == '}' || c == '#' || c == '\n' || c == 'p'
    ensures c !in GEO_HEAD && c !in GEO_DEFAULT
  {
    Literals(c);
    AbsentFromConcat(c, "geo ", OVERRIDE_VAR);
    AbsentFromConcat(c, MANAGED_GEO, " ");
    ParameterLineChars(c, DEFAULT_KEY, SHORT_GAP, EMPTY_KEY);
  }

  lemma MapLiterals(c: char)
    requires c == '{' || c == '}' || c == '#' || c == '\n'
    ensures c !in MAP_HEAD && c !in MAP_DEFAULT
  {
    Literals(c);
    AbsentFromConcat(c, "map ", OVERRIDE_VAR);
    AbsentFromConcat(c, EFFECTIVE_RATE_VAR, " ");
    AbsentFromConcat(c, " ", EFFECTIVE_RATE_VAR + " ");
    AbsentFromConcat(c, MANAGED_MAP, " " + (EFFECTIVE_RATE_VAR + " "));
    ParameterLineChars(c, DEFAULT_KEY, SHORT_GAP, OVERRIDE_VAR);
  }

  lemma DefaultsAreClean()
    ensures CleanLine(GEO_DEFAULT) && CleanLine(MAP_DEFAULT) && NoPair(GEO_DEFAULT, 'p', ' ')
  {
    GeoLiterals('}');
    GeoLiterals('\n');
    GeoLiterals('#');
    GeoLiterals('p');
    MapLiterals('}');
    MapLiterals('\n');
    MapLiterals('#');
    AbsentPair(GEO_DEFAULT, '#', ' ');
    AbsentPair(GEO_DEFAULT, 'p', ' ');
    AbsentPair(MAP_DEFAULT, '#', ' ');
  }

  lemma NewlineThen(s: string, c: char)
    requires c != '\n' && NoPair(s, c, ' ')
    ensures NoPair("\n" + s, c, ' ')
  {
    NoPairConcat("\n", s, c, ' ');
  }

  lemma GeoBodyChars(os: seq<Override>)
    requires forall o :: o in os ==> GoodRule(o)
    ensures '}' !in GeoBody(os) && NoPair(GeoBody(os), '#', ' ') && NoPair(GeoBody(os), 'p', ' ')
  {
    var ls := [GEO_DEFAULT] + RateLines(os);
    DefaultsAreClean();
    RateLinesChars(os);
    AbsentFromTerminated(ls, '}');
    NoPairTerminated(ls, '#', ' ');
    NoPairTerminated(ls, 'p', ' ');
    NewlineThen(Terminated(ls), '#');
    NewlineThen(Terminated(ls), 'p');
  }

  lemma MapBodyChars(global: string)
    requires RateToken(global)
    ensures '}' !in MapBody(global) && NoPair(MapBody(global), '#', ' ')
  {
    var ls := [FallbackLine(global), MAP_DEFAULT];
    DefaultsAreClean();
    FallbackLineChars(global);
    AbsentFromTerminated(ls, '}');
    NoPairTerminated(ls, '#', ' ');
    NewlineThen(Terminated(ls), '#');
  }

  lemma BlockPairs(head: string, body: string, c: char)
    requires c !in head && NoPair(body, c, ' ') && c != '{' && c != '}' && c != '\n'
    ensures NoPair(BlockText(head, body), c, ' ')
  {
    AbsentPair(head, c, ' ');
    NoPairConcat(body, "}\n", c, ' ');
    NoPairConcat("{", body + "}\n", c, ' ');
    NoPairConcat(head, "{" + (body + "}\n"), c, ' ');
  }

  /** No end marker can start inside the managed text: nowhere is a hash followed by a space. */
  lemma ManagedTextHasNoMarker(os: seq<Override>, global: string)
    requires forall o :: o in os ==> GoodRule(o)
    requires RateToken(global)
    ensures NoPair(ManagedText(os, global), '#', ' ')
    ensures var m := ManagedText(os, global); m != "" && m[|m| - 1] == '\n'
  {
    GeoLiterals('#');
    MapLiterals('#');
    GeoBodyChars(os);
    MapBodyChars(global);
    var a, b := BlockText(GEO_HEAD, GeoBody(os)), BlockText(MAP_HEAD, MapBody(global));
    BlockPairs(GEO_HEAD, GeoBody(os), '#');
    BlockPairs(MAP_HEAD, MapBody(global), '#');
    BlockEnds(GEO_HEAD, GeoBody(os));
    BlockEnds(MAP_HEAD, MapBody(global));
    NoPairConcat(a, b, '#', ' ');
    NewlineThen(a + b, '#');
  }

  lemma BlockEnds(head: string, body: string)
    ensures var t := BlockText(head, body); |t| >= 2 && t[|t| - 1] == '\n' && t[|t| - 2] == '}'
  {
  }

  // ---- Reading it back ----

  lemma BodyLines(ls: seq<string>)
    requires NoNewlines(ls)
    ensures Lines("\n" + Terminated(ls)) == [""] + ls + [""]
  {
    var t := Terminated(ls);
    LinesCons('\n', t);
    TerminatedLines(ls, "");
    assert t + "" == t;
    assert [""] + (ls + [""]) == [""] + ls + [""];
  }

  lemma SkippedAlone(line: string)
    requires IsKept(line)
    ensures Entries([line]) == []
  {
    EntriesSnoc([], line, None);
    assert [] + [line] == [line];
  }

  lemma BlankIsSkipped()
    ensures TrimSpace("") == "" && Entries([""]) == []
  {
    TrimSpaceBlank("");
    SkippedAlone("");
  }

  lemma IndentedIsTrimmed(m: string)
    requires m != "" && Trimmed(m)
    ensures TrimSpace(INDENT + m) == m
  {
    TrimSpaceIs(INDENT, m, "");
    assert INDENT + m + "" == INDENT + m;
  }

  lemma DefaultIsSkipped()
    ensures Entries([GEO_DEFAULT]) == []
  {
    var m := DEFAULT_KEY + (SHORT_GAP + (EMPTY_KEY + ";"));
    assert m[0] == 'd' && m[|m| - 1] == ';';
    IndentedIsTrimmed(m);
    assert "default" <= m;
    SkippedAlone(GEO_DEFAULT);
  }

  lemma GeoBodyEntries(os: seq<Override>)
    requires forall o :: o in os ==> GoodRule(o)
    ensures Entries(Lines(GeoBody(os))) == RateEntries(os)
  {
    var ls := [GEO_DEFAULT] + RateLines(os);
    RateLinesChars(os);
    DefaultsAreClean();
    BodyLines(ls);
    EntriesConcat([""] + ls, [""]);
    EntriesConcat([""], ls);
    EntriesConcat([GEO_DEFAULT], RateLines(os));
    RateLinesAreRead(os);
    BlankIsSkipped();
    DefaultIsSkipped();
  }

  lemma GeoIsFound(os: seq<Override>, global: string)
    requires forall o :: o in os ==> GoodRule(o)
    ensures BracedAfter(ManagedText(os, global), MANAGED_GEO) == Ok(GeoBody(os))
  {
    var s := ManagedText(os, global);
    GeoLiterals('{');
    GeoLiterals('}');
    GeoBodyChars(os);
    assert MANAGED_GEO[0] == 'g' && s[0] == '\n';
    assert !At(s, 0, MANAGED_GEO) by { assert s[0..|MANAGED_GEO|][0] == s[0]; }
    BlockIsFound("\n", GEO_HEAD, GeoBody(os), BlockText(MAP_HEAD, MapBody(global)), MANAGED_GEO);
  }

  /** The name of the map block does not occur in front of it. */
  lemma MapNameIsFirst(lead: string, rest: string, i: nat)
    requires NoPair(lead, 'p', ' ') && |lead| >= 3
    requires lead[|lead| - 1] == '\n' && lead[|lead| - 2] == '}' && lead[|lead| - 3] == '\n'
    requires i < |lead|
    ensures !At(lead + rest, i, MANAGED_MAP)
  {
    var s, m := lead + rest, MANAGED_MAP;
    assert |m| >= 4 && m[0] == 'm' && m[2] == 'p' && m[3] == ' ';
    FourOfOccurrence(s, i, m);
    assert forall k :: 0 <= k < |lead| ==> s[k] == lead[k];
  }

  lemma FourOfOccurrence(s: string, i: int, p: string)
    requires |p| >= 4
    ensures At(s, i, p) ==> s[i] == p[0] && s[i + 2] == p[2] && s[i + 3] == p[3]
  {
    if At(s, i, p) {
      var t := s[i..i + |p|];
      assert t[0] == s[i] && t[2] == s[i + 2] && t[3] == s[i + 3];
    }
  }

  lemma FallbackLineIsRead(global: string)
    requires GlobalToken(global)
    ensures TrimSpace(FallbackLine(global)) == EMPTY_KEY + (LONG_GAP + (global + ";"))
    ensures TrimSpace(DropSemicolon(TrimSpace(LONG_GAP + (global + ";")))) == global
  {
    var m := EMPTY_KEY + (LONG_GAP + (global + ";"));
    assert m[0] == '"' && m[|m| - 1] == ';';
    IndentedIsTrimmed(m);
    GlobalIsCut(global);
  }

  lemma GlobalIsCut(global: string)
    requires GlobalToken(global)
    ensures TrimSpace(DropSemicolon(TrimSpace(LONG_GAP + (global + ";")))) == global
  {
    var g := global + ";";
    assert All(Space, LONG_GAP);
    TrimSpaceIs(LONG_GAP, g, "");
    assert LONG_GAP + g + "" == LONG_GAP + g;
    assert g[..|g| - 1] == global;
    TrimSpaceIs("", global, "");
    assert "" + global + "" == global;
  }

  lemma FallbackSkips(l: string, ls: seq<string>)
    requires TrimSpace(l) == ""
    ensures Fallback([l] + ls) == Fallback(ls)
  {
    assert ([l] + ls)[1..] == ls;
  }

  lemma FallbackHere(l: string, ls: seq<string>, t: string, rest: string)
    requires TrimSpace(l) == t && EMPTY_KEY <= t && t[2..] == rest
    ensures Fallback([l] + ls) == TrimSpace(DropSemicolon(TrimSpace(rest)))
  {
    var all := [l] + ls;
    assert all[0] == l;
  }

  lemma EmptyKeyCut(rest: string)
    ensures EMPTY_KEY <= EMPTY_KEY + rest && (EMPTY_KEY + rest)[..2] == EMPTY_KEY && (EMPTY_KEY + rest)[2..] == rest
  {
  }

  lemma FallbackOfTwo(line: string, other: string)
    requires '\n' !in line && '\n' !in other
    ensures Fallback(Lines("\n" + Terminated([line, other]))) == Fallback([line] + [other, ""])
  {
    hide Lines, Terminated, Fallback, TrimSpace;
    BodyLines([line, other]);
    BlankIsSkipped();
    assert [""] + [line, other] + [""] == [""] + ([line] + [other, ""]);
    FallbackSkips("", [line] + [other, ""]);
  }

  lemma MapBodyIsRead(global: string)
    requires GlobalToken(global)
    ensures Fallback(Lines(MapBody(global))) == global
  {
    FallbackLineChars(global);
    DefaultsAreClean();
    hide Lines, Terminated, Fallback, TrimSpace;
    var line := FallbackLine(global);
    FallbackLineIsRead(global);
    FallbackOfTwo(line, MAP_DEFAULT);
    var rest := LONG_GAP + (global + ";");
    EmptyKeyCut(rest);
    FallbackHere(line, [MAP_DEFAULT, ""], EMPTY_KEY + rest, rest);
  }

  lemma MapIsFound(lead: string, body: string)
    requires NoPair(lead, 'p', ' ') && |lead| >= 3
    requires lead[|lead| - 1] == '\n' && lead[|lead| - 2] == '}' && lead[|lead| - 3] == '\n'
    requires '}' !in body
    ensures FirstBraces(lead + BlockText(MAP_HEAD, body), MANAGED_MAP) == Some(body)
  {
    var t := BlockText(MAP_HEAD, body) + "";
    forall i | 0 <= i < |lead| ensures !At(lead + t, i, MANAGED_MAP) {
      MapNameIsFirst(lead, t, i);
    }
    MapLiterals('{');
    MapLiterals('}');
    assert MANAGED_MAP[0] == 'm';
    BlockIsFound(lead, MAP_HEAD, body, "", MANAGED_MAP);
    assert t == BlockText(MAP_HEAD, body);
  }

  lemma MapIsRead(os: seq<Override>, global: string)
    requires (forall o :: o in os ==> GoodRule(o)) && GlobalToken(global)
    ensures MapFallback(ManagedText(os, global)) == global
  {
    var geo, map_ := BlockText(GEO_HEAD, GeoBody(os)), BlockText(MAP_HEAD, MapBody(global));
    Assoc("\n", geo, map_);
    LeadFacts(os);
    MapBodyChars(global);
    MapIsFound("\n" + geo, MapBody(global));
    MapBodyIsRead(global);
  }

  lemma LeadFacts(os: seq<Override>)
    requires forall o :: o in os ==> GoodRule(o)
    ensures var lead := "\n" + BlockText(GEO_HEAD, GeoBody(os));
            && NoPair(lead, 'p', ' ') && |lead| >= 3
            && lead[|lead| - 1] == '\n' && lead[|lead| - 2] == '}' && lead[|lead| - 3] == '\n'
  {
    GeoLiterals('p');
    GeoBodyChars(os);
    BlockPairs(GEO_HEAD, GeoBody(os), 'p');
    NewlineThen(BlockText(GEO_HEAD, GeoBody(os)), 'p');
    TerminatedIsLineTerminated([GEO_DEFAULT] + RateLines(os));
    BlockTail(GEO_HEAD, GeoBody(os));
  }

  lemma BlockTail(head: string, body: string)
    requires body != ""
    ensures var t := BlockText(head, body);
            |t| >= 3 && t[|t| - 1] == '\n' && t[|t| - 2] == '}' && t[|t| - 3] == body[|body| - 1]
  {
  }

  /** Printing the managed text and reading it back gives the rates and the global rate. */
  lemma ManagedTextIsRead(os: seq<Override>, global: string)
    requires (forall o :: o in os ==> GoodRule(o)) && GlobalToken(global)
    ensures ParseManaged(ManagedText(os, global)) == Ok((RatesFrom(RateEntries(os)), global))
  {
    GeoIsFound(os, global);
    GeoBodyEntries(os);
    MapIsRead(os, global);
  }
}

/** What nginx makes of the user's block: whose requests it exempts, over every run of requests. */
module Exemption {
  import opened Wrappers
  import opened Lists
  import opened Text
  import opened Regex
  import opened Patterns
  import opened Overrides
  import opened Document
  import opened PrintedLines
  import opened ManagedRead
  import opened Rewrite
  import opened Directives
  import opened UserText
  import opened RoundTrip
  import opened Edits
  import opened FixedPoint
  import opened Endpoints
  import opened Nginx
  import opened SplitLine
  import opened Survival

  // ---- The block as nginx reads it ----

  /** A line nginx skips. */
  predicate IsComment(l: string) {
    var visible := Run(ReSpace, l).1;
    visible != "" && visible[0] == '#'
  }

  predicate IsNoComment(l: string) {
    !IsComment(l)
  }

  function Uncommented(body: string): string {
    Terminated(Filter(IsNoComment, Lines(body)))
  }

  /** The value the user's geo block gives a client: $rate_limit. */
  function BlockValue(body: string, ip: string): string {
    Value(Uncommented(body), ip)
  }

  /** A line of the user's that says nothing to nginx but a default value. */
  ghost predicate PlainLine(l: string) {
    All(ReSpace, l) || IsComment(l) || exists v :: IsParameterLine(l, DEFAULT_KEY, v)
  }

  ghost predicate PlainLines(ls: seq<string>) {
    forall l :: l in ls ==> PlainLine(l)
  }

  // ---- Lists of parameter lines and blank lines ----

  /** The parameters these lines stand for. */
  ghost predicate StandsFor(ls: seq<string>, ps: seq<(string, string)>) {
    if ls == [] then ps == []
    else
      || (All(ReSpace, ls[0]) && StandsFor(ls[1..], ps))
      || (ps != [] && IsParameterLine(ls[0], ps[0].0, ps[0].1) && StandsFor(ls[1..], ps[1..]))
  }

  lemma {:induction false} StandsForConcat(a: seq<string>, p: seq<(string, string)>, b: seq<string>, q: seq<(string, string)>)
    requires StandsFor(a, p) && StandsFor(b, q)
    ensures StandsFor(a + b, p + q)
  {
    if a == [] {
      assert a + b == b && p + q == q;
    } else {
      assert (a + b)[0] == a[0] && (a + b)[1..] == a[1..] + b;
      if All(ReSpace, a[0]) && StandsFor(a[1..], p) {
        StandsForConcat(a[1..], p, b, q);
      } else {
        StandsForConcat(a[1..], p[1..], b, q);
        assert (p + q)[0] == p[0] && (p + q)[1..] == p[1..] + q;
      }
    }
  }

  lemma {:induction false} ParametersOfLines(lead: string, ls: seq<string>, ps: seq<(string, string)>)
    requires All(ReSpace, lead) && StandsFor(ls, ps)
    ensures Parameters(lead + Terminated(ls)) == ps
    decreases |ls|
  {
    hide Match, Parameters, Token, All;
    if ls == [] {
      assert lead + Terminated(ls) == lead;
      BlankHasNoParameters(lead);
    } else {
      var l, rest := ls[0], ls[1..];
      TerminatedCons(l, rest);
      assert [l] + rest == ls;
      if All(ReSpace, l) && StandsFor(rest, ps) {
        BlankLead(lead, l, Terminated(rest));
        ParametersOfLines(lead + l + "\n", rest, ps);
      } else {
        var (key, value) := ps[0];
        assert IsParameterLine(l, ps[0].0, ps[0].1);
        var indent, gap :| All(ReSpace, indent) && All(ReSpace, gap) && gap != "" && Token(key) && Token(value)
                           && l == indent + (key + (gap + (value + ";")));
        LineInFront(lead, indent, key, gap, value, "\n" + Terminated(rest));
        BlankTogether(lead, indent);
        ParameterIsRead(lead + indent, key, gap, value, "\n" + Terminated(rest));
        BlankNewline();
        ParametersOfLines("\n", rest, ps[1..]);
        assert [ps[0]] + ps[1..] == ps;
      }
    }
  }

  lemma BlankNewline()
    ensures All(ReSpace, "\n")
  {
  }

  lemma BlankTogether(a: string, b: string)
    requires All(ReSpace, a) && All(ReSpace, b)
    ensures All(ReSpace, a + b)
  {
  }

  lemma BlankLead(lead: string, l: string, t: string)
    requires All(ReSpace, lead) && All(ReSpace, l)
    ensures All(ReSpace, lead + l + "\n") && lead + (l + ("\n" + t)) == (lead + l + "\n") + t
  {
  }

  lemma LineInFront(lead: string, indent: string, key: string, gap: string, value: string, rest: string)
    ensures lead + ((indent + (key + (gap + (value + ";")))) + rest)
            == (lead + indent) + (key + (gap + (value + (";" + rest))))
  {
    Assoc(value, ";", rest);
    Assoc(gap, value + ";", rest);
    Assoc(key, gap + (value + ";"), rest);
    Assoc(indent, key + (gap + (value + ";")), rest);
    Assoc(lead, indent, key + (gap + (value + (";" + rest))));
  }

  // ---- The user's lines and the entries ----

  lemma {:induction false} PlainStandsFor(ls: seq<string>) returns (ps: seq<(string, string)>)
    requires PlainLines(ls)
    ensures StandsFor(Filter(IsNoComment, ls), ps)
    ensures forall p :: p in ps ==> p.0 == DEFAULT_KEY
  {
    ps := [];
    if ls != [] {
      var front, last := ls[..|ls| - 1], ls[|ls| - 1];
      assert last in ls && forall l :: l in front ==> l in ls;
      ps := PlainStandsFor(front);
      if !IsComment(last) {
        if All(ReSpace, last) {
          StandsForConcat(Filter(IsNoComment, front), ps, [last], []);
          assert ps + [] == ps;
        } else {
          var v :| IsParameterLine(last, DEFAULT_KEY, v);
          OneStandsFor(last, DEFAULT_KEY, v);
          StandsForConcat(Filter(IsNoComment, front), ps, [last], [(DEFAULT_KEY, v)]);
          ps := ps + [(DEFAULT_KEY, v)];
        }
      }
    }
  }

  lemma OneStandsFor(l: string, key: string, value: string)
    requires IsParameterLine(l, key, value)
    ensures StandsFor([l], [(key, value)])
  {
    assert [l][1..] == [] && [(key, value)][1..] == [];
    assert StandsFor([], []);
  }

  lemma {:induction false} ExemptLinesStandFor(os: seq<Override>)
    requires forall o :: o in os ==> EntryIP(o.ip)
    ensures Filter(IsNoComment, ExemptLines(os)) == ExemptLines(os)
    ensures StandsFor(ExemptLines(os), ExemptEntries(os))
  {
    if os != [] {
      var front, last := os[..|os| - 1], os[|os| - 1];
      assert last in os && forall o :: o in front ==> o in os;
      ExemptLinesStandFor(front);
      if last.exempt {
        var l := EntryLine(last.ip, "0");
        EntryIsNoComment(last.ip);
        FilterSnoc(IsNoComment, ExemptLines(front), l);
        EntryIsParameter(last.ip, "0");
        OneStandsFor(l, last.ip, "0");
        StandsForConcat(ExemptLines(front), ExemptEntries(front), [l], [(last.ip, "0")]);
      }
    }
  }

  lemma EntryIsNoComment(ip: string)
    requires EntryIP(ip)
    ensures !IsComment(EntryLine(ip, "0"))
  {
    assert Is(IPChar, ip[0]);
    var m := EntryText(ip, "0");
    assert m[0] == ip[0];
    assert All(ReSpace, "    ");
    RunIs(ReSpace, "    ", m);
  }

  /** What nginx reads from a printed block: the user's defaults and an entry for each exempt address. */
  lemma PrintedParametersAre(body: string, os: seq<Override>) returns (ps: seq<(string, string)>)
    requires PlainLines(UserLines(body)) && forall o :: o in os ==> EntryIP(o.ip)
    ensures Parameters(Uncommented(NewBody(body, os))) == ps + ExemptEntries(os)
    ensures Parameters(Uncommented(NewBody(body, []))) == ps
    ensures forall p :: p in ps ==> p.0 == DEFAULT_KEY
  {
    hide Parameters, Lines, NewBody, Terminated, IsComment, StandsFor, All;
    ps := PlainStandsFor(UserLines(body));
    ParametersOfBody(body, os, ps);
    ParametersOfBody(body, [], ps);
    assert ps + ExemptEntries([]) == ps;
  }

  lemma ParametersOfBody(body: string, os: seq<Override>, ps: seq<(string, string)>)
    requires forall o :: o in os ==> EntryIP(o.ip)
    requires StandsFor(Filter(IsNoComment, UserLines(body)), ps)
    ensures Parameters(Uncommented(NewBody(body, os))) == ps + ExemptEntries(os)
  {
    hide Parameters, Lines, NewBody, Terminated, UserLines, StandsFor, Filter, ExemptLines, ExemptEntries;
    var u, e := UserLines(body), ExemptLines(os);
    NewBodyLines(body, os);
    ExemptLinesStandFor(os);
    NoCommentsBetween(u, e);
    var f := Filter(IsNoComment, u);
    StandsForConcat(f, ps, e, ExemptEntries(os));
    BetweenBlanks(f + e, ps + ExemptEntries(os));
    ParametersOfLines("", [""] + (f + e) + [""], ps + ExemptEntries(os));
    assert "" + Terminated([""] + (f + e) + [""]) == Terminated([""] + (f + e) + [""]);
  }

  lemma NoCommentsBetween(u: seq<string>, e: seq<string>)
    requires Filter(IsNoComment, e) == e
    ensures Filter(IsNoComment, [""] + (u + e) + [""]) == [""] + (Filter(IsNoComment, u) + e) + [""]
  {
    hide IsComment;
    EmptyIsNoComment();
    FilterConcat(IsNoComment, [""] + (u + e), [""]);
    FilterConcat(IsNoComment, [""], u + e);
    FilterConcat(IsNoComment, u, e);
    FilterSnoc(IsNoComment, [], "");
    assert [] + [""] == [""];
  }

  lemma BetweenBlanks(ls: seq<string>, ps: seq<(string, string)>)
    requires StandsFor(ls, ps)
    ensures StandsFor([""] + ls + [""], ps)
  {
    hide StandsFor;
    EmptyIsNoComment();
    StandsForConcat([""], [], ls, ps);
    assert [] + ps == ps;
    StandsForConcat([""] + ls, ps, [""], []);
    assert ps + [] == ps;
  }

  lemma EmptyIsNoComment()
    ensures !IsComment("") && StandsFor([""], [])
  {
    assert [""][1..] == [] && All(ReSpace, "");
    assert StandsFor([], []);
  }

  // ---- The values ----

  lemma {:induction false} DefaultsOnly(ps: seq<(string, string)>, key: string)
    requires forall p :: p in ps ==> p.0 == DEFAULT_KEY
    ensures Lookup(ps, key) == None
  {
    if ps != [] {
      assert ps[|ps| - 1] in ps && forall p :: p in ps[..|ps| - 1] ==> p in ps;
      DefaultsOnly(ps[..|ps| - 1], key);
    }
  }

  lemma {:induction false} LookupExempt(d: seq<(string, string)>, os: seq<Override>, ip: string)
    requires (forall o :: o in os ==> EntryIP(o.ip)) && Lookup(d, ip) == None
    ensures Lookup(d + ExemptEntries(os), ip) == if (ip, "0") in ExemptEntries(os) then Some("0") else None
    ensures Default(d + ExemptEntries(os)) == Default(d)
  {
    if os == [] {
      assert d + ExemptEntries(os) == d;
    } else {
      var front, last := os[..|os| - 1], os[|os| - 1];
      assert last in os && forall o :: o in front ==> o in os;
      LookupExempt(d, front, ip);
      if last.exempt {
        AddressIsPlain(last.ip);
        LookupSnoc(d + ExemptEntries(front), last.ip, "0", ip);
        assert d + ExemptEntries(os) == (d + ExemptEntries(front)) + [(last.ip, "0")];
      }
    }
  }

  /**
   * A printed block whose kept lines are blank, comments or default lines gives "0" to the exempt addresses, and to
   * everyone else what the user's own lines give.
   */
  lemma PrintedExemption(body: string, os: seq<Override>, ip: string)
    requires PlainLines(UserLines(body)) && GoodRules(os)
    ensures BlockValue(NewBody(body, os), ip) == if ExemptOf(os, ip) then "0" else BlockValue(NewBody(body, []), ip)
  {
    hide Parameters, NewBody, Uncommented, UserLines, ExemptOf;
    var ps := PrintedParametersAre(body, os);
    DefaultsOnly(ps, ip);
    LookupExempt(ps, os, ip);
    SortedIsUnique(os);
    ExemptHasEntry(os, ip);
  }

  // ---- The block is found behind the managed region ----

  /** An o in front of white space: only the opening of the managed geo block has one in the managed text. */
  predicate Tied(s: string) {
    forall i :: 0 <= i < |s| - 1 ==> !(s[i] == 'o' && Is(ReSpace, s[i + 1]))
  }

  lemma TiedConcat(a: string, b: string)
    requires Tied(a) && Tied(b)
    requires a == "" || b == "" || a[|a| - 1] != 'o' || !Is(ReSpace, b[0])
    ensures Tied(a + b)
  {
    var t := a + b;
    forall i | 0 <= i < |t| - 1 ensures !(t[i] == 'o' && Is(ReSpace, t[i + 1])) {
      if i + 1 < |a| {
        assert t[i] == a[i] && t[i + 1] == a[i + 1];
      } else if i >= |a| {
        assert t[i] == b[i - |a|] && t[i + 1] == b[i - |a| + 1];
      }
    }
  }

  lemma TiedParts(a: string, b: string)
    requires 'o' !in a && forall c :: c in b ==> !Is(ReSpace, c)
    ensures Tied(a + b)
  {
    var t := a + b;
    forall i | 0 <= i < |t| - 1 ensures !(t[i] == 'o' && Is(ReSpace, t[i + 1])) {
      if i < |a| { assert t[i] == a[i] && a[i] in a; } else { assert t[i + 1] == b[i + 1 - |a|]; }
    }
  }

  lemma {:induction false} TiedLines(ls: seq<string>)
    requires forall l :: l in ls ==> Tied(l) && l != "" && l[|l| - 1] == ';'
    ensures Tied(Terminated(ls))
    ensures Terminated(ls) == "" || Terminated(ls)[|Terminated(ls)| - 1] == '\n'
  {
    if ls != [] {
      var front, last := ls[..|ls| - 1], ls[|ls| - 1];
      assert last in ls && forall l :: l in front ==> l in ls;
      TiedLines(front);
      TiedConcat(Terminated(front), last);
      assert (Terminated(front) + last)[|Terminated(front) + last| - 1] == ';';
      TiedConcat(Terminated(front) + last, "\n");
    }
  }

  lemma TiedParameter(lead: string, value: string)
    requires 'o' !in lead && Token(value)
    ensures var l := lead + (value + ";"); Tied(l) && l != "" && l[|l| - 1] == ';'
  {
    assert forall c :: c in value + ";" ==> !Is(ReSpace, c) by {
      assert forall i :: 0 <= i < |value| ==> Is(TokenChar, value[i]);
    }
    TiedParts(lead, value + ";");
  }

  lemma TiedEntry(ip: string, rate: string)
    requires EntryIP(ip) && Token(rate)
    ensures Tied(EntryLine(ip, rate)) && EntryLine(ip, rate) != "" && EntryLine(ip, rate)[|EntryLine(ip, rate)| - 1] == ';'
  {
    var lead := "    " + (ip + Gap(ip));
    assert 'o' !in lead by { assert forall c :: c in lead ==> c == ' ' || Is(IPChar, c); }
    TiedParameter(lead, rate);
    Assoc(ip, Gap(ip), rate + ";");
    Assoc("    ", ip + Gap(ip), rate + ";");
  }

  lemma {:induction false} TiedRateLines(os: seq<Override>)
    requires forall o :: o in os ==> GoodRule(o)
    ensures forall l :: l in RateLines(os) ==> Tied(l) && l != "" && l[|l| - 1] == ';'
  {
    if os != [] {
      var front, last := os[..|os| - 1], os[|os| - 1];
      assert last in os && forall o :: o in front ==> o in os;
      TiedRateLines(front);
      if last.HasRate() { TiedEntry(last.ip, last.rate); }
    }
  }

  lemma TiedDefaults(global: string)
    requires Token(global)
    ensures var l := GEO_DEFAULT; Tied(l) && l != "" && l[|l| - 1] == ';'
    ensures var l := MAP_DEFAULT; Tied(l) && l != "" && l[|l| - 1] == ';'
    ensures var l := FallbackLine(global); Tied(l) && l != "" && l[|l| - 1] == ';'
  {
    assert 'o' !in INDENT && 'o' !in DEFAULT_KEY && 'o' !in SHORT_GAP && 'o' !in LONG_GAP && 'o' !in EMPTY_KEY;
    KeysAreTokens();
    OverrideVarIsToken();
    LeadOfThree('o', INDENT, DEFAULT_KEY, SHORT_GAP, EMPTY_KEY + ";");
    LeadOfThree('o', INDENT, DEFAULT_KEY, SHORT_GAP, OVERRIDE_VAR + ";");
    LeadOfThree('o', INDENT, EMPTY_KEY, LONG_GAP, global + ";");
    TiedParameter(INDENT + (DEFAULT_KEY + SHORT_GAP), EMPTY_KEY);
    TiedParameter(INDENT + (DEFAULT_KEY + SHORT_GAP), OVERRIDE_VAR);
    TiedParameter(INDENT + (EMPTY_KEY + LONG_GAP), global);
  }

  lemma LeadOfThree(c: char, a: string, b: string, d: string, rest: string)
    requires c !in a && c !in b && c !in d
    ensures c !in a + (b + d) && a + (b + (d + rest)) == (a + (b + d)) + rest
  {
    Assoc(b, d, rest);
    Assoc(a, b + d, rest);
  }

  /** The managed text behind its first word. */
  function BehindGeo(os: seq<Override>, global: string): string {
    (" " + (OVERRIDE_VAR + " ")) + ("{" + (GeoBody(os) + "}\n")) + BlockText(MAP_HEAD, MapBody(global))
  }

  lemma ManagedTextStarts(os: seq<Override>, global: string)
    ensures ManagedText(os, global) == "\ngeo" + BehindGeo(os, global)
    ensures BehindGeo(os, global)[0] == ' ' && BehindGeo(os, global)[1] == '$' && BehindGeo(os, global)[2] == 'l'
  {
    var v, b1, b2 := " " + (OVERRIDE_VAR + " "), "{" + (GeoBody(os) + "}\n"), BlockText(MAP_HEAD, MapBody(global));
    assert OVERRIDE_VAR[0] == '$' && OVERRIDE_VAR[1] == 'l';
    assert "\n" + "geo" == "\ngeo" && "geo" + " " == "geo ";
    Assoc("geo", " ", OVERRIDE_VAR);
    assert GEO_HEAD == "geo" + v by {
      Assoc("geo", " ", OVERRIDE_VAR);
      Assoc("geo", " " + OVERRIDE_VAR, " ");
      Assoc(" ", OVERRIDE_VAR, " ");
    }
    Assoc("geo", v, b1);
    Assoc("geo", v + b1, b2);
    Assoc("\n", "geo", (v + b1) + b2);
  }

  lemma TiedBehindGeo(os: seq<Override>, global: string)
    requires (forall o :: o in os ==> GoodRule(o)) && GlobalToken(global)
    ensures Tied(BehindGeo(os, global))
    ensures var t := BehindGeo(os, global); |t| > 2 && t[|t| - 2..] == "}\n"
  {
    TiedRateLines(os);
    TiedDefaults(global);
    hide Tied, Terminated, RateLines, FallbackLine;
    TiedBody([GEO_DEFAULT] + RateLines(os));
    TiedBody([FallbackLine(global), MAP_DEFAULT]);
    TiedHeads();
    TiedPieces(" " + (OVERRIDE_VAR + " "), "{" + (GeoBody(os) + "}\n"), MAP_HEAD, "{" + (MapBody(global) + "}\n"));
  }

  lemma TiedPieces(v: string, b: string, h: string, m: string)
    requires Tied(v) && Tied(b) && Tied(h) && Tied(m)
    requires v != "" && v[|v| - 1] == ' ' && h != "" && h[|h| - 1] == ' '
    requires |b| > 2 && b[|b| - 2..] == "}\n" && |m| > 2 && m[|m| - 2..] == "}\n"
    ensures var t := v + b + (h + m); Tied(t) && |t| > 2 && t[|t| - 2..] == "}\n"
  {
    hide Tied;
    assert b[|b| - 1] == b[|b| - 2..][1] == '\n';
    TiedConcat(v, b);
    TiedConcat(h, m);
    TiedConcat(v + b, h + m);
  }

  lemma TiedBody(ls: seq<string>)
    requires forall l :: l in ls ==> Tied(l) && l != "" && l[|l| - 1] == ';'
    ensures var t := "{" + (("\n" + Terminated(ls)) + "}\n");
            Tied(t) && t[0] == '{' && |t| > 2 && t[|t| - 2..] == "}\n"
  {
    TiedLines(ls);
    TiedConcat("\n", Terminated(ls));
    TiedConcat("\n" + Terminated(ls), "}\n");
    TiedConcat("{", ("\n" + Terminated(ls)) + "}\n");
  }

  lemma TiedHeads()
    ensures Tied(" " + (OVERRIDE_VAR + " ")) && Tied(MAP_HEAD) && MAP_HEAD != ""
    ensures var v := " " + (OVERRIDE_VAR + " "); v != "" && v[|v| - 1] == ' ' && MAP_HEAD[|MAP_HEAD| - 1] == ' '
  {
    assert OVERRIDE_VAR[|OVERRIDE_VAR| - 1] == 'e' && EFFECTIVE_RATE_VAR[|EFFECTIVE_RATE_VAR| - 1] == 'e';
    OverrideVarIsToken();
    EffectiveVarFacts();
    TiedToken(OVERRIDE_VAR);
    TiedToken(EFFECTIVE_RATE_VAR);
    TiedConcat(OVERRIDE_VAR, " ");
    TiedConcat(" ", OVERRIDE_VAR + " ");
    TiedConcat("map ", OVERRIDE_VAR);
    TiedConcat(EFFECTIVE_RATE_VAR, " ");
    TiedConcat(" ", EFFECTIVE_RATE_VAR + " ");
    TiedConcat("map " + OVERRIDE_VAR, " " + (EFFECTIVE_RATE_VAR + " "));
  }

  lemma TiedToken(s: string)
    requires Token(s)
    ensures Tied(s)
  {
    assert forall i :: 0 <= i < |s| ==> Is(TokenChar, s[i]);
  }

  lemma HeaderWords(h: string)
    requires IsHeader(h)
    ensures |h| >= 16 && h[0] == 'g' && h[2] == 'o' && Is(ReSpace, h[3]) && (h[4] == '$' ==> h[5] == 'r')
    ensures '#' !in h
  {
    hide IsHeader;
    var gap, tail := HeaderParts(h);
    var v := "$rate_limit";
    assert h[0] == 'g' && h[2] == 'o' && h[3] == gap[0];
    assert |gap| > 1 ==> h[4] == gap[1];
    assert v[1] == 'r' && h[3 + |gap| + 1] == v[1];
    assert '#' !in "geo" && '#' !in v && '#' !in "{";
    AbsentFromConcat('#', tail, "{");
    AbsentFromConcat('#', v, tail + "{");
    AbsentFromConcat('#', gap, v + (tail + "{"));
    AbsentFromConcat('#', "geo", gap + (v + (tail + "{")));
  }

  /** No opening starts or ends in the managed text. */
  lemma NoHeaderInManaged(t: string, b: string, y: string, i: nat, h: string)
    requires t == "\ngeo" + b && |b| > 2 && b[0] == ' ' && b[1] == '$' && b[2] == 'l' && Tied(b) && b[|b| - 2..] == "}\n"
    requires IsHeader(h) && i < |t|
    ensures !At(t + y, i, h)
  {
    hide IsHeader;
    HeaderWords(h);
    var s := t + y;
    assert forall k :: 4 <= k < |t| ==> s[k] == b[k - 4];
    assert s[0] == '\n' && s[2] == 'e' && s[3] == 'o' && s[5] == '$' && s[6] == 'l';
    assert b[|b| - 1] == b[|b| - 2..][1] == '\n' && b[|b| - 2] == b[|b| - 2..][0] == '}';
    assert s[|t| - 1] == '\n' && s[|t| - 2] == '}';
    assert forall k :: 4 <= k < |t| - 1 ==> !(s[k] == 'o' && Is(ReSpace, s[k + 1]));
    if At(s, i, h) { FirstSix(s, i, h); }
  }

  lemma FirstSix(s: string, i: int, h: string)
    requires At(s, i, h) && |h| >= 6
    ensures i + |h| <= |s| && s[i] == h[0] && s[i + 2] == h[2] && s[i + 3] == h[3] && s[i + 4] == h[4] && s[i + 5] == h[5]
  {
    var t := s[i..i + |h|];
    assert t[0] == s[i] && t[2] == s[i + 2] && t[3] == s[i + 3] && t[4] == s[i + 4] && t[5] == s[i + 5];
  }

  /** The managed region neither holds an opening nor completes one. */
  lemma RegionIsHeaderFree(pre: string, m: string, t: string, b: string, e: string, rest: string)
    requires HeaderFree(pre + rest)
    requires m != "" && m[0] == '#' && 'g' !in m && e != "" && e[0] == '#' && 'g' !in e
    requires t == "\ngeo" + b && |b| > 2 && b[0] == ' ' && b[1] == '$' && b[2] == 'l' && Tied(b) && b[|b| - 2..] == "}\n"
    ensures HeaderFree(pre + (m + (t + (e + rest))))
  {
    hide IsHeader, Tied;
    var s := pre + (m + (t + (e + rest)));
    forall i, h | At(s, i, h) ensures !IsHeader(h) {
      if IsHeader(h) { HeaderAroundRegion(pre, m, t, b, e, rest, i, h); }
    }
  }

  /** An occurrence that starts in front of a hash and holds none ends there too. */
  lemma InFrontOfHash(pre: string, q: string, z: string, i: int, h: string)
    requires At(pre + q, i, h) && 0 <= i < |pre| && q != "" && q[0] == '#' && '#' !in h
    ensures At(pre + z, i, h)
  {
    var s := pre + q;
    assert s[|pre|] == '#' && s[i..i + |h|] == h;
    assert forall k :: i <= k < i + |h| ==> s[k] == h[k - i];
    assert i + |h| <= |pre|;
    assert (pre + z)[i..i + |h|] == s[i..i + |h|];
  }

  /** An occurrence does not start in a text without its first character. */
  lemma NotInText(a: string, m: string, z: string, i: int, h: string)
    requires At(a + (m + z), i, h) && h != "" && h[0] !in m
    ensures !(|a| <= i < |a| + |m|)
  {
    var s := a + (m + z);
    assert s[i..i + |h|][0] == s[i];
    assert forall k :: |a| <= k < |a| + |m| ==> s[k] == m[k - |a|];
  }

  lemma BehindText(a: string, rest: string, pre: string, i: int, h: string)
    requires At(a + rest, i, h) && i >= |a|
    ensures At(pre + rest, i - |a| + |pre|, h)
  {
    AtBehind(a, rest, i, h);
    var j := i - |a|;
    assert (pre + rest)[|pre| + j..|pre| + j + |h|] == rest[j..j + |h|];
  }

  lemma HeaderAroundRegion(pre: string, m: string, t: string, b: string, e: string, rest: string, i: int, h: string)
    requires m != "" && m[0] == '#' && 'g' !in m && e != "" && e[0] == '#' && 'g' !in e
    requires t == "\ngeo" + b && |b| > 2 && b[0] == ' ' && b[1] == '$' && b[2] == 'l' && Tied(b) && b[|b| - 2..] == "}\n"
    requires At(pre + (m + (t + (e + rest))), i, h) && IsHeader(h)
    ensures exists j :: At(pre + rest, j, h)
  {
    hide IsHeader, Tied;
    HeaderWords(h);
    Assoc(pre, m, t + (e + rest));
    Assoc(pre + m, t, e + rest);
    Assoc(pre + m + t, e, rest);
    NotInText(pre, m, t + (e + rest), i, h);
    NotInText(pre + m + t, e, rest, i, h);
    if i < |pre| {
      InFrontOfHash(pre, m + (t + (e + rest)), rest, i, h);
    } else if i >= |pre + m + t + e| {
      BehindText(pre + m + t + e, rest, pre, i, h);
    } else {
      AtBehind(pre + m, t + (e + rest), i, h);
      NoHeaderInManaged(t, b, e + rest, i - |pre + m|, h);
    }
  }

  lemma MarkersHaveNoG()
    ensures BEGIN_MARKER != "" && BEGIN_MARKER[0] == '#' && 'g' !in BEGIN_MARKER
    ensures END_MARKER + "\n" != "" && (END_MARKER + "\n")[0] == '#' && 'g' !in END_MARKER + "\n"
  {
    assert 'g' !in MARKER_STEM && 'g' !in BEGIN_WORDS && 'g' !in BEGIN_DASH && 'g' !in BEGIN_REST;
    assert 'g' !in " ===" && 'g' !in " END ===" && 'g' !in "\n" && 'g' !in "#";
    AbsentFromConcat('g', BEGIN_REST, " ===");
    AbsentFromConcat('g', BEGIN_DASH, BEGIN_REST + " ===");
    AbsentFromConcat('g', BEGIN_WORDS, BEGIN_DASH + (BEGIN_REST + " ==="));
    AbsentFromConcat('g', MARKER_STEM, BEGIN_WORDS + (BEGIN_DASH + (BEGIN_REST + " ===")));
    AbsentFromConcat('g', "#", MARKER_STEM + (BEGIN_WORDS + (BEGIN_DASH + (BEGIN_REST + " ==="))));
    AbsentFromConcat('g', MARKER_STEM, " END ===");
    AbsentFromConcat('g', "#", MARKER_STEM + " END ===");
    AbsentFromConcat('g', END_MARKER, "\n");
  }

  /** The managed region between two texts leaves the block that was there first the first one. */
  lemma RegionKeepsGeo(pre: string, os: seq<Override>, global: string, rest: string, r: Geo)
    requires IsGeo(r) && r.before == pre + rest
    requires (forall o :: o in os ==> GoodRule(o)) && GlobalToken(global)
    ensures var r' := r.(before := pre + (ManagedRegion(os, global) + rest));
            IsGeo(r') && FindGeo(r'.Whole()) == Some(r')
  {
    var t, e := ManagedText(os, global), END_MARKER + "\n";
    MarkersHaveNoG();
    ManagedTextStarts(os, global);
    TiedBehindGeo(os, global);
    hide ManagedText, BehindGeo, Tied, IsHeader, HeaderFree;
    RegionIsHeaderFree(pre, BEGIN_MARKER, t, BehindGeo(os, global), e, rest);
    Assoc(t, e, rest);
    Assoc(BEGIN_MARKER, t + e, rest);
    FindGeoIs(r.(before := pre + (ManagedRegion(os, global) + rest)));
  }

  /** nginx finds the rewritten block in the printed file. */
  lemma PrintedBlockIs(d: Doc)
    requires WellFormed(d)
    ensures Emit(d).Ok? && FindGeo(d.Merged()).Some? && FindGeo(Emit(d).value).Some?
    ensures FindGeo(Emit(d).value).value.body == NewBody(BlockOf(d).body, d.overrides)
  {
    hide FindGeo, ManagedRegion, NewBody, Separator, Emit, SilentBlock, Speaking, Contains, ConnLimitOf;
    EmitPrints(d);
    if d.hasManaged {
      ManagedBlockIs(d);
    } else {
      UserTextIsReread(d, "");
      assert d.preManaged == "" && "" + ("" + NewPost(d)) == NewPost(d);
    }
  }

  lemma ManagedBlockIs(d: Doc)
    requires WellFormed(d) && d.hasManaged
    requires FindGeo(d.Merged()).Some? && |BlockOf(d).before| >= |d.preManaged|
    requires Emit(d) == Ok(d.preManaged + ManagedRegion(d.overrides, d.global) + (Separator(NewPost(d)) + NewPost(d)))
    ensures FindGeo(Emit(d).value).Some?
    ensures FindGeo(Emit(d).value).value.body == NewBody(BlockOf(d).body, d.overrides)
  {
    hide FindGeo, ManagedRegion, NewBody, Separator, Emit, SilentBlock, Speaking, Contains, ConnLimitOf, IsGeo;
    var pre, region, sep := d.preManaged, ManagedRegion(d.overrides, d.global), Separator(NewPost(d));
    var mid := BlockOf(d).before[|pre|..];
    OneNewline(NewPost(d));
    UserTextIsReread(d, sep);
    FindGeoFound(pre + (sep + NewPost(d)));
    var r := FindGeo(pre + (sep + NewPost(d))).value;
    RegionKeepsGeo(pre, d.overrides, d.global, sep + mid, r);
    var r' := r.(before := pre + (region + (sep + mid)));
    BeforeCut(r', pre, region + (sep + mid));
    BeforeCut(r'.(before := region + (sep + mid)), region, sep + mid);
    BeforeCut(r'.(before := sep + mid), sep, mid);
    Assoc(pre, region, sep + NewPost(d));
  }

  // ---- Over runs ----

  /** The value of $rate_limit for a client: the block of the file applied to its address. */
  function ExemptValue(content: string, ip: string): Option<string> {
    match FindGeo(content)
    case None => None
    case Some(g) => Some(BlockValue(g.body, ip))
  }

  /** The settings exempt the client. */
  predicate Exempts(s: Settings, ip: string) {
    ip in s.rules && s.rules[ip].exempt
  }

  lemma ExemptsIs(d: Doc, ip: string)
    ensures Exempts(SettingsOf(d), ip) == ExemptOf(d.overrides, ip)
  {
  }

  /** What the program prints: printing it again changes nothing. */
  predicate PrintsItself(file: string) {
    ParseDoc(file).Ok? && Emit(ParseDoc(file).value) == Ok(file)
  }

  lemma OwnValueDepends(body: string, body': string)
    requires UserLines(body) == UserLines(body')
    ensures NewBody(body, []) == NewBody(body', [])
  {
  }

  /** In a printed file nginx exempts exactly the clients the settings exempt. */
  lemma PrintedFileExempts(file: string, ip: string)
    requires WellFormedFile(file) && PrintsItself(file)
    requires PlainLines(UserLines(BlockOf(ParseDoc(file).value).body))
    ensures ExemptValue(file, ip) ==
            Some(if Exempts(FileSettings(file), ip) then "0" else BlockValue(NewBody(BlockOf(ParseDoc(file).value).body, []), ip))
  {
    hide FindGeo, ParseDoc, Emit, NewBody, BlockValue, PlainLines, UserLines, Exempts;
    FileIsWellFormed(file);
    var d := ParseDoc(file).value;
    PrintedBlockIs(d);
    PrintedExemption(BlockOf(d).body, d.overrides, ip);
    ExemptsIs(d, ip);
  }

  lemma StepPrints(valid: string -> bool, file: string, req: Request, w: World)
    requires WellFormedFile(file) && Admissible(valid, file, req) && !req.SaveRaw? && w.restoreOk
    ensures var (file', accepted) := Step(valid, file, req, w);
            if accepted then PrintsItself(file') else file' == file
  {
    hide WellFormed, WellFormedFile, ParseDoc, Emit, EditedDoc, Unquoted;
    FileIsWellFormed(file);
    if Wanted(valid, file, req).Ok? {
      EditApplies(valid, ParseDoc(file).value, req);
      EmitIsFixedPoint(EditedDoc(valid, ParseDoc(file).value, req).value);
      SaveOutcome(file, Wanted(valid, file, req).value, w);
    }
  }

  lemma {:induction false} RunPrints(valid: string -> bool, file: string, events: seq<Event>)
    requires WellFormedFile(file) && AdmissibleRun(valid, file, events) && forall e :: e in events ==> !e.0.SaveRaw?
    requires PrintsItself(file) || AcceptedIn(valid, file, events) != []
    ensures PrintsItself(FileAfter(valid, file, events))
  {
    hide WellFormed, WellFormedFile, ParseDoc, Step, Admissible, PrintsItself;
    if events != [] {
      var front, last := events[..|events| - 1], events[|events| - 1];
      assert last in events && forall e :: e in front ==> e in events;
      RunRefinesMap(valid, file, front);
      StepPrints(valid, FileAfter(valid, file, front), last.0, last.1);
      if !Step(valid, FileAfter(valid, file, front), last.0, last.1).1 { RunPrints(valid, file, front); }
    }
  }

  /**
   * After every run with an accepted request, whatever nginx and docker did, nginx gives $rate_limit the value "0"
   * for exactly the clients that the accepted requests exempt, and for everyone else the value the user's own lines
   * of the block give, which are those of the file at the start.
   */
  lemma RunExempts(valid: string -> bool, file: string, events: seq<Event>, ip: string)
    requires WellFormedFile(file) && AdmissibleRun(valid, file, events) && EffectiveRun(valid, file, events)
    requires forall e :: e in events ==> !e.0.SaveRaw?
    requires PlainLines(UserLines(BlockOf(ParseDoc(file).value).body))
    requires PrintsItself(file) || AcceptedIn(valid, file, events) != []
    ensures AllReadable(AcceptedIn(valid, file, events))
    ensures ExemptValue(FileAfter(valid, file, events), ip) ==
            Some(if Exempts(ApplyAll(valid, FileSettings(file), AcceptedIn(valid, file, events)), ip) then "0"
                 else BlockValue(NewBody(BlockOf(ParseDoc(file).value).body, []), ip))
  {
    hide FindGeo, ParseDoc, NewBody, BlockValue, PlainLines, UserLines, PrintsItself, FileSettings, ApplyAll;
    hide AdmissibleRun, EffectiveRun;
    var f := FileAfter(valid, file, events);
    RunRefinesMap(valid, file, events);
    RunKeepsUserText(valid, file, events);
    RunPrints(valid, file, events);
    OwnValueDepends(BlockOf(ParseDoc(file).value).body, BlockOf(ParseDoc(f).value).body);
    PrintedFileExempts(f, ip);
  }
}

/** What nginx makes of the printed file: the rate each client gets. */
module Nginx {
  import opened Wrappers
  import opened Text
  import opened Regex
  import opened Patterns
  import opened Overrides
  import opened Document
  import opened PrintedLines
  import opened ManagedRead

  // ---- Reading a block the way nginx does: words up to a semicolon, wherever the lines end ----

  const PARAMETER: Pattern :=
    [Star(ReSpace), Plus(TokenChar), Plus(ReSpace), Plus(TokenChar), Star(ReSpace), Lit(";")]

  /** The parameters of a block body, in order. */
  function Parameters(body: string): seq<(string, string)>
    decreases |body|
  {
    match Match(PARAMETER, body)
    case None => []
    case Some(m) =>
      MatchSound(PARAMETER, body);
      assert PARAMETER[1].Fits(m.0[1]);
      LongParts(m.0, 1);
      [(m.0[1], m.0[3])] + Parameters(m.1)
  }

  lemma {:induction false} LongParts(parts: seq<string>, i: nat)
    requires i < |parts| && parts[i] != ""
    ensures |Concat(parts)| > 0
  {
    if i > 0 { LongParts(parts[1..], i - 1); }
  }

  function Unquote(s: string): string {
    if |s| >= 2 && s[0] == '"' && s[|s| - 1] == '"' then s[1..|s| - 1] else s
  }

  /** The value for a key: the latest parameter with that key. */
  function Lookup(ps: seq<(string, string)>, key: string): Option<string> {
    if ps == [] then None
    else if ps[|ps| - 1].0 != DEFAULT_KEY && Unquote(ps[|ps| - 1].0) == key then Some(Unquote(ps[|ps| - 1].1))
    else Lookup(ps[..|ps| - 1], key)
  }

  function Default(ps: seq<(string, string)>): string {
    if ps == [] then ""
    else if ps[|ps| - 1].0 == DEFAULT_KEY then Unquote(ps[|ps| - 1].1)
    else Default(ps[..|ps| - 1])
  }

  /** A geo or map block applied to a key. */
  function Value(body: string, key: string): string {
    var ps := Parameters(body);
    match Lookup(ps, key)
    case Some(v) => v
    case None => Default(ps)
  }

  /** $lcm_effective_rate for a client: the geo block gives $lcm_rate_override, the map block maps it. */
  function EffectiveRate(geoBody: string, mapBody: string, ip: string): string {
    var override := Value(geoBody, ip);
    var mapped := Value(mapBody, override);
    if mapped == OVERRIDE_VAR then override else mapped
  }

  // ---- The printed parameters ----

  lemma ParameterIsDeterministic()
    ensures Deterministic(PARAMETER)
  {
    assert Deterministic([Lit(";")]);
    assert Deterministic([Star(ReSpace), Lit(";")]);
    assert Stops([Star(ReSpace), Lit(";")], TokenChar);
    assert Deterministic([Plus(TokenChar), Star(ReSpace), Lit(";")]);
    assert Deterministic([Plus(ReSpace), Plus(TokenChar), Star(ReSpace), Lit(";")]);
    assert Deterministic([Plus(TokenChar), Plus(ReSpace), Plus(TokenChar), Star(ReSpace), Lit(";")]);
  }

  /** One parameter in front of the rest. */
  lemma ParameterIsRead(lead: string, key: string, gap: string, value: string, rest: string)
    requires All(ReSpace, lead) && Token(key) && All(ReSpace, gap) && gap != "" && Token(value)
    ensures Parameters(lead + (key + (gap + (value + (";" + rest))))) == [(key, value)] + Parameters(rest)
  {
    var parts := [lead, key, gap, value, "", ";"];
    ParameterIsDeterministic();
    MatchComplete(PARAMETER, parts, rest);
    ConcatSix(lead, key, gap, value, "", ";");
    ReassociateParameter(lead, key, gap, value, rest);
  }

  lemma ReassociateParameter(lead: string, key: string, gap: string, value: string, rest: string)
    ensures (lead + (key + (gap + (value + ("" + ";"))))) + rest == lead + (key + (gap + (value + (";" + rest))))
  {
    assert "" + ";" == ";";
    Assoc(value, ";", rest);
    Assoc(gap, value + ";", rest);
    Assoc(key, gap + (value + ";"), rest);
    Assoc(lead, key + (gap + (value + ";")), rest);
  }

  lemma ParameterIsVisible(s: string) returns (c: char)
    requires Match(PARAMETER, s).Some?
    ensures c in s && !Is(ReSpace, c)
  {
    MatchSound(PARAMETER, s);
    var (parts, rest) := Match(PARAMETER, s).value;
    assert PARAMETER[1].Fits(parts[1]);
    c := parts[1][0];
    CharInConcat(parts, 1, c);
    assert c in Concat(parts) + rest;
  }

  lemma BlankHasNoParameters(s: string)
    requires All(ReSpace, s)
    ensures Parameters(s) == []
  {
    if Match(PARAMETER, s).Some? { var c := ParameterIsVisible(s); }
  }

  /** The parameters a list of printed lines stands for, and the proof that nginx reads them. */
  lemma {:induction false} PrintedParameters(ls: seq<string>, ps: seq<(string, string)>)
    requires |ls| == |ps|
    requires forall i :: 0 <= i < |ls| ==> IsParameterLine(ls[i], ps[i].0, ps[i].1)
    ensures Parameters("\n" + Terminated(ls)) == ps
  {
    hide Match, Parameters, Token;
    if ls == [] {
      assert "\n" + Terminated(ls) == "\n";
      BlankHasNoParameters("\n");
    } else {
      var (key, value) := ps[0];
      assert IsParameterLine(ls[0], ps[0].0, ps[0].1);
      var lead, gap :| All(ReSpace, lead) && All(ReSpace, gap) && gap != "" && Token(key) && Token(value)
                       && ls[0] == lead + (key + (gap + (value + ";")));
      var rest := "\n" + Terminated(ls[1..]);
      TerminatedCons(ls[0], ls[1..]);
      assert [ls[0]] + ls[1..] == ls;
      FrontParameter(lead, key, gap, value, rest);
      assert All(ReSpace, "\n" + lead);
      ParameterIsRead("\n" + lead, key, gap, value, rest);
      PrintedParameters(ls[1..], ps[1..]);
      assert [ps[0]] + ps[1..] == ps;
    }
  }

  ghost predicate IsParameterLine(l: string, key: string, value: string) {
    exists lead, gap :: All(ReSpace, lead) && All(ReSpace, gap) && gap != "" && Token(key) && Token(value)
                        && l == lead + (key + (gap + (value + ";")))
  }

  lemma TerminatedCons(l: string, ls: seq<string>)
    ensures Terminated([l] + ls) == l + ("\n" + Terminated(ls))
  {
    TerminatedConcat([l], ls);
    assert Terminated([l]) == l + "\n" by { assert Terminated([]) == ""; }
    Assoc(l, "\n", Terminated(ls));
  }

  lemma FrontParameter(lead: string, key: string, gap: string, value: string, rest: string)
    ensures "\n" + ((lead + (key + (gap + (value + ";")))) + rest)
            == ("\n" + lead) + (key + (gap + (value + (";" + rest))))
  {
    Assoc(value, ";", rest);
    Assoc(gap, value + ";", rest);
    Assoc(key, gap + (value + ";"), rest);
    Assoc(lead, key + (gap + (value + ";")), rest);
    Assoc("\n", lead, key + (gap + (value + (";" + rest))));
  }

  lemma EntryIsParameter(ip: string, value: string)
    requires EntryIP(ip) && Token(value)
    ensures IsParameterLine(EntryLine(ip, value), ip, value)
  {
    var lead, gap := "    ", Gap(ip);
    assert All(ReSpace, lead) && All(ReSpace, gap);
    assert Token(ip) by { assert forall i :: 0 <= i < |ip| ==> Is(IPChar, ip[i]); }
    assert EntryLine(ip, value) == lead + (ip + (gap + (value + ";")));
  }

  lemma {:induction false} RateLinesAreParameters(os: seq<Override>)
    requires forall o :: o in os ==> GoodRule(o)
    ensures |RateLines(os)| == |RateEntries(os)|
    ensures forall i :: 0 <= i < |RateLines(os)| ==> IsParameterLine(RateLines(os)[i], RateEntries(os)[i].0, RateEntries(os)[i].1)
  {
    if os != [] {
      var front, last := os[..|os| - 1], os[|os| - 1];
      assert last in os && forall o :: o in front ==> o in os;
      RateLinesAreParameters(front);
      if last.HasRate() { EntryIsParameter(last.ip, last.rate); }
    }
  }

  lemma PrintedIsParameter(key: string, gap: string, value: string)
    requires Token(key) && Token(value) && gap != "" && All(ReSpace, gap)
    ensures IsParameterLine(INDENT + (key + (gap + (value + ";"))), key, value)
  {
    assert All(ReSpace, INDENT);
  }

  lemma KeysAreTokens()
    ensures Token(DEFAULT_KEY) && Token(EMPTY_KEY) && All(ReSpace, SHORT_GAP) && All(ReSpace, LONG_GAP)
  {
  }

  lemma GeoParameters(os: seq<Override>)
    requires forall o :: o in os ==> GoodRule(o)
    ensures Parameters(GeoBody(os)) == [(DEFAULT_KEY, EMPTY_KEY)] + RateEntries(os)
  {
    RateLinesAreParameters(os);
    KeysAreTokens();
    PrintedIsParameter(DEFAULT_KEY, SHORT_GAP, EMPTY_KEY);
    FirstParameterLine(GEO_DEFAULT, DEFAULT_KEY, EMPTY_KEY, RateLines(os), RateEntries(os));
  }

  lemma FirstParameterLine(l: string, key: string, value: string, ls: seq<string>, ps: seq<(string, string)>)
    requires IsParameterLine(l, key, value) && |ls| == |ps|
    requires forall i :: 0 <= i < |ls| ==> IsParameterLine(ls[i], ps[i].0, ps[i].1)
    ensures Parameters("\n" + Terminated([l] + ls)) == [(key, value)] + ps
  {
    PrintedParameters([l] + ls, [(key, value)] + ps);
  }

  lemma MapParameters(global: string)
    requires Token(global)
    ensures Parameters(MapBody(global)) == [(EMPTY_KEY, global), (DEFAULT_KEY, OVERRIDE_VAR)]
  {
    KeysAreTokens();
    OverrideVarIsToken();
    PrintedIsParameter(EMPTY_KEY, LONG_GAP, global);
    PrintedIsParameter(DEFAULT_KEY, SHORT_GAP, OVERRIDE_VAR);
    PrintedParameters([FallbackLine(global), MAP_DEFAULT], [(EMPTY_KEY, global), (DEFAULT_KEY, OVERRIDE_VAR)]);
  }

  lemma OverrideVarIsToken()
    ensures Token(OVERRIDE_VAR) && OVERRIDE_VAR[0] == '$' && Unquote(OVERRIDE_VAR) == OVERRIDE_VAR
  {
  }

  // ---- The meaning ----

  /** A rate nginx takes literally: not quoted and not the name of the override variable. */
  predicate PlainRate(s: string) {
    Unquote(s) == s && s != OVERRIDE_VAR
  }

  predicate PlainRates(os: seq<Override>) {
    forall o :: o in os ==> PlainRate(o.rate)
  }

  lemma LookupSnoc(ps: seq<(string, string)>, k: string, v: string, key: string)
    requires k != DEFAULT_KEY && Unquote(k) == k && Unquote(v) == v
    ensures Lookup(ps + [(k, v)], key) == if k == key then Some(v) else Lookup(ps, key)
    ensures Default(ps + [(k, v)]) == Default(ps)
  {
    assert (ps + [(k, v)])[..|ps|] == ps;
  }

  lemma LookupNothing(ip: string)
    ensures Lookup([(DEFAULT_KEY, EMPTY_KEY)], ip) == None && Default([(DEFAULT_KEY, EMPTY_KEY)]) == ""
  {
    assert [(DEFAULT_KEY, EMPTY_KEY)][..0] == [];
  }

  /** What the lookup finds for an address: its rate, if it has one. */
  function Found(rate: string): Option<string> {
    if rate != "" then Some(rate) else None
  }

  /** The rate of the last rule for an address, or "". */
  function LastRate(os: seq<Override>, ip: string): string {
    if os == [] then ""
    else if os[|os| - 1].ip == ip then os[|os| - 1].rate
    else LastRate(os[..|os| - 1], ip)
  }

  lemma {:induction false} LastRateOfUnique(os: seq<Override>, ip: string)
    requires Unique(os)
    ensures LastRate(os, ip) == RateOf(os, ip)
  {
    if os != [] {
      var front, last := os[..|os| - 1], os[|os| - 1];
      LastRateOfUnique(front, ip);
      assert os == front + [last];
      RateOfSnoc(front, last, ip);
    }
  }

  lemma {:induction false} NoRuleNoRate(os: seq<Override>, ip: string)
    requires forall o :: o in os ==> o.ip != ip
    ensures LastRate(os, ip) == ""
  {
    if os != [] {
      var front, last := os[..|os| - 1], os[|os| - 1];
      assert last in os && forall o :: o in front ==> o in os;
      NoRuleNoRate(front, ip);
    }
  }

  lemma LastIsOnly(os: seq<Override>)
    requires Unique(os) && os != []
    ensures forall o :: o in os[..|os| - 1] ==> o.ip != os[|os| - 1].ip
  {
    forall o | o in os[..|os| - 1] ensures o.ip != os[|os| - 1].ip {
      var k :| 0 <= k < |os| - 1 && os[k] == o;
    }
  }

  lemma {:induction false} LookupRate(d: seq<(string, string)>, os: seq<Override>, ip: string)
    requires Unique(os) && PlainRates(os) && forall o :: o in os ==> EntryIP(o.ip)
    requires Lookup(d, ip) == None
    ensures Lookup(d + RateEntries(os), ip) == Found(LastRate(os, ip))
    ensures Default(d + RateEntries(os)) == Default(d)
  {
    if os == [] {
      assert d + RateEntries(os) == d;
    } else {
      var front, last := os[..|os| - 1], os[|os| - 1];
      assert last in os && forall o :: o in front ==> o in os;
      LookupRate(d, front, ip);
      if last.HasRate() {
        AddressIsPlain(last.ip);
        LookupSnoc(d + RateEntries(front), last.ip, last.rate, ip);
        assert d + RateEntries(os) == (d + RateEntries(front)) + [(last.ip, last.rate)];
      }
      if last.ip == ip {
        LastIsOnly(os);
        NoRuleNoRate(front, ip);
      }
    }
  }

  lemma AddressIsPlain(ip: string)
    requires EntryIP(ip)
    ensures ip != DEFAULT_KEY && Unquote(ip) == ip
  {
    assert DEFAULT_KEY[4] == 'u';
    assert Is(IPChar, ip[0]);
    assert |ip| > 4 ==> Is(IPChar, ip[4]);
  }

  lemma RateOfSnoc(front: seq<Override>, last: Override, ip: string)
    requires Unique(front + [last])
    ensures RateOf(front + [last], ip) == if last.ip == ip then last.rate else RateOf(front, ip)
  {
    var os := front + [last];
    assert os[|front|] == last;
    assert forall i :: 0 <= i < |front| ==> os[i] == front[i];
    var n, m := Find(os, ip), Find(front, ip);
    if last.ip == ip {
      assert n == |front|;
    } else {
      assert n < |front| ==> n == m;
      assert m < |front| ==> n == m;
    }
  }

  /** Evaluating the printed blocks gives each client its own rate if it has one and the global rate otherwise. */
  lemma PrintedMeaning(os: seq<Override>, global: string, ip: string)
    requires GoodRules(os) && PlainRates(os) && GlobalToken(global) && PlainRate(global)
    ensures EffectiveRate(GeoBody(os), MapBody(global), ip) == if RateOf(os, ip) != "" then RateOf(os, ip) else global
  {
    SortedIsUnique(os);
    GeoParameters(os);
    MapParameters(global);
    LookupNothing(ip);
    LookupRate([(DEFAULT_KEY, EMPTY_KEY)], os, ip);
    LastRateOfUnique(os, ip);
    OverrideVarIsToken();
    PlainRateOf(os, ip);
    MapValue(global, RateOf(os, ip));
  }

  lemma PlainRateOf(os: seq<Override>, ip: string)
    requires PlainRates(os)
    ensures RateOf(os, ip) == "" || PlainRate(RateOf(os, ip))
  {
    var n := Find(os, ip);
    assert n < |os| ==> os[n] in os;
  }

  lemma MapValue(global: string, key: string)
    requires PlainRate(global) && Token(global)
    ensures var ps := [(EMPTY_KEY, global), (DEFAULT_KEY, OVERRIDE_VAR)];
            && Lookup(ps, key) == (if key == "" then Some(global) else None)
            && Default(ps) == OVERRIDE_VAR
  {
    var ps := [(EMPTY_KEY, global), (DEFAULT_KEY, OVERRIDE_VAR)];
    OverrideVarIsToken();
    assert EMPTY_KEY[0] == '"' && DEFAULT_KEY[0] == 'd';
    assert Unquote(EMPTY_KEY) == "";
    assert ps[..1] == [(EMPTY_KEY, global)];
    assert ps[..1][..0] == [];
    assert Lookup(ps, key) == Lookup(ps[..1], key);
    assert Lookup(ps[..1], key) == if key == "" then Some(global) else Lookup([], key);
  }
}

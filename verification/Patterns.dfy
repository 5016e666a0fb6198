/** The regular expressions of the config editor. */
module Patterns {
  import opened Wrappers
  import opened Text
  import opened Regex

  /** An address that the entry pattern can read back. */
  predicate EntryIP(s: string) {
    s != "" && All(IPChar, s)
  }

  predicate Token(s: string) {
    s != "" && All(TokenChar, s)
  }

  // ---- One entry of a geo block: ^\s*([0-9A-Fa-f:./]+)\s+([^;\s]+)\s*; ----

  const ENTRY: Pattern :=
    [Star(ReSpace), Plus(IPChar), Plus(ReSpace), Plus(TokenChar), Star(ReSpace), Lit(";")]

  function MatchEntry(s: string): Option<(string, string)> {
    match Match(ENTRY, s)
    case None => None
    case Some(m) => Some((m.0[1], m.0[3]))
  }

  lemma EntryIsDeterministic()
    ensures Deterministic(ENTRY)
  {
    assert Deterministic([Lit(";")]);
    assert Deterministic([Star(ReSpace), Lit(";")]);
    assert Stops([Star(ReSpace), Lit(";")], TokenChar);
    assert Deterministic([Plus(TokenChar), Star(ReSpace), Lit(";")]);
    assert Deterministic([Plus(ReSpace), Plus(TokenChar), Star(ReSpace), Lit(";")]);
    assert Deterministic([Plus(IPChar), Plus(ReSpace), Plus(TokenChar), Star(ReSpace), Lit(";")]);
  }

  /** Only addresses of the pattern's own characters are ever read, and the value comes from the text. */
  lemma EntryFound(s: string)
    requires MatchEntry(s).Some?
    ensures var (ip, value) := MatchEntry(s).value;
            EntryIP(ip) && Token(value) && forall c :: c in value ==> c in s
  {
    MatchSound(ENTRY, s);
    var (parts, rest) := Match(ENTRY, s).value;
    assert ENTRY[1].Fits(parts[1]) && ENTRY[3].Fits(parts[3]);
    forall c | c in parts[3] ensures c in s {
      CharInConcat(parts, 3, c);
      assert c in Concat(parts) + rest;
    }
  }

  lemma {:induction false} CharInConcat(parts: seq<string>, i: nat, c: char)
    requires i < |parts| && c in parts[i]
    ensures c in Concat(parts)
  {
    if i > 0 { CharInConcat(parts[1..], i - 1, c); }
  }

  lemma EntryIsRead(ip: string, gap: string, value: string)
    requires EntryIP(ip) && Token(value)
    requires gap != "" && All(ReSpace, gap)
    ensures MatchEntry(ip + (gap + (value + ";"))) == Some((ip, value))
  {
    var parts := ["", ip, gap, value, "", ";"];
    EntryIsDeterministic();
    MatchComplete(ENTRY, parts, "");
    ConcatSix("", ip, gap, value, "", ";");
    assert Concat(parts) + "" == ip + (gap + (value + ";")) by {
      assert "" + ";" == ";";
      assert forall x: string :: "" + x == x && x + "" == x;
    }
  }

  lemma ConcatSix(a: string, b: string, c: string, d: string, e: string, f: string)
    ensures Concat([a, b, c, d, e, f]) == a + (b + (c + (d + (e + f))))
  {
    assert Concat([f]) == f;
    assert Concat([e, f]) == e + f;
    assert Concat([d, e, f]) == d + (e + f);
    assert Concat([c, d, e, f]) == c + (d + (e + f));
    assert Concat([b, c, d, e, f]) == b + (c + (d + (e + f)));
  }

  // ---- The directive: ^([ \t]*)limit_rate[ \t]+([^;\s]+)[ \t]*; ----

  const LIMIT_RATE := "limit_rate"

  const LIMIT_RATE_LINE: Pattern :=
    [Star(Blank), Lit(LIMIT_RATE), Plus(Blank), Plus(TokenChar), Star(Blank), Lit(";")]

  /** The directive a line starts with, and the rest of the line. */
  function MatchLimitRate(s: string): Option<(seq<string>, string)> {
    Match(LIMIT_RATE_LINE, s)
  }

  lemma LimitRateIsDeterministic()
    ensures Deterministic(LIMIT_RATE_LINE)
  {
    assert Deterministic([Lit(";")]);
    assert Deterministic([Star(Blank), Lit(";")]);
    assert Stops([Star(Blank), Lit(";")], TokenChar);
    assert Deterministic([Plus(TokenChar), Star(Blank), Lit(";")]);
    assert Deterministic([Plus(Blank), Plus(TokenChar), Star(Blank), Lit(";")]);
    assert Deterministic([Lit(LIMIT_RATE), Plus(Blank), Plus(TokenChar), Star(Blank), Lit(";")]);
  }

  // ---- The connection limit: ^[ \t]*limit_conn[ \t]+perip[ \t]+([0-9]+)[ \t]*; ----

  const LIMIT_CONN_PERIP: Pattern :=
    [Star(Blank), Lit("limit_conn"), Plus(Blank), Lit("perip"), Plus(Blank), Plus(Digit), Star(Blank), Lit(";")]

  /** The digits of the limit. */
  function MatchLimitConn(s: string): Option<string> {
    match Match(LIMIT_CONN_PERIP, s)
    case None => None
    case Some(m) => Some(m.0[5])
  }

  // ---- The opening of the user's block: geo\s+\$rate_limit\s*\{ ----

  const GEO_OPENING: Pattern :=
    [Lit("geo"), Plus(ReSpace), Lit("$rate_limit"), Star(ReSpace), Lit("{")]

  ghost predicate IsHeader(h: string) {
    exists parts :: Reads(GEO_OPENING, parts) && h == Concat(parts)
  }

  lemma GeoOpeningIsDeterministic()
    ensures Deterministic(GEO_OPENING)
  {
    assert Deterministic([Lit("{")]);
    assert Deterministic([Star(ReSpace), Lit("{")]);
    assert Deterministic([Lit("$rate_limit"), Star(ReSpace), Lit("{")]);
    assert Deterministic([Plus(ReSpace), Lit("$rate_limit"), Star(ReSpace), Lit("{")]);
  }

  lemma HeaderParts(h: string) returns (gap: string, tail: string)
    requires IsHeader(h)
    ensures gap != "" && All(ReSpace, gap) && All(ReSpace, tail)
    ensures h == "geo" + (gap + ("$rate_limit" + (tail + "{")))
  {
    var parts :| Reads(GEO_OPENING, parts) && h == Concat(parts);
    assert forall i :: 0 <= i < 5 ==> GEO_OPENING[i].Fits(parts[i]);
    gap, tail := parts[1], parts[3];
    assert parts == ["geo", gap, "$rate_limit", tail, "{"];
    assert Concat(["{"]) == "{";
    assert Concat([tail, "{"]) == tail + "{";
    assert Concat(["$rate_limit", tail, "{"]) == "$rate_limit" + (tail + "{");
    assert Concat([gap, "$rate_limit", tail, "{"]) == gap + ("$rate_limit" + (tail + "{"));
  }

  /** The shape facts about an opening that rule out partial overlaps. */
  lemma HeaderFacts(h: string)
    requires IsHeader(h)
    ensures |h| >= 16 && h[0] == 'g' && Is(ReSpace, h[3]) && h[|h| - 1] == '{'
    ensures forall i :: 0 < i < |h| ==> h[i] != 'g'
    ensures ';' !in h && '}' !in h
    ensures forall i :: 0 < i < |h| && Is(ReSpace, h[i]) ==> h[i - 1] == 'o' || h[i - 1] == 't' || Is(ReSpace, h[i - 1])
  {
    hide IsHeader;
    var gap, tail := HeaderParts(h);
    var v := "$rate_limit";
    var a := 3 + |gap|;
    assert |h| == a + 11 + |tail| + 1;
    assert forall i :: 3 <= i < a ==> h[i] == gap[i - 3];
    assert forall i :: a <= i < a + 11 ==> h[i] == v[i - a];
    assert forall i :: a + 11 <= i < |h| - 1 ==> h[i] == tail[i - a - 11];
    assert h[0] == 'g' && h[1] == 'e' && h[2] == 'o';
    assert Is(ReSpace, h[3]);
    assert h[a] == '$' && h[a + 10] == 't';
  }

  /** No complete opening lies inside a. */
  ghost predicate HeaderFree(a: string) {
    forall i, h :: At(a, i, h) ==> !IsHeader(h)
  }

  // ---- The whole block: (?s)geo\s+\$rate_limit\s*\{(.*?)\} ----

  /** The file around the block: before, opening, body, and what follows the brace. */
  datatype Geo = Geo(before: string, header: string, body: string, after: string)
  {
    function Whole(): string {
      before + Block() + after
    }

    function Block(): string {
      header + body + "}"
    }
  }

  /** The block at the start of s, if one starts there. */
  function GeoHere(s: string): Option<Geo> {
    var m := Match(GEO_OPENING, s);
    if m.Some? && '}' in m.value.1 then
      var (body, rest) := Run(BodyChar, m.value.1);
      Some(Geo("", Concat(m.value.0), body, rest[1..]))
    else None
  }

  /** Leftmost match of the block pattern. */
  function FindGeo(s: string): Option<Geo> {
    if GeoHere(s).Some? then GeoHere(s)
    else if s == "" then None
    else
      match FindGeo(s[1..])
      case None => None
      case Some(g) => Some(g.(before := [s[0]] + g.before))
  }

  /** What makes a decomposition the leftmost match. */
  ghost predicate IsGeo(g: Geo) {
    IsHeader(g.header) && '}' !in g.body && HeaderFree(g.before)
  }

  lemma HeaderIsMatched(h: string, rest: string)
    requires IsHeader(h)
    ensures Match(GEO_OPENING, h + rest).Some?
    ensures var m := Match(GEO_OPENING, h + rest).value; Concat(m.0) == h && m.1 == rest
  {
    var parts :| Reads(GEO_OPENING, parts) && h == Concat(parts);
    GeoOpeningIsDeterministic();
    MatchComplete(GEO_OPENING, parts, rest);
  }

  /** If s starts with an opening h + ..., and before + h' does too, the opening ends inside before. */
  lemma HeaderEndsBefore(before: string, h: string, rest: string)
    requires before != "" && IsHeader(h)
    requires Match(GEO_OPENING, before + (h + rest)).Some?
    ensures !HeaderFree(before)
  {
    var s := before + (h + rest);
    MatchSound(GEO_OPENING, s);
    var (parts, tail) := Match(GEO_OPENING, s).value;
    var h' := Concat(parts);
    assert IsHeader(h');
    HeaderFacts(h');
    HeaderFacts(h);
    assert s[|before|] == h[0] == 'g';
    assert forall i :: 0 <= i < |h'| ==> s[i] == h'[i];
    assert |h'| <= |before|;
    assert At(before, 0, h') by { assert before[0..|h'|] == s[0..|h'|] == h'; }
  }

  /** The leftmost match is determined by its decomposition. */
  lemma {:induction false} FindGeoIs(g: Geo)
    requires IsGeo(g)
    ensures FindGeo(g.Whole()) == Some(g)
    decreases |g.before|
  {
    var rest := g.body + ("}" + g.after);
    if g.before == "" {
      assert g.Whole() == g.header + rest;
      HeaderIsMatched(g.header, rest);
      RunIs(BodyChar, g.body, "}" + g.after);
      assert rest[|g.body|] == '}';
      assert ("}" + g.after)[1..] == g.after;
    } else {
      assert g.Whole() == g.before + (g.header + rest);
      if Match(GEO_OPENING, g.Whole()).Some? { HeaderEndsBefore(g.before, g.header, rest); }
      var c, g' := g.before[0], g.(before := g.before[1..]);
      assert [c] + g'.before + "" == g.before;
      HeaderFreeWithin([c], g'.before, "");
      FindGeoIs(g');
      assert [c] + g'.before == g.before;
      ConsWhole(c, g');
    }
  }

  lemma HeaderFreeWithin(x: string, a: string, y: string)
    requires HeaderFree(x + a + y)
    ensures HeaderFree(a)
  {
    forall i, h | At(a, i, h) ensures !IsHeader(h) {
      AtWithin(x, a, y, i, h);
    }
  }

  lemma GeoHereFound(s: string)
    requires GeoHere(s).Some?
    ensures var g := GeoHere(s).value; IsGeo(g) && s == g.Whole()
  {
    var (parts, t) := Match(GEO_OPENING, s).value;
    MatchSound(GEO_OPENING, s);
    assert IsHeader(Concat(parts));
    HeaderFreeEmpty();
    var (body, rest) := Run(BodyChar, t);
    BraceEndsBody(body, rest);
    WholeFromHeader(Concat(parts), body, rest[1..]);
  }

  lemma BraceEndsBody(body: string, rest: string)
    requires All(BodyChar, body) && (rest == "" || !Is(BodyChar, rest[0])) && '}' in body + rest
    ensures '}' !in body && rest != "" && rest == "}" + rest[1..]
  {
    assert rest == "" ==> body + rest == body;
  }

  lemma WholeFromHeader(h: string, body: string, after: string)
    ensures h + (body + ("}" + after)) == Geo("", h, body, after).Whole()
  {
    Assoc(body, "}", after);
    Assoc(h, body, "}");
    Assoc(h, body + "}", after);
    assert "" + (h + body + "}") == h + body + "}";
  }

  lemma NoGeoHere(h: string, t: string)
    requires GeoHere(h + t).None? && '}' in t
    ensures !IsHeader(h)
  {
    if IsHeader(h) { HeaderIsMatched(h, t); }
  }

  /** The other direction: what is found is the leftmost match. */
  lemma {:induction false} FindGeoFound(s: string)
    requires FindGeo(s).Some?
    ensures var g := FindGeo(s).value; IsGeo(g) && s == g.Whole()
  {
    if GeoHere(s).Some? {
      GeoHereFound(s);
    } else {
      FindGeoFound(s[1..]);
      var g := FindGeo(s[1..]).value;
      assert s == [s[0]] + s[1..];
      ConsWhole(s[0], g);
      HeaderFreeCons(s[0], g);
    }
  }

  lemma ConsWhole(c: char, g: Geo)
    ensures g.(before := [c] + g.before).Whole() == [c] + g.Whole()
  {
  }

  lemma HeaderFreeCons(c: char, g: Geo)
    requires HeaderFree(g.before)
    requires GeoHere([c] + g.Whole()).None?
    ensures HeaderFree([c] + g.before)
  {
    var b := [c] + g.before;
    assert [c] + g.Whole() == b + (g.Block() + g.after);
    forall i, h | At(b, i, h) ensures !IsHeader(h) {
      if i > 0 {
        assert g.before[i - 1..i - 1 + |h|] == b[i..i + |h|];
        assert At(g.before, i - 1, h);
      } else {
        HeaderAtStart(b, h, g.header + g.body, g.after);
      }
    }
  }

  lemma HeaderAtStart(b: string, h: string, x: string, y: string)
    requires At(b, 0, h)
    requires GeoHere(b + (x + "}" + y)).None?
    ensures !IsHeader(h)
  {
    var t := b[|h|..] + (x + "}" + y);
    assert b == h + b[|h|..];
    assert b + (x + "}" + y) == h + t;
    assert t[|b| - |h| + |x|] == '}';
    NoGeoHere(h, t);
  }

  lemma HeaderFreeEmpty()
    ensures HeaderFree("")
  {
    forall i, h | At("", i, h) ensures !IsHeader(h) {
      if IsHeader(h) { HeaderFacts(h); }
    }
  }
}

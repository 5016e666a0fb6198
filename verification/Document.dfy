/**
 * A rate-limit.conf as a value: reading it, editing it and printing it back.
 * The class in RateLimitDoc.dfy does the same step by step and is proved against these functions.
 */
module Document {
  import opened Wrappers
  import opened Text
  import opened Regex
  import opened Patterns
  import opened Overrides
  import opened Lists
  import Decimal

  const MARKER_STEM := " === LCM-MANAGED"
  const BEGIN_WORDS := ": per-IP overrides"
  const BEGIN_DASH := " \U{2014} edit in"
  const BEGIN_REST := " the UI, not by hand"
  const BEGIN_MARKER := "#" + (MARKER_STEM + (BEGIN_WORDS + (BEGIN_DASH + (BEGIN_REST + " ==="))))
  const END_MARKER := "#" + (MARKER_STEM + " END ===")
  const OVERRIDE_VAR := "$lcm_rate_override"
  const EFFECTIVE_RATE_VAR := "$lcm_effective_rate"
  const DEFAULT_CONN_LIMIT := 10
  const MAX_INT64 := 0x7FFF_FFFF_FFFF_FFFF

  datatype Error =
    | MissingGeoBlock   // the managed region has no geo block
    | MissingBrace      // its geo block is not closed
    | MalformedBlock    // the user's geo block has no braces
    | NoGlobal          // a managed document without a global rate cannot be printed
    | SliceOutOfRange   // the printer cuts past the end of the rewritten text (a run-time panic)
    | InvalidIP
    | InvalidRate
    | NoLimitRate

  datatype Doc = Doc(
    global: string,
    hasManaged: bool,
    overrides: seq<Override>,
    connLimit: int,
    connLimitParsed: bool,
    preManaged: string,
    postManaged: string)
  {
    function Merged(): string {
      preManaged + postManaged
    }
  }

  // ---- Reading the lines of a block ----

  /** Blank lines, comments and the default line: kept by the rewrite, skipped by the reader. */
  predicate IsKept(line: string) {
    var t := TrimSpace(line);
    t == "" || "#" <= t || "default" <= t
  }

  function EntryOf(line: string): Option<(string, string)> {
    if IsKept(line) then None else MatchEntry(TrimSpace(line))
  }

  /** The entries among the lines, in order. */
  function Entries(ls: seq<string>): seq<(string, string)> {
    Collect(EntryOf, ls)
  }

  /** The rules the entries of a managed block stand for. */
  function RatesFrom(es: seq<(string, string)>): seq<Override> {
    if es == [] then []
    else UpsertRate(RatesFrom(es[..|es| - 1]), es[|es| - 1].0, es[|es| - 1].1)
  }

  /** The exempt entries of the user's block, added to the rules read so far. */
  function ExemptsFrom(es: seq<(string, string)>, os: seq<Override>): seq<Override> {
    if es == [] then os
    else
      var r := ExemptsFrom(es[..|es| - 1], os);
      if es[|es| - 1].1 == "0" then UpsertExempt(r, es[|es| - 1].0, true) else r
  }

  // ---- The managed region ----

  const MANAGED_GEO := "geo " + OVERRIDE_VAR
  const MANAGED_MAP := "map " + OVERRIDE_VAR
  const EMPTY_KEY := "\"\""

  /** The body between the first opening brace after head and the first closing brace after that. */
  function BracedAfter(s: string, head: string): Result<string, Error> {
    var start := Index(s, head);
    if start < 0 then Err(MissingGeoBlock) else
    var t := s[start..];
    var open := Index(t, "{");
    if open < 0 then Err(MissingBrace) else
    var close := Index(t[open..], "}");
    assert t[open..][0] == t[open..open + 1][0] == '{';
    if close < 0 then Err(MissingBrace) else
    assert t[open..][close] == t[open..][close..close + 1][0] == '}';
    Ok(t[open + 1..open + close])
  }

  function DropSemicolon(s: string): string {
    if s != "" && s[|s| - 1] == ';' then s[..|s| - 1] else s
  }

  /** The value of the first line keyed by the empty string, or "". */
  function Fallback(ls: seq<string>): string {
    if ls == [] then ""
    else if EMPTY_KEY <= TrimSpace(ls[0]) then
      TrimSpace(DropSemicolon(TrimSpace(TrimSpace(ls[0])[2..])))
    else Fallback(ls[1..])
  }

  /** The body between the first braces after head, if they are in that order. */
  function FirstBraces(s: string, head: string): Option<string> {
    var start := Index(s, head);
    if start < 0 then None else
    var t := s[start..];
    var open, close := Index(t, "{"), Index(t, "}");
    if open > 0 && close > open then Some(t[open + 1..close]) else None
  }

  /** The global rate of the managed map block, or "". */
  function MapFallback(managed: string): string {
    var body := FirstBraces(managed, MANAGED_MAP);
    if body.None? then "" else Fallback(Lines(body.value))
  }

  // ---- The user's directives ----

  /**
   * The value of the first limit_rate directive that is not the monitor's own variable, or "".
   * A match of the anchored pattern starts a line and never spans a newline, so the matches
   * are found line by line.
   */
  function FirstRate(ls: seq<string>): string {
    if ls == [] then ""
    else
      match MatchLimitRate(ls[0])
      case None => FirstRate(ls[1..])
      case Some(m) => if m.0[3] == EFFECTIVE_RATE_VAR then FirstRate(ls[1..]) else m.0[3]
  }

  /** The digits of the first limit_conn directive. */
  function FirstConn(ls: seq<string>): Option<string> {
    if ls == [] then None
    else if MatchLimitConn(ls[0]).Some? then MatchLimitConn(ls[0])
    else FirstConn(ls[1..])
  }

  /** The limit it states, if it is a positive int64. */
  function ConnLimitOf(s: string): Option<int> {
    match FirstConn(Lines(s))
    case None => None
    case Some(digits) =>
      if All(Digit, digits) && 0 < Decimal.Value(digits) <= MAX_INT64 then Some(Decimal.Value(digits)) else None
  }

  /** The first directive in the text: what precedes its line, its parts, and what follows. */
  datatype Place = Place(before: string, parts: seq<string>, after: string)
  {
    function Whole(): string {
      before + (Concat(parts) + after)
    }
  }

  function FindLimitRate(s: string): (r: Option<Place>)
    ensures r.Some? ==> |r.value.parts| == 6
  {
    if MatchLimitRate(s).Some? then
      var m := MatchLimitRate(s).value;
      Some(Place("", m.0, m.1))
    else
      var n := Index(s, "\n");
      if n < 0 then None
      else
        match FindLimitRate(s[n + 1..])
        case None => None
        case Some(p) => Some(p.(before := s[..n + 1] + p.before))
  }

  // ---- Markers ----

  /** A marker is a hash followed by characters that are neither hashes nor newlines. */
  predicate IsMarker(m: string) {
    m != "" && m[0] == '#' && '#' !in m[1..] && '\n' !in m
  }

  lemma MarkerWords(c: char)
    requires c == '#' || c == '\n' || c == '$'
    ensures c !in MARKER_STEM && c !in BEGIN_WORDS && c !in BEGIN_DASH && c !in BEGIN_REST
    ensures c !in " ===" && c !in " END ==="
  {
    BeginWords(c);
  }

  lemma BeginWords(c: char)
    requires c == '#' || c == '\n' || c == '$'
    ensures c !in BEGIN_WORDS && c !in BEGIN_REST
  {
  }

  lemma AbsentFromConcat(c: char, a: string, b: string)
    requires c !in a && c !in b
    ensures c !in a + b
  {
  }

  lemma MarkerTails(c: char)
    requires c == '#' || c == '\n' || c == '$'
    ensures c !in MARKER_STEM + (BEGIN_WORDS + (BEGIN_DASH + (BEGIN_REST + " ===")))
    ensures c !in MARKER_STEM + " END ==="
  {
    MarkerWords(c);
    AbsentFromConcat(c, BEGIN_REST, " ===");
    AbsentFromConcat(c, BEGIN_DASH, BEGIN_REST + " ===");
    AbsentFromConcat(c, BEGIN_WORDS, BEGIN_DASH + (BEGIN_REST + " ==="));
    AbsentFromConcat(c, MARKER_STEM, BEGIN_WORDS + (BEGIN_DASH + (BEGIN_REST + " ===")));
    AbsentFromConcat(c, MARKER_STEM, " END ===");
  }

  lemma HashThen(tail: string)
    requires '#' !in tail && '\n' !in tail
    ensures IsMarker("#" + tail)
  {
    assert ("#" + tail)[1..] == tail;
  }

  lemma MarkersAreMarkers()
    ensures IsMarker(BEGIN_MARKER) && IsMarker(END_MARKER)
  {
    MarkerTails('#');
    MarkerTails('\n');
    HashThen(MARKER_STEM + (BEGIN_WORDS + (BEGIN_DASH + (BEGIN_REST + " ==="))));
    HashThen(MARKER_STEM + " END ===");
  }

  lemma CharAfter(a: string, b: string, c: string)
    requires b != ""
    ensures |a + (b + c)| > |a| && (a + (b + c))[|a|] == b[0]
  {
  }

  lemma MarkersDiffer()
    ensures !(END_MARKER <= BEGIN_MARKER) && !(BEGIN_MARKER <= END_MARKER)
  {
    var k := |"#" + MARKER_STEM|;
    CharAfter("#" + MARKER_STEM, BEGIN_WORDS, BEGIN_DASH + (BEGIN_REST + " ==="));
    Assoc("#", MARKER_STEM, BEGIN_WORDS + (BEGIN_DASH + (BEGIN_REST + " ===")));
    CharAfter("#" + MARKER_STEM, " END ===", "");
    Assoc("#", MARKER_STEM, " END ===");
    assert " END ===" + "" == " END ===";
    assert BEGIN_MARKER[k] == ':' && END_MARKER[k] == ' ';
  }

  /** Two markers in a text are the same occurrence or apart. */
  lemma MarkersApart(s: string, i: int, m: string, j: int, m': string)
    requires IsMarker(m) && IsMarker(m') && At(s, i, m) && At(s, j, m') && i < j
    ensures i + |m| <= j
  {
    assert s[j..j + |m'|][0] == s[j];
    assert forall k :: i < k < i + |m| ==> s[k] == s[i..i + |m|][k - i] == m[1..][k - i - 1];
  }

  // ---- ParseDoc ----

  /** A file cut at its markers: the managed text is absent when there is no managed region. */
  datatype Split = Split(pre: string, managed: Option<string>, post: string)

  /** The file is managed if the first end marker comes after the first begin marker. */
  function SplitAt(content: string, begin: string, end: string): Split
    requires IsMarker(begin) && IsMarker(end)
  {
    var b, e := Index(content, begin), Index(content, end);
    if b >= 0 && e > b then
      MarkersApart(content, b, begin, e, end);
      var rest := content[e + |end|..];
      Split(content[..b], Some(content[b + |begin|..e]), if "\n" <= rest then rest[1..] else rest)
    else
      Split("", None, content)
  }

  function SplitAtMarkers(content: string): Split {
    MarkersAreMarkers();
    SplitAt(content, BEGIN_MARKER, END_MARKER)
  }

  /** The rules and the global rate of the managed text. */
  function ParseManaged(managed: string): Result<(seq<Override>, string), Error> {
    match BracedAfter(managed, MANAGED_GEO)
    case Err(e) => Err(e)
    case Ok(body) => Ok((RatesFrom(Entries(Lines(body))), MapFallback(managed)))
  }

  /** What the user's text adds: exempt flags, the global rate if there is none yet, the connection limit. */
  function ParseUser(s: Split, rates: seq<Override>, global: string): Doc {
    var merged := s.pre + s.post;
    var os := match FindGeo(merged)
              case None => rates
              case Some(g) => ExemptsFrom(Entries(Lines(g.body)), rates);
    var conn := ConnLimitOf(merged);
    Doc(
      if global == "" then FirstRate(Lines(merged)) else global,
      s.managed.Some?,
      SortByIP(os),
      if conn.Some? then conn.value else DEFAULT_CONN_LIMIT,
      conn.Some?,
      s.pre,
      s.post)
  }

  function ParseDoc(content: string): Result<Doc, Error> {
    var s := SplitAtMarkers(content);
    match s.managed
    case None => Ok(ParseUser(s, [], ""))
    case Some(managed) =>
      match ParseManaged(managed)
      case Err(e) => Err(e)
      case Ok((rates, global)) => Ok(ParseUser(s, rates, global))
  }

  // ---- Emit ----

  function Spaces(n: nat): (s: string)
    ensures |s| == n && forall i :: 0 <= i < n ==> s[i] == ' '
  {
    if n == 0 then "" else " " + Spaces(n - 1)
  }

  /** What "%-16s " prints after a left-aligned text: at least one space. */
  function Gap(s: string): (g: string)
    ensures g != "" && forall i :: 0 <= i < |g| ==> g[i] == ' '
  {
    Spaces(if |s| < 16 then 17 - |s| else 1)
  }

  /** An entry of a block, as "%-16s %s;" after the indentation. */
  function EntryText(ip: string, value: string): string {
    ip + (Gap(ip) + (value + ";"))
  }

  function EntryLine(ip: string, value: string): string {
    "    " + EntryText(ip, value)
  }

  /** The lines printed for the rules with a rate. */
  function RateLines(os: seq<Override>): seq<string> {
    if os == [] then []
    else
      var front, last := os[..|os| - 1], os[|os| - 1];
      if last.HasRate() then RateLines(front) + [EntryLine(last.ip, last.rate)] else RateLines(front)
  }

  /** The lines printed for the exempt addresses. */
  function ExemptLines(os: seq<Override>): seq<string> {
    if os == [] then []
    else
      var front, last := os[..|os| - 1], os[|os| - 1];
      if last.exempt then ExemptLines(front) + [EntryLine(last.ip, "0")] else ExemptLines(front)
  }

  predicate IsBlankLine(line: string) {
    TrimSpace(line) == ""
  }

  function KeptLines(ls: seq<string>): seq<string> {
    Filter(IsKept, ls)
  }

  /** The user's lines of a block body that survive a rewrite. */
  function UserLines(body: string): seq<string> {
    Trim(IsBlankLine, KeptLines(Lines(body)))
  }

  /** The body the rewrite gives a block. */
  function NewBody(body: string, os: seq<Override>): string {
    "\n" + Terminated(UserLines(body) + ExemptLines(os))
  }

  /** rewriteGeoRateLimit: the block between its first opening and its last closing brace. */
  function RewriteGeo(block: string, os: seq<Override>): Result<string, Error> {
    var open, close := Index(block, "{"), LastIndex(block, "}");
    if open < 0 || close < open then Err(MalformedBlock)
    else
      assert block[open] == block[open..open + 1][0] == '{';
      assert block[close] == block[close..close + 1][0] == '}';
      Ok(block[..open + 1] + NewBody(block[open + 1..close], os) + block[close..])
  }

  const GEO_HEAD := MANAGED_GEO + " "
  const MAP_HEAD := MANAGED_MAP + (" " + (EFFECTIVE_RATE_VAR + " "))
  const INDENT := "    "
  const DEFAULT_KEY := "default"
  const SHORT_GAP := "      "
  const LONG_GAP := "           "
  const GEO_DEFAULT := INDENT + (DEFAULT_KEY + (SHORT_GAP + (EMPTY_KEY + ";")))
  const MAP_DEFAULT := INDENT + (DEFAULT_KEY + (SHORT_GAP + (OVERRIDE_VAR + ";")))

  function FallbackLine(global: string): string {
    INDENT + (EMPTY_KEY + (LONG_GAP + (global + ";")))
  }

  function GeoBody(os: seq<Override>): string {
    "\n" + Terminated([GEO_DEFAULT] + RateLines(os))
  }

  function MapBody(global: string): string {
    "\n" + Terminated([FallbackLine(global), MAP_DEFAULT])
  }

  function BlockText(head: string, body: string): string {
    head + ("{" + (body + "}\n"))
  }

  /** The text between the markers. */
  function ManagedText(os: seq<Override>, global: string): string {
    "\n" + (BlockText(GEO_HEAD, GeoBody(os)) + BlockText(MAP_HEAD, MapBody(global)))
  }

  /** The managed region, markers included. */
  function ManagedRegion(os: seq<Override>, global: string): string {
    BEGIN_MARKER + (ManagedText(os, global) + (END_MARKER + "\n"))
  }

  /** A blank line separates the region from user text that does not start with white space. */
  function Separator(post: string): string {
    if !("\n" <= post) && !(" " <= post) && post != "" then "\n" else ""
  }

  /** The user's text with the block of the first match rewritten. */
  function RewriteMerged(merged: string, os: seq<Override>): Result<string, Error> {
    match FindGeo(merged)
    case None => Ok(merged)
    case Some(g) =>
      match RewriteGeo(g.Block(), os)
      case Err(e) => Err(e)
      case Ok(block) => Ok(g.before + block + g.after)
  }

  function Emit(d: Doc): Result<string, Error> {
    match RewriteMerged(d.Merged(), d.overrides)
    case Err(e) => Err(e)
    case Ok(merged) =>
      if !d.hasManaged then Ok(merged)
      else if |merged| < |d.preManaged| then Err(SliceOutOfRange)
      else if d.global == "" then Err(NoGlobal)
      else
        var pre, post := merged[..|d.preManaged|], merged[|d.preManaged|..];
        Ok(pre + ManagedRegion(d.overrides, d.global) + (Separator(post) + post))
  }

  // ---- Edits ----

  /** ^(?:0|[1-9][0-9]*[kKmM]?)$ */
  predicate ValidRate(s: string) {
    s == "0" ||
    (s != "" && '1' <= s[0] <= '9' &&
     var rest := Run(Digit, s).1;
     rest == "" || rest == "k" || rest == "K" || rest == "m" || rest == "M")
  }

  /** SetOverride; valid is the address validator. */
  function SetOverride(d: Doc, valid: string -> bool, ip: string, rate: string, exempt: bool): Result<Doc, Error> {
    if !valid(ip) then Err(InvalidIP)
    else if rate != "" && !ValidRate(rate) then Err(InvalidRate)
    else Ok(d.(overrides := SortByIP(Put(d.overrides, Override(ip, rate, exempt)))))
  }

  function ClearOverride(d: Doc, ip: string): Doc {
    d.(overrides := Without(d.overrides, ip))
  }

  /** The text with the first textual occurrence of the directive replaced. */
  function ReplaceDirective(user: string, p: Place, value: string): string
    requires |p.parts| == 6
  {
    ReplaceFirst(user, Concat(p.parts), p.parts[0] + (LIMIT_RATE + (" " + (value + ";"))))
  }

  /** SetGlobal: the document afterwards, and the error if there is one. */
  function SetGlobal(d: Doc, rate: string): (Doc, Option<Error>) {
    if !ValidRate(rate) || rate == "0" then (d, Some(InvalidRate))
    else if d.hasManaged then (d.(global := rate), None)
    else
      match FindLimitRate(d.postManaged)
      case None => (d.(global := rate), Some(NoLimitRate))
      case Some(p) => (d.(global := rate, postManaged := ReplaceDirective(d.postManaged, p, rate)), None)
  }

  function Migrate(d: Doc): Result<Doc, Error> {
    if d.hasManaged then Ok(d)
    else
      match FindLimitRate(d.postManaged)
      case None => Err(NoLimitRate)
      case Some(p) =>
        if p.parts[3] == EFFECTIVE_RATE_VAR then Err(NoLimitRate)
        else Ok(d.(global := p.parts[3], hasManaged := true,
                   postManaged := ReplaceDirective(d.postManaged, p, EFFECTIVE_RATE_VAR)))
  }
}

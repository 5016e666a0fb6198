/** What is read from a file, stated on its text alone. */
module FileReadings {
  import opened Wrappers
  import opened Lists
  import opened Text
  import opened Regex
  import opened Patterns
  import opened Overrides
  import opened Document
  import opened PrintedLines
  import opened Rewrite
  import opened Directives
  import opened ManagedRead
  import opened Parsed
  import opened LineShapes

  // ---- The lines of a rewritten block ----

  lemma ExemptLinesHaveInk(os: seq<Override>)
    requires forall o :: o in os ==> EntryIP(o.ip)
    ensures forall l :: l in ExemptLines(os) ==> HasInk(l)
  {
    hide EntryOf, EntryLine, WHITE;
    forall l | l in ExemptLines(os) ensures HasInk(l) {
      ExemptLineReads(os, l);
      InkIsVisible(l);
      if !IsVisible(l) { assert EntryOf(l) == None by { BlankHoldsNoEntry(l); } }
    }
  }

  lemma BlankHoldsNoEntry(l: string)
    requires !IsVisible(l)
    ensures EntryOf(l) == None
  {
  }

  /**
   * A rewrite leaves the user's comments and default lines in their order and as often as they were there,
   * puts the exempt entries behind them, and no other visible line anywhere.
   */
  lemma OwnLinesStay(body: string, os: seq<Override>)
    requires forall o :: o in os ==> EntryIP(o.ip)
    ensures Filter(HasInk, Lines(NewBody(body, os))) == Filter(IsOwnLine, Lines(body)) + ExemptLines(os)
  {
    hide Lines, NewBody, UserLines, ExemptLines, IsVisible, IsKept, HasInk, IsOwnLine, Filter;
    var u, e := UserLines(body), ExemptLines(os);
    NewBodyLines(body, os);
    FilterConcat(HasInk, [""] + (u + e), [""]);
    FilterConcat(HasInk, [""], u + e);
    FilterConcat(HasInk, u, e);
    NoInkInEmpty();
    ExemptLinesHaveInk(os);
    FilterAll(HasInk, e);
    OwnLinesAre(body);
  }

  /** What a rewrite keeps, apart from blank lines. */
  lemma OwnLinesAre(body: string)
    ensures Filter(HasInk, UserLines(body)) == Filter(IsOwnLine, Lines(body))
  {
    hide Lines, UserLines, IsVisible, IsKept, HasInk, IsOwnLine, Filter;
    UserLinesAre(body);
    forall l ensures HasInk(l) == IsVisible(l) && IsUserLine(l) == IsOwnLine(l) {
      InkIsVisible(l);
      KeptIff(l);
      if IsOwnLine(l) { OwnLineHasInk(l); }
    }
    FilterSame(HasInk, IsVisible, UserLines(body));
    FilterSame(IsUserLine, IsOwnLine, Lines(body));
  }

  lemma NoInkInEmpty()
    ensures Filter(HasInk, [""]) == []
  {
    FilterNothing(HasInk, [""]);
  }

  lemma OwnLineHasInk(l: string)
    requires IsOwnLine(l)
    ensures HasInk(l)
  {
    if StartsWith(l, "#") { StartHasInk(l, "#"); } else { StartHasInk(l, "default"); }
  }

  lemma StartHasInk(l: string, word: string)
    requires StartsWith(l, word) && word != "" && word[0] !in WHITE
    ensures HasInk(l)
  {
    hide WHITE;
    var lead, rest :| l == lead + (word + rest) && Only(lead, WHITE);
    assert l[|lead|] == word[0];
  }

  /** After a rewrite the line is still there, or another entry that gives the same address the same value. */
  ghost predicate Stays(l: string, body: string) {
    l in Lines(body) || exists ip, value, l' :: IsEntryLine(l, ip, value) && l' in Lines(body) && IsEntryLine(l', ip, value)
  }

  /** A visible line stays in a rewrite if and only if it is a comment, a default line, or the zero entry of an exempt address. */
  lemma LineStaysIff(body: string, os: seq<Override>, l: string)
    requires (forall o :: o in os ==> EntryIP(o.ip)) && l in Lines(body) && HasInk(l)
    ensures Stays(l, NewBody(body, os)) <==> IsOwnLine(l) || exists o :: o in os && o.exempt && IsEntryLine(l, o.ip, "0")
  {
    hide EntryOf, IsEntryLine, IsOwnLine, IsKept, Lines, NewBody, Entries, HasInk;
    InkIsVisible(l);
    KeptIff(l);
    LineSurvivesIff(body, os, l);
    forall l', ip, value ensures EntryOf(l') == Some((ip, value)) <==> IsEntryLine(l', ip, value) {
      EntryIff(l', ip, value);
    }
    StaysIsSurvives(l, NewBody(body, os));
  }

  lemma StaysIsSurvives(l: string, body: string)
    ensures Stays(l, body) <==> Survives(l, body)
  {
    hide EntryOf, IsEntryLine, Entries, Lines;
    forall l', ip, value ensures EntryOf(l') == Some((ip, value)) <==> IsEntryLine(l', ip, value) {
      EntryIff(l', ip, value);
    }
    if EntryOf(l).Some? { EntryIn(Lines(body), EntryOf(l).value.0, EntryOf(l).value.1); }
  }

  // ---- Exempt entries ----

  lemma EntryIn(ls: seq<string>, ip: string, value: string)
    ensures (ip, value) in Entries(ls) <==> exists l :: l in ls && IsEntryLine(l, ip, value)
  {
    hide EntryOf, IsEntryLine;
    CollectMembers(EntryOf, ls, (ip, value));
    forall l ensures EntryOf(l) == Some((ip, value)) <==> IsEntryLine(l, ip, value) {
      EntryIff(l, ip, value);
    }
  }

  /** Reading exempt entries touches no rate, and exempts exactly the addresses with a zero entry. */
  lemma {:induction false} ExemptsRead(es: seq<(string, string)>, os: seq<Override>, ip: string)
    requires Unique(os)
    ensures Unique(ExemptsFrom(es, os)) && RateOf(ExemptsFrom(es, os), ip) == RateOf(os, ip)
    ensures ExemptOf(ExemptsFrom(es, os), ip) <==> ExemptOf(os, ip) || (ip, "0") in es
  {
    hide ToMap, Put;
    if es != [] {
      var front, last := es[..|es| - 1], es[|es| - 1];
      assert es == front + [last];
      ExemptsRead(front, os, ip);
      var r := ExemptsFrom(front, os);
      PutIsMapUpdate(r, Override(last.0, RateOf(r, last.0), true));
    }
  }

  // ---- Rates ----

  /** The last entry of the address has this value. */
  ghost predicate LastEntry(ls: seq<string>, ip: string, value: string) {
    exists i :: 0 <= i < |ls| && IsEntryLine(ls[i], ip, value) && NoEntryFrom(ls, i + 1, ip)
  }

  ghost predicate NoEntryFrom(ls: seq<string>, n: nat, ip: string) {
    forall j, w :: n <= j < |ls| ==> !IsEntryLine(ls[j], ip, w)
  }

  lemma LastEntrySnoc(front: seq<string>, last: string, ip: string, value: string)
    ensures LastEntry(front + [last], ip, value) <==>
            IsEntryLine(last, ip, value) || (LastEntry(front, ip, value) && forall w :: !IsEntryLine(last, ip, w))
  {
    hide IsEntryLine;
    var ls := front + [last];
    assert ls[|front|] == last;
    if LastEntry(front, ip, value) && forall w :: !IsEntryLine(last, ip, w) {
      var i :| 0 <= i < |front| && IsEntryLine(front[i], ip, value) && NoEntryFrom(front, i + 1, ip);
      assert ls[i] == front[i];
      assert NoEntryFrom(ls, i + 1, ip);
    }
    if IsEntryLine(last, ip, value) { assert NoEntryFrom(ls, |front| + 1, ip); }
    if LastEntry(ls, ip, value) && !IsEntryLine(last, ip, value) {
      var i :| 0 <= i < |ls| && IsEntryLine(ls[i], ip, value) && NoEntryFrom(ls, i + 1, ip);
      assert forall j :: i < j < |front| ==> ls[j] == front[j];
      assert NoEntryFrom(front, i + 1, ip);
    }
  }

  /** The entries of a managed block give each address the value of its last entry, and exempt none. */
  lemma {:induction false} RatesRead(ls: seq<string>, ip: string)
    ensures Unique(RatesFrom(Entries(ls))) && !ExemptOf(RatesFrom(Entries(ls)), ip)
    ensures forall v :: v != "" ==> (RateOf(RatesFrom(Entries(ls)), ip) == v <==> LastEntry(ls, ip, v))
  {
    hide ToMap, Put, EntryOf, IsEntryLine, LastEntry, Entries, UpsertRate, Unique, ExemptOf, RateOf;
    if ls == [] {
      NothingRead(ip);
    } else {
      var front, last := ls[..|ls| - 1], ls[|ls| - 1];
      assert ls == front + [last];
      RatesRead(front, ip);
      var r, e := RatesFrom(Entries(front)), EntryOf(last);
      EntriesSnoc(front, last, e);
      forall v ensures LastEntry(ls, ip, v) <==> e == Some((ip, v)) || (LastEntry(front, ip, v) && (e.None? || e.value.0 != ip)) {
        LastEntrySnoc(front, last, ip, v);
        EntryOfAddress(last, ip);
      }
      if e.Some? {
        EntryIff(last, e.value.0, e.value.1);
        ValueNotEmpty(last, e.value.0, e.value.1);
        OneRate(r, e.value.0, e.value.1, ip);
        assert RatesFrom(Entries(front) + [e.value]) == UpsertRate(r, e.value.0, e.value.1);
      }
    }
  }

  lemma OneRate(r: seq<Override>, k: string, w: string, ip: string)
    requires Unique(r) && !ExemptOf(r, ip)
    ensures var r' := UpsertRate(r, k, w);
            Unique(r') && !ExemptOf(r', ip) && RateOf(r', ip) == if k == ip then w else RateOf(r, ip)
  {
    hide ToMap, Put;
    PutIsMapUpdate(r, Override(k, w, ExemptOf(r, k)));
  }

  lemma ValueNotEmpty(l: string, ip: string, value: string)
    requires IsEntryLine(l, ip, value)
    ensures value != ""
  {
  }

  lemma EntryOfAddress(l: string, ip: string)
    ensures forall w :: IsEntryLine(l, ip, w) <==> EntryOf(l) == Some((ip, w))
  {
    forall w ensures IsEntryLine(l, ip, w) <==> EntryOf(l) == Some((ip, w)) {
      EntryIff(l, ip, w);
    }
  }

  lemma NothingRead(ip: string)
    ensures RatesFrom(Entries([])) == [] && Unique([]) && !ExemptOf([], ip) && RateOf([], ip) == ""
    ensures forall v :: !LastEntry([], ip, v)
  {
  }

  // ---- The managed region ----

  const BEGIN_TEXT := "# === LCM-MANAGED" + (": per-IP overrides" + (" \U{2014} edit in" + (" the UI, not by hand" + " ===")))
  const END_TEXT := "# === LCM-MANAGED END ==="

  lemma MarkersSpelled()
    ensures BEGIN_MARKER == BEGIN_TEXT && END_MARKER == END_TEXT
  {
    assert "#" + MARKER_STEM == "# === LCM-MANAGED";
    Assoc("#", MARKER_STEM, BEGIN_WORDS + (BEGIN_DASH + (BEGIN_REST + " ===")));
  }

  ghost predicate IsFirstAt(s: string, n: nat, p: string) {
    At(s, n, p) && forall i :: At(s, i, p) ==> n <= i
  }

  /** The first end marker comes after the first begin marker; the text is in front of them, between and behind. */
  ghost predicate HasRegion(content: string, pre: string, managed: string, rest: string) {
    && content == pre + (BEGIN_TEXT + (managed + (END_TEXT + rest)))
    && IsFirstAt(content, |pre|, BEGIN_TEXT) && IsFirstAt(content, |pre| + |BEGIN_TEXT| + |managed|, END_TEXT)
  }

  lemma FirstIsIndex(s: string, n: nat, p: string)
    ensures IsFirstAt(s, n, p) <==> Index(s, p) == n
  {
  }

  lemma MarkersNotEmpty()
    ensures BEGIN_TEXT != "" && END_TEXT != ""
  {
  }

  /** A file with a region is cut around it, and one newline behind it is dropped. */
  lemma RegionIsRead(content: string, pre: string, managed: string, rest: string)
    requires HasRegion(content, pre, managed, rest)
    ensures SplitAtMarkers(content) == Split(pre, Some(managed), if rest != "" && rest[0] == '\n' then rest[1..] else rest)
  {
    hide Index, IsMarker, IsFirstAt, At, BEGIN_TEXT, END_TEXT, BEGIN_MARKER, END_MARKER;
    MarkersSpelled();
    MarkersNotEmpty();
    MarkersAreMarkers();
    var b, e := |pre|, |pre| + |BEGIN_TEXT| + |managed|;
    FirstIsIndex(content, b, BEGIN_TEXT);
    FirstIsIndex(content, e, END_TEXT);
    CutRegion(pre, BEGIN_TEXT, managed, END_TEXT, rest);
  }

  lemma CutRegion(pre: string, begin: string, managed: string, end: string, rest: string)
    ensures var s := pre + (begin + (managed + (end + rest)));
            var b, e := |pre|, |pre| + |begin| + |managed|;
            s[..b] == pre && s[b + |begin|..e] == managed && s[e + |end|..] == rest
  {
  }

  /** Without one, all of the file is the user's. */
  lemma NoRegionIsRead(content: string)
    requires forall pre, managed, rest :: !HasRegion(content, pre, managed, rest)
    ensures SplitAtMarkers(content) == Split("", None, content)
  {
    hide Index, IsMarker, BEGIN_TEXT, END_TEXT, BEGIN_MARKER, END_MARKER;
    MarkersSpelled();
    MarkersAreMarkers();
    var b, e := Index(content, BEGIN_TEXT), Index(content, END_TEXT);
    if b >= 0 && e > b {
      MarkersApart(content, b, BEGIN_TEXT, e, END_TEXT);
      FivePieces(content, b, BEGIN_TEXT, e, END_TEXT);
      FirstIsIndex(content, b, BEGIN_TEXT);
      FirstIsIndex(content, e, END_TEXT);
      assert HasRegion(content, content[..b], content[b + |BEGIN_TEXT|..e], content[e + |END_TEXT|..]);
    }
  }

  // ---- Blocks ----

  /** The text around the first block of the user: an opening, a body up to the first closing brace, no opening earlier. */
  ghost predicate IsUserBlock(s: string, g: Geo) {
    && s == g.before + g.header + g.body + "}" + g.after
    && IsOpening(g.header) && '}' !in g.body
    && forall i, h :: At(g.before, i, h) ==> !IsOpening(h)
  }

  lemma BlockIff(s: string, g: Geo)
    ensures FindGeo(s) == Some(g) <==> IsUserBlock(s, g)
  {
    hide FindGeo, IsHeader, IsOpening, At;
    assert g.Whole() == g.before + g.header + g.body + "}" + g.after;
    forall h ensures IsHeader(h) <==> IsOpening(h) {
      OpeningIff(h);
    }
    if FindGeo(s) == Some(g) { FindGeoFound(s); }
    if IsUserBlock(s, g) { FindGeoIs(g); }
  }

  /** The body of the first block of this name in the managed text, between its first opening brace and the next closing one. */
  ghost predicate Braced(s: string, name: string, body: string) {
    exists a, b, c ::
      && s == a + (name + (b + ("{" + (body + ("}" + c)))))
      && '{' !in b && '}' !in body && IsFirstAt(s, |a|, name)
  }

  lemma BracedIfShape(s: string, name: string, body: string)
    requires Braced(s, name, body) && '{' !in name
    ensures BracedAfter(s, name) == Ok(body)
  {
    hide Index, IsFirstAt, BracedAfter;
    var a, b, c :|
      && s == a + (name + (b + ("{" + (body + ("}" + c)))))
      && '{' !in b && '}' !in body && IsFirstAt(s, |a|, name);
    FirstIsIndex(s, |a|, name);
    Assoc(name, b, "{" + (body + ("}" + c)));
    BracedBehind(s, a, name, name + b, body, c);
  }

  lemma BracedBehind(s: string, a: string, name: string, head: string, body: string, c: string)
    requires s == a + (head + ("{" + (body + ("}" + c)))) && Index(s, name) == |a| && '{' !in head && '}' !in body
    ensures BracedAfter(s, name) == Ok(body)
  {
    hide Index;
    BracedCut(head, body, c);
    DropPrefix(a, head + ("{" + (body + ("}" + c))));
  }

  lemma BracedCut(head: string, body: string, c: string)
    requires '{' !in head && '}' !in body
    ensures var t := head + ("{" + (body + ("}" + c)));
            var open := Index(t, "{");
            && open == |head| && Index(t[open..], "}") == 1 + |body|
            && t[open + 1..open + 1 + |body|] == body
  {
    var tail := body + ("}" + c);
    var t, inner := head + ("{" + tail), "{" + body;
    Assoc(head, "{", tail);
    IndexOfChar(head, '{', tail);
    DropPrefix(head, "{" + tail);
    Assoc("{", body, "}" + c);
    Assoc(inner, "}", c);
    IndexOfChar(inner, '}', c);
    assert t[|head| + 1..] == tail && tail[..|body|] == body;
  }

  lemma CharAt(s: string, c: char)
    requires Index(s, [c]) >= 0
    ensures Index(s, [c]) < |s| && s[Index(s, [c])] == c && c !in s[..Index(s, [c])]
  {
    var n := Index(s, [c]);
    assert s[n] == s[n..n + 1][0];
    BeforeIndex(s, c, n);
  }

  /** A text around its first opening brace and the next closing one. */
  lemma BracePieces(t: string, name: string) returns (b: string, c: string)
    requires name <= t && '{' !in name
    requires var open := Index(t, "{"); 0 <= open && 0 <= Index(t[open..], "}")
    ensures var open := Index(t, "{"); var close := Index(t[open..], "}");
            && 0 < close && open + close <= |t|
            && t == name + (b + ("{" + (t[open + 1..open + close] + ("}" + c))))
            && '{' !in b && '}' !in t[open + 1..open + close]
  {
    hide Index;
    var open := Index(t, "{");
    var u := t[open..];
    CharAt(t, '{');
    CharAt(u, '}');
    b, c := CutAtBraces(t, name, open, Index(u, "}"));
  }

  lemma CutAtBraces(t: string, name: string, open: nat, close: nat) returns (b: string, c: string)
    requires name <= t && '{' !in name && open < |t| && t[open] == '{' && '{' !in t[..open]
    requires close < |t[open..]| && t[open..][close] == '}' && '}' !in t[open..][..close]
    ensures 0 < close && t == name + (b + ("{" + (t[open + 1..open + close] + ("}" + c))))
    ensures '{' !in b && '}' !in t[open + 1..open + close]
    ensures t[..open] == name + b
  {
    var u := t[open..];
    assert forall i :: 0 <= i < |name| ==> t[i] == name[i];
    b, c := t[|name|..open], u[close + 1..];
    var body := u[..close][1..];
    assert t[open + 1..open + close] == body;
    assert u == "{" + (body + ("}" + c));
    assert t[..open] == name + b;
    Assoc(name, b, u);
    assert t == t[..open] + u;
  }

  lemma ShapeIfBraced(s: string, name: string, body: string)
    requires BracedAfter(s, name) == Ok(body) && '{' !in name
    ensures Braced(s, name, body)
  {
    hide IsFirstAt, Braced, Index;
    var start := Index(s, name);
    FirstIsIndex(s, start, name);
    var a, t := s[..start], s[start..];
    assert t[..|name|] == name;
    var b, c := BracePieces(t, name);
    assert s == a + t && |a| == start;
    assert t == name + (b + ("{" + (body + ("}" + c))));
    BracedWitness(a, name, b, body, c);
  }

  lemma BracedWitness(a: string, name: string, b: string, body: string, c: string)
    requires '{' !in b && '}' !in body
    requires IsFirstAt(a + (name + (b + ("{" + (body + ("}" + c))))), |a|, name)
    ensures Braced(a + (name + (b + ("{" + (body + ("}" + c))))), name, body)
  {
  }

  lemma BeforeIndex(s: string, c: char, n: nat)
    requires n <= |s| && (Index(s, [c]) == n || Index(s, [c]) < 0)
    ensures c !in s[..n]
  {
    if c in s[..n] {
      var i :| 0 <= i < n && s[i] == c;
      assert At(s, i, [c]);
    }
  }

  /** The same with no closing brace in front of the opening one. */
  ghost predicate BracedPlain(s: string, name: string, body: string) {
    exists a, b, c ::
      && s == a + (name + (b + ("{" + (body + ("}" + c)))))
      && '{' !in b && '}' !in b && '}' !in body && IsFirstAt(s, |a|, name)
  }

  lemma PlainCut(head: string, body: string, c: string)
    requires '{' !in head && '}' !in head && '}' !in body
    ensures var t := head + ("{" + (body + ("}" + c)));
            Index(t, "{") == |head| && Index(t, "}") == |head| + 1 + |body| && t[|head| + 1..|head| + 1 + |body|] == body
  {
    var tail, inner := body + ("}" + c), head + ("{" + body);
    BracedCut(head, body, c);
    Assoc("{", body, "}" + c);
    Assoc(head, "{" + body, "}" + c);
    Assoc(inner, "}", c);
    IndexOfChar(inner, '}', c);
  }

  lemma PlainIfShape(s: string, name: string, body: string)
    requires BracedPlain(s, name, body) && name != "" && '{' !in name && '}' !in name
    ensures FirstBraces(s, name) == Some(body)
  {
    hide Index, IsFirstAt, FirstBraces;
    var a, b, c :|
      && s == a + (name + (b + ("{" + (body + ("}" + c)))))
      && '{' !in b && '}' !in b && '}' !in body && IsFirstAt(s, |a|, name);
    FirstIsIndex(s, |a|, name);
    Assoc(name, b, "{" + (body + ("}" + c)));
    PlainBehind(s, a, name, name + b, body, c);
  }

  lemma PlainBehind(s: string, a: string, name: string, head: string, body: string, c: string)
    requires s == a + (head + ("{" + (body + ("}" + c)))) && Index(s, name) == |a|
    requires head != "" && '{' !in head && '}' !in head && '}' !in body
    ensures FirstBraces(s, name) == Some(body)
  {
    hide Index;
    PlainCut(head, body, c);
    DropPrefix(a, head + ("{" + (body + ("}" + c))));
  }

  lemma PlainPieces(t: string, name: string) returns (b: string, c: string)
    requires name <= t && '{' !in name
    requires 0 <= Index(t, "{") < Index(t, "}")
    ensures var open, close := Index(t, "{"), Index(t, "}");
            && close <= |t| && t == name + (b + ("{" + (t[open + 1..close] + ("}" + c))))
            && '{' !in b && '}' !in b && '}' !in t[open + 1..close]
  {
    hide Index;
    var open, close := Index(t, "{"), Index(t, "}");
    CharAt(t, '{');
    CharAt(t, '}');
    assert t[open..][..close - open] == t[..close][open..];
    b, c := CutAtBraces(t, name, open, close - open);
    var front := t[..close];
    assert name + b == front[..open] && b == front[..open][|name|..];
    assert forall x :: x in b ==> x in front;
  }

  lemma ShapeIfPlain(s: string, name: string, body: string)
    requires FirstBraces(s, name) == Some(body) && '{' !in name
    ensures BracedPlain(s, name, body)
  {
    hide IsFirstAt, BracedPlain, Index;
    var start := Index(s, name);
    FirstIsIndex(s, start, name);
    var a, t := s[..start], s[start..];
    assert t[..|name|] == name;
    var b, c := PlainPieces(t, name);
    assert s == a + t && |a| == start;
    assert t == name + (b + ("{" + (body + ("}" + c))));
    PlainWitness(a, name, b, body, c);
  }

  lemma PlainWitness(a: string, name: string, b: string, body: string, c: string)
    requires '{' !in b && '}' !in b && '}' !in body
    requires IsFirstAt(a + (name + (b + ("{" + (body + ("}" + c))))), |a|, name)
    ensures BracedPlain(a + (name + (b + ("{" + (body + ("}" + c))))), name, body)
  {
  }

  const GEO_NAME := "geo $lcm_rate_override"
  const MAP_NAME := "map $lcm_rate_override"

  lemma NamesSpelled()
    ensures MANAGED_GEO == GEO_NAME && MANAGED_MAP == MAP_NAME
  {
  }

  lemma NamesHaveNoBrace()
    ensures '{' !in GEO_NAME && '{' !in MAP_NAME && '}' !in MAP_NAME && MAP_NAME != ""
  {
  }

  lemma BracedIff(managed: string, body: string)
    ensures BracedAfter(managed, MANAGED_GEO) == Ok(body) <==> Braced(managed, GEO_NAME, body)
    ensures FirstBraces(managed, MANAGED_MAP) == Some(body) <==> BracedPlain(managed, MAP_NAME, body)
  {
    hide BracedAfter, FirstBraces, Braced, BracedPlain, GEO_NAME, MAP_NAME;
    NamesSpelled();
    NamesHaveNoBrace();
    if BracedAfter(managed, MANAGED_GEO) == Ok(body) { ShapeIfBraced(managed, GEO_NAME, body); }
    if Braced(managed, GEO_NAME, body) { BracedIfShape(managed, GEO_NAME, body); }
    if FirstBraces(managed, MANAGED_MAP) == Some(body) { ShapeIfPlain(managed, MAP_NAME, body); }
    if BracedPlain(managed, MAP_NAME, body) { PlainIfShape(managed, MAP_NAME, body); }
  }

  // ---- When a file cannot be read ----

  lemma RegionIffSplit(content: string, pre: string, managed: string, rest: string)
    requires HasRegion(content, pre, managed, rest)
    ensures forall m' :: SplitAtMarkers(content).managed == Some(m') <==> m' == managed
  {
    hide HasRegion;
    RegionIsRead(content, pre, managed, rest);
  }

  ghost predicate IsManaged(content: string, managed: string) {
    exists pre, rest :: HasRegion(content, pre, managed, rest)
  }

  lemma ManagedIff(content: string, managed: string)
    ensures SplitAtMarkers(content).managed == Some(managed) <==> IsManaged(content, managed)
  {
    hide HasRegion, SplitAtMarkers;
    if pre, m, rest :| HasRegion(content, pre, m, rest) {
      RegionIffSplit(content, pre, m, rest);
      assert IsManaged(content, m);
      if IsManaged(content, managed) {
        var pre', rest' :| HasRegion(content, pre', managed, rest');
        RegionIffSplit(content, pre', managed, rest');
      }
    } else {
      NoRegionIsRead(content);
    }
  }

  /** Reading fails exactly for a managed region without its geo block, or one whose block has no braces. */
  lemma ReadingFailsIff(content: string)
    ensures ParseDoc(content) == Err(MissingGeoBlock) <==>
            exists managed :: IsManaged(content, managed) && !Contains(managed, GEO_NAME)
    ensures ParseDoc(content) == Err(MissingBrace) <==>
            exists managed ::
              IsManaged(content, managed) && Contains(managed, GEO_NAME) && forall body :: !Braced(managed, GEO_NAME, body)
    ensures ParseDoc(content).Ok? || ParseDoc(content) == Err(MissingGeoBlock) || ParseDoc(content) == Err(MissingBrace)
  {
    hide SplitAtMarkers, IsManaged, Braced, BracedAfter, ParseUser, GEO_NAME;
    forall managed ensures SplitAtMarkers(content).managed == Some(managed) <==> IsManaged(content, managed) {
      ManagedIff(content, managed);
    }
    var s := SplitAtMarkers(content);
    if s.managed.Some? {
      forall body ensures BracedAfter(s.managed.value, MANAGED_GEO) == Ok(body) <==> Braced(s.managed.value, GEO_NAME, body) {
        BracedIff(s.managed.value, body);
      }
      NamesSpelled();
      BracedErrors(s.managed.value, MANAGED_GEO);
    }
  }

  lemma BracedErrors(s: string, name: string)
    ensures BracedAfter(s, name).Err? ==> BracedAfter(s, name).error == if Contains(s, name) then MissingBrace else MissingGeoBlock
    ensures !Contains(s, name) ==> BracedAfter(s, name).Err?
  {
  }

  // ---- The rules of a file ----

  lemma UserRulesRead(s: Split, rates: seq<Override>, global: string, ip: string)
    requires Unique(rates)
    ensures var os := ParseUser(s, rates, global).overrides;
            && RateOf(os, ip) == RateOf(rates, ip)
            && (ExemptOf(os, ip) <==> ExemptOf(rates, ip) || HasExemptLine(s.pre + s.post, ip))
  {
    hide FindGeo, ToMap, IsUserBlock, IsEntryLine, Entries, Lines, ExemptsFrom, Unique, ConnLimitOf, FirstRate, SortByIP;
    var text := s.pre + s.post;
    forall g ensures FindGeo(text) == Some(g) <==> IsUserBlock(text, g) {
      BlockIff(text, g);
    }
    match FindGeo(text)
    case None =>
      SortKeepsMap(rates);
    case Some(g) =>
      var es := Entries(Lines(g.body));
      ExemptsRead(es, rates, ip);
      EntryIn(Lines(g.body), ip, "0");
      SortKeepsMap(ExemptsFrom(es, rates));
  }

  /** The user's block has a line that gives the address a zero. */
  ghost predicate HasExemptLine(text: string, ip: string) {
    exists g, l :: IsUserBlock(text, g) && l in Lines(g.body) && IsEntryLine(l, ip, "0")
  }

  /** An address is read as exempt if and only if the user's block, in any readable file, has a line that gives it a zero. */
  lemma ExemptIff(content: string, ip: string)
    requires ParseDoc(content).Ok?
    ensures var d := ParseDoc(content).value; ExemptOf(d.overrides, ip) <==> HasExemptLine(d.Merged(), ip)
  {
    hide SplitAtMarkers, ParseUser, BracedAfter, MapFallback, Entries, HasExemptLine, ExemptOf, RateOf, Unique, Lines;
    var s := SplitAtMarkers(content);
    NothingRead(ip);
    if s.managed.None? {
      UserRulesRead(s, [], "", ip);
    } else {
      var ls := Lines(BracedAfter(s.managed.value, MANAGED_GEO).value);
      RatesRead(ls, ip);
      UserRulesRead(s, RatesFrom(Entries(ls)), MapFallback(s.managed.value), ip);
    }
    MergedIsSplit(s);
  }

  lemma MergedIsSplit(s: Split)
    ensures forall rates, global :: ParseUser(s, rates, global).Merged() == s.pre + s.post
  {
    hide SortByIP, FindGeo, ConnLimitOf, FirstRate, ExemptsFrom;
  }

  /** A file without a region has no rates; in the geo block of a region the last entry of an address counts. */
  lemma RateIff(content: string, ip: string, rate: string)
    requires ParseDoc(content).Ok? && rate != ""
    ensures RateOf(ParseDoc(content).value.overrides, ip) == rate <==>
            exists managed, body :: IsManaged(content, managed) && Braced(managed, GEO_NAME, body) && LastEntry(Lines(body), ip, rate)
  {
    hide SplitAtMarkers, ParseUser, BracedAfter, MapFallback, Entries, ExemptOf, RateOf, Unique, Lines, IsManaged, Braced, LastEntry;
    hide GEO_NAME;
    var s := SplitAtMarkers(content);
    forall managed ensures s.managed == Some(managed) <==> IsManaged(content, managed) {
      ManagedIff(content, managed);
    }
    NothingRead(ip);
    if s.managed.None? {
      UserRulesRead(s, [], "", ip);
    } else {
      var managed := s.managed.value;
      forall body ensures BracedAfter(managed, MANAGED_GEO) == Ok(body) <==> Braced(managed, GEO_NAME, body) {
        BracedIff(managed, body);
      }
      var ls := Lines(BracedAfter(managed, MANAGED_GEO).value);
      RatesRead(ls, ip);
      UserRulesRead(s, RatesFrom(Entries(ls)), MapFallback(managed), ip);
    }
  }
}

/** Every edit keeps a document well formed. */
module Edits {
  import opened Wrappers
  import opened Lists
  import opened Text
  import opened Regex
  import opened Patterns
  import opened Overrides
  import opened Document
  import opened PrintedLines
  import opened ManagedRead
  import opened Directives
  import opened UserText
  import opened RoundTrip

  // ---- Rules ----

  lemma ValidRateChars(s: string)
    requires ValidRate(s)
    ensures GlobalToken(s) && '#' !in s && '\n' !in s && '$' !in s && '"' !in s
  {
    hide Run;
    if s != "0" {
      var (digits, rest) := Run(Digit, s);
      assert forall c :: c in s ==> c in digits || c in rest;
      assert forall c :: c in digits ==> Is(Digit, c);
      assert forall c :: c in s ==> Is(Digit, c) || c == 'k' || c == 'K' || c == 'm' || c == 'M';
    }
    assert forall c :: c in s ==> Is(TokenChar, c) && !Is(Space, c);
    assert s[0] in s && s[|s| - 1] in s;
  }

  /** Setting a rule keeps the document well formed and changes the entry of its own address only. */
  lemma SetOverrideKeeps(d: Doc, valid: string -> bool, ip: string, rate: string, exempt: bool)
    requires WellFormed(d) && SetOverride(d, valid, ip, rate, exempt).Ok?
    requires EntryIP(ip) && (rate == "" || d.hasManaged)
    ensures var d' := SetOverride(d, valid, ip, rate, exempt).value;
            && WellFormed(d')
            && ToMap(d'.overrides) == ToMap(d.overrides)[ip := Rule(rate, exempt)]
  {
    var o := Override(ip, rate, exempt);
    var os := Put(d.overrides, o);
    SortedIsUnique(d.overrides);
    PutIsMapUpdate(d.overrides, o);
    SortKeepsMap(os);
    SortMembers(os);
    if rate != "" { ValidRateChars(rate); }
    forall x | x in SortByIP(os) ensures GoodRule(x) && (!d.hasManaged ==> x.rate == "") {
      MemberOfPermutation(SortByIP(os), os, x);
      PutMembers(d.overrides, o, x);
    }
    SameTextStaysPlaced(d, d.(overrides := SortByIP(os)));
  }

  lemma ClearOverrideKeeps(d: Doc, ip: string)
    requires WellFormed(d)
    ensures WellFormed(ClearOverride(d, ip))
    ensures ToMap(ClearOverride(d, ip).overrides) == ToMap(d.overrides) - {ip}
  {
    WithoutIsMapRemoval(d.overrides, ip);
    WithoutMembers(d.overrides, ip);
    SameTextStaysPlaced(d, ClearOverride(d, ip));
  }

  lemma SameTextStaysPlaced(d: Doc, d': Doc)
    requires WellFormed(d) && d' == d.(overrides := d'.overrides) && GoodRules(d'.overrides)
    requires !d.hasManaged ==> forall o :: o in d'.overrides ==> o.rate == ""
    ensures WellFormed(d')
  {
    assert d'.Merged() == d.Merged();
  }

  // ---- Replacing the first directive ----

  /** The parts of the directive written in its place. */
  function NewParts(p: Place, value: string): seq<string>
    requires |p.parts| == 6
  {
    [p.parts[0], LIMIT_RATE, " ", value, "", ";"]
  }

  /** The text with the directive at this place rewritten. */
  function Edited(p: Place, value: string): Place
    requires |p.parts| == 6
  {
    p.(parts := NewParts(p, value))
  }

  lemma NewPartsRead(p: Place, value: string)
    requires Reads(LIMIT_RATE_LINE, p.parts) && Token(value)
    ensures Reads(LIMIT_RATE_LINE, NewParts(p, value))
    ensures Concat(NewParts(p, value)) == p.parts[0] + (LIMIT_RATE + (" " + (value + ";")))
  {
    var parts := NewParts(p, value);
    assert LIMIT_RATE_LINE[0].Fits(p.parts[0]);
    assert forall i :: 0 <= i < 6 ==> LIMIT_RATE_LINE[i].Fits(parts[i]);
    ConcatSix(p.parts[0], LIMIT_RATE, " ", value, "", ";");
    assert "" + ";" == ";";
  }

  /** The textual search finds the directive itself when its text does not occur earlier. */
  lemma DirectiveIsFirstText(p: Place)
    requires IsFirst(p) && !Contains(p.before, Concat(p.parts))
    ensures Index(p.Whole(), Concat(p.parts)) == |p.before|
  {
    var s, t := p.Whole(), Concat(p.parts);
    DirectiveHasNoNewline(p.parts);
    Assoc(p.before, t, p.after);
    AtMiddle(p.before, t, p.after);
    var i := Index(s, t);
    if i < |p.before| {
      InsideBefore(p.before, t + p.after, i, t);
    }
  }

  /** An occurrence without newlines that starts in a line-terminated text ends in it. */
  lemma InsideBefore(x: string, y: string, i: int, t: string)
    requires LineTerminated(x) && '\n' !in t && At(x + y, i, t) && i < |x|
    ensures Contains(x, t)
  {
    var s, n := x + y, |x|;
    assert s[n - 1] == x[n - 1] == '\n';
    assert forall k :: i <= k < i + |t| ==> s[k] == t[k - i];
    assert i + |t| <= n;
    assert x[i..i + |t|] == s[i..i + |t|];
    assert At(x, i, t);
  }

  lemma ReplacedHere(b: string, t: string, y: string, t': string)
    requires Index(b + (t + y), t) == |b|
    ensures ReplaceFirst(b + (t + y), t, t') == b + (t' + y)
  {
    hide Index;
    var s := b + (t + y);
    assert s[..|b|] == b && s[|b| + |t|..] == y;
    Assoc(b, t', y);
  }

  lemma ReplacedInPlace(p: Place, value: string)
    requires IsFirst(p) && Token(value)
    requires Index(p.Whole(), Concat(p.parts)) == |p.before|
    ensures ReplaceDirective(p.Whole(), p, value) == Edited(p, value).Whole()
    ensures IsFirst(Edited(p, value)) && FindLimitRate(Edited(p, value).Whole()) == Some(Edited(p, value))
  {
    var t, t' := Concat(p.parts), Concat(NewParts(p, value));
    NewPartsRead(p, value);
    FindLimitRateIs(Edited(p, value));
    hide Concat, NewParts, FindLimitRate, IsFirst, Index;
    ReplacedHere(p.before, t, p.after, t');
  }

  // ---- Directives and openings do not overlap ----

  /** Where things are in a directive. */
  lemma DirectiveChars(parts: seq<string>) returns (k: nat, v: nat)
    requires Reads(LIMIT_RATE_LINE, parts)
    ensures var t := Concat(parts);
            && k + 1 < v < |t| && t[k] == 'e' && Is(ReSpace, t[k + 1])
            && (forall i :: 0 <= i < v ==> t[i] != 'g' && t[i] != '{')
            && (forall i :: v <= i < |t| && t[i] == '{' ==> forall j :: v <= j <= i ==> !Is(ReSpace, t[j]))
            && t[|t| - 1] == ';'
  {
    DirectiveHasNoNewline(parts);
    var indent, gap, value, tail := parts[0], parts[2], parts[3], parts[4];
    assert forall i :: 0 <= i < 6 ==> LIMIT_RATE_LINE[i].Fits(parts[i]);
    ConcatSix(indent, LIMIT_RATE, gap, value, tail, ";");
    assert parts == [indent, LIMIT_RATE, gap, value, tail, ";"];
    k := |indent| + 9;
    v := |indent| + 10 + |gap|;
    PositionsInDirective(indent, gap, value, tail);
  }

  lemma PositionsInDirective(indent: string, gap: string, value: string, tail: string)
    requires All(Blank, indent) && All(Blank, gap) && gap != "" && All(TokenChar, value) && value != "" && All(Blank, tail)
    ensures var t := indent + (LIMIT_RATE + (gap + (value + (tail + ";"))));
            var v := |indent| + 10 + |gap|;
            && t[|indent| + 9] == 'e' && Is(ReSpace, t[|indent| + 10])
            && (forall i :: 0 <= i < v ==> t[i] != 'g' && t[i] != '{')
            && (forall i :: v <= i < |t| && t[i] == '{' ==> forall j :: v <= j <= i ==> !Is(ReSpace, t[j]))
  {
    var a := |indent|;
    var v := a + 10 + |gap|;
    var w := v + |value|;
    var rest := value + (tail + ";");
    var t := indent + (LIMIT_RATE + (gap + rest));
    assert forall i :: 0 <= i < a ==> t[i] == indent[i];
    assert forall i :: a <= i < a + 10 ==> t[i] == LIMIT_RATE[i - a];
    assert forall i :: a + 10 <= i < v ==> t[i] == gap[i - a - 10];
    assert forall i :: v <= i < w ==> t[i] == value[i - v];
    assert forall i :: w <= i < |t| - 1 ==> t[i] == tail[i - w];
    assert forall i :: 0 <= i < 10 ==> LIMIT_RATE[i] != 'g' && LIMIT_RATE[i] != '{';
    assert LIMIT_RATE[9] == 'e';
  }

  /** An opening ends before a directive at the start of a line or starts after it. */
  lemma HeaderAvoidsDirective(x: string, parts: seq<string>, y: string, i: int, h: string)
    requires Reads(LIMIT_RATE_LINE, parts) && IsHeader(h)
    requires At(x + (Concat(parts) + y), i, h)
    ensures i + |h| <= |x| || |x| + |Concat(parts)| <= i
  {
    hide IsHeader, Reads;
    var t := Concat(parts);
    var s := x + (t + y);
    var n, j := |x|, i + |h|;
    var k, v := DirectiveChars(parts);
    HeaderFacts(h);
    assert forall q :: i <= q < j ==> s[q] == h[q - i];
    assert forall q :: n <= q < n + |t| ==> s[q] == t[q - n];
    var e := n + |t| - 1;
    assert s[e] == ';';
    assert s[i] == 'g' && Is(ReSpace, s[i + 3]) && s[j - 1] == '{';
    assert s[n + k] == 'e' && Is(ReSpace, s[n + k + 1]);
    OverlapIsImpossible(s, n, k, v, e, i, j);
  }

  /** The two sets of character facts exclude each other on overlapping stretches. */
  lemma OverlapIsImpossible(s: string, n: int, k: int, v: int, e: int, i: int, j: int)
    requires 0 <= n && 0 <= k && k + 1 < v && n + v <= e < |s| && 0 <= i && i + 4 <= j <= |s|
    requires s[e] == ';' && s[n + k] == 'e' && Is(ReSpace, s[n + k + 1])
    requires forall q :: n <= q < n + v ==> s[q] != 'g' && s[q] != '{'
    requires forall q :: n + v <= q <= e && s[q] == '{' ==> forall r :: n + v <= r <= q ==> !Is(ReSpace, s[r])
    requires s[i] == 'g' && Is(ReSpace, s[i + 3]) && s[j - 1] == '{'
    requires forall q :: i <= q < j ==> s[q] != ';'
    requires forall q :: i < q < j && Is(ReSpace, s[q]) ==> s[q - 1] == 'o' || s[q - 1] == 't' || Is(ReSpace, s[q - 1])
    ensures j <= n || e < i
  {
  }

  /** Rewriting a directive neither makes nor breaks openings. */
  lemma EditedIsHeaderFree(x: string, parts: seq<string>, parts': seq<string>, y: string)
    requires Reads(LIMIT_RATE_LINE, parts) && Reads(LIMIT_RATE_LINE, parts')
    requires HeaderFree(x + (Concat(parts) + y))
    ensures HeaderFree(x + (Concat(parts') + y))
  {
    var t, t' := Concat(parts), Concat(parts');
    var s, s' := x + (t + y), x + (t' + y);
    forall i, h | At(s', i, h) ensures !IsHeader(h) {
      if IsHeader(h) {
        HeaderAvoidsDirective(x, parts', y, i, h);
        if i + |h| <= |x| {
          assert s[i..i + |h|] == s'[i..i + |h|];
          assert At(s, i, h);
        } else {
          var j := i - |t'| + |t|;
          assert s[j..j + |h|] == s'[i..i + |h|];
          assert At(s, j, h);
        }
      }
    }
  }

  // ---- The block after an edit ----

  lemma DirectiveSpeaks(parts: seq<string>, rest: string)
    requires Reads(LIMIT_RATE_LINE, parts)
    ensures Speaks(Concat(parts) + rest)
  {
    DirectiveIsMatched(parts, rest);
  }

  lemma LastLineBehind(t: string, w: string)
    requires '\n' !in t && |Lines(w)| > 1
    ensures LastLine(t + w) == LastLine(w)
  {
    LinesOfOneThen(t, w);
  }

  /** The last line of a text does not show an edit of an earlier line. */
  lemma LastLineAfterEdit(x: string, parts: seq<string>, parts': seq<string>, w: string)
    requires LineTerminated(x) && Reads(LIMIT_RATE_LINE, parts) && Reads(LIMIT_RATE_LINE, parts')
    requires !Speaks(LastLine(x + (Concat(parts) + w)))
    ensures LastLine(x + (Concat(parts') + w)) == LastLine(x + (Concat(parts) + w))
  {
    var t, t' := Concat(parts), Concat(parts');
    LastLineAfter(x, t + w);
    LastLineAfter(x, t' + w);
    DirectiveHasNoNewline(parts);
    DirectiveHasNoNewline(parts');
    if |Lines(w)| == 1 {
      LinesOfOneThen(t, w);
      SingleLine(w);
      DirectiveSpeaks(parts, w);
    } else {
      LastLineBehind(t, w);
      LastLineBehind(t', w);
    }
  }

  lemma EditInFront(g: Geo, p: Place, value: string) returns (g': Geo)
    requires IsGeo(g) && SilentBlock(g) && g.Whole() == p.Whole() && IsFirst(p) && Token(value)
    requires |p.before| + |Concat(p.parts)| <= |g.before|
    ensures IsGeo(g') && SilentBlock(g') && g'.Whole() == Edited(p, value).Whole()
    ensures g' == g.(before := p.before + (Concat(NewParts(p, value)) + g.before[|p.before| + |Concat(p.parts)|..]))
    ensures |p.before| + |Concat(NewParts(p, value))| <= |g'.before|
  {
    var x, parts, parts' := p.before, p.parts, NewParts(p, value);
    var y := g.before[|x| + |Concat(parts)|..];
    NewPartsRead(p, value);
    DirectiveInFront(g, p, y);
    g' := g.(before := x + (Concat(parts') + y));
    DirectiveInFront(g', Edited(p, value), y);
    var tail := y + (g.Block() + g.after);
    AfterIsTail(x, Concat(parts), tail, p.after);
    EditedIsHeaderFree(x, parts, parts', y);
    OpeningIsSilent(g);
    BeforeThenHeader(x, Concat(parts), y, g.header);
    BeforeThenHeader(x, Concat(parts'), y, g.header);
    LastLineAfterEdit(x, parts, parts', y + g.header);
  }

  lemma BeforeThenHeader(x: string, t: string, y: string, h: string)
    ensures (x + (t + y)) + h == x + (t + (y + h))
  {
    Assoc(t, y, h);
    Assoc(x, t + y, h);
  }

  lemma AfterIsTail(x: string, t: string, a: string, b: string)
    requires x + (t + a) == x + (t + b)
    ensures a == b
  {
    Assoc(x, t, a);
    Assoc(x, t, b);
    var n := |x + t|;
    assert ((x + t) + a)[n..] == a && ((x + t) + b)[n..] == b;
  }

  lemma EditBehind(g: Geo, p: Place, value: string) returns (g': Geo)
    requires IsGeo(g) && SilentBlock(g) && g.Whole() == p.Whole() && IsFirst(p) && Token(value)
    requires |g.before| + |g.Block()| <= |p.before|
    ensures IsGeo(g') && SilentBlock(g') && g'.Whole() == Edited(p, value).Whole()
    ensures |Concat(p.parts) + p.after| <= |g.after|
    ensures g' == g.(after := g.after[..|g.after| - |Concat(p.parts) + p.after|] + (Concat(NewParts(p, value)) + p.after))
  {
    var z := SplitBehind(g, p);
    assert g.after[..|g.after| - |Concat(p.parts) + p.after|] == z;
    var tail, tail' := Concat(p.parts) + p.after, Concat(NewParts(p, value)) + p.after;
    g' := g.(after := z + tail');
    Assoc(g.before + g.Block(), z, tail');
    FirstLineOfTerminated(z, tail);
    FirstLineOfTerminated(z, tail');
  }

  // ---- The readings after an edit ----

  lemma ConnOfFirst(l: string, ls: seq<string>)
    ensures FirstConn([l] + ls) == if MatchLimitConn(l).Some? then MatchLimitConn(l) else FirstConn(ls)
  {
    hide MatchLimitConn;
    assert ([l] + ls)[1..] == ls;
  }

  lemma {:induction false} ConnOfConcat(a: seq<string>, b: seq<string>)
    ensures FirstConn(a + b) == if FirstConn(a).Some? then FirstConn(a) else FirstConn(b)
  {
    if a == [] {
      assert a + b == b;
    } else {
      var l, t := a[0], a[1..];
      ConnOfFirst(l, t);
      ConnOfFirst(l, t + b);
      hide FirstConn;
      ConnOfConcat(t, b);
      assert a == [l] + t && a + b == [l] + (t + b);
    }
  }

  lemma RateSkips(l: string, ls: seq<string>)
    requires !HoldsRate(l)
    ensures FirstRate([l] + ls) == FirstRate(ls)
  {
    assert ([l] + ls)[1..] == ls;
  }

  lemma {:induction false} RateSkipsAll(a: seq<string>, b: seq<string>)
    requires forall l :: l in a ==> !HoldsRate(l)
    ensures FirstRate(a + b) == FirstRate(b)
  {
    if a == [] {
      assert a + b == b;
    } else {
      var l, t := a[0], a[1..];
      assert l in a && forall x :: x in t ==> x in a;
      RateSkipsAll(t, b);
      RateSkips(l, t + b);
      assert a + b == [l] + (t + b);
    }
  }

  lemma RateAfterSilence(a: seq<string>, b: seq<string>)
    requires Filter(HoldsRate, a) == []
    ensures FirstRate(a + b) == FirstRate(b)
  {
    FilterMembers(HoldsRate, a);
    RateSkipsAll(a, b);
  }

  /** A limit_rate directive is not a limit_conn directive. */
  lemma RateIsNotConn(parts: seq<string>, rest: string)
    requires Reads(LIMIT_RATE_LINE, parts)
    ensures MatchLimitConn(Concat(parts) + rest).None?
  {
    var indent, m := parts[0], Concat(parts[1..]) + rest;
    assert LIMIT_RATE_LINE[0].Fits(parts[0]) && LIMIT_RATE_LINE[1].Fits(parts[1]);
    Assoc(indent, Concat(parts[1..]), rest);
    var tail := parts[1..];
    assert tail[0] == LIMIT_RATE;
    assert m[..10] == LIMIT_RATE;
    RunIs(Blank, indent, m);
    assert "limit_conn"[6] == 'c' && m[6] == m[..10][6] == 'r';
    assert !("limit_conn" <= m);
    var p := LIMIT_CONN_PERIP;
    assert Take(p[0], indent + m) == Some((indent, m));
    assert p[1..][0] == Lit("limit_conn");
    assert Match(p[1..], m).None?;
  }

  lemma ReadingsAfterEdit(p: Place, value: string)
    requires IsFirst(p) && Token(value)
    ensures ConnLimitOf(Edited(p, value).Whole()) == ConnLimitOf(p.Whole())
    ensures value != EFFECTIVE_RATE_VAR ==> FirstRate(Lines(Edited(p, value).Whole())) == value
    ensures p.parts[3] != EFFECTIVE_RATE_VAR ==> FirstRate(Lines(p.Whole())) == p.parts[3]
  {
    var q := Edited(p, value);
    NewPartsRead(p, value);
    LinesAroundDirective(p);
    LinesAroundDirective(q);
    ConnAroundDirective(p);
    ConnAroundDirective(q);
    RateAroundDirective(p);
    RateAroundDirective(q);
  }

  lemma ConnAroundDirective(p: Place)
    requires IsFirst(p)
    ensures FirstConn(Lines(p.Whole())) == FirstConn(FullLines(p.before) + Lines(p.after)[1..])
  {
    var f, l, r := FullLines(p.before), Concat(p.parts) + FirstLine(p.after), Lines(p.after)[1..];
    LinesAroundDirective(p);
    RateIsNotConn(p.parts, FirstLine(p.after));
    ConnOfConcat(f, [l] + r);
    ConnOfConcat([l], r);
    ConnOfConcat(f, r);
    assert [l][1..] == [];
  }

  lemma RateAroundDirective(p: Place)
    requires IsFirst(p)
    ensures p.parts[3] != EFFECTIVE_RATE_VAR ==> FirstRate(Lines(p.Whole())) == p.parts[3]
  {
    var l, r := Concat(p.parts) + FirstLine(p.after), Lines(p.after)[1..];
    LinesAroundDirective(p);
    RateAfterSilence(FullLines(p.before), [l] + r);
    DirectiveIsMatched(p.parts, FirstLine(p.after));
    assert ([l] + r)[0] == l;
  }

  lemma NewPartsHaveNoHash(p: Place, value: string)
    requires Reads(LIMIT_RATE_LINE, p.parts) && Token(value) && '#' !in value
    ensures '#' !in Concat(NewParts(p, value))
  {
    var parts := NewParts(p, value);
    assert LIMIT_RATE_LINE[0].Fits(p.parts[0]);
    assert '#' !in LIMIT_RATE;
    assert forall i :: 0 <= i < 6 ==> '#' !in parts[i];
    if '#' in Concat(parts) { ConcatChars(parts, '#'); }
  }

  lemma AtBehind(a: string, b: string, i: int, m: string)
    requires At(a + b, i, m) && i >= |a|
    ensures At(b, i - |a|, m)
  {
    assert (a + b)[i..i + |m|] == b[i - |a|..i - |a| + |m|];
  }

  /** An occurrence that starts with a hash does not start in a text without one. */
  lemma BeyondHashFree(t: string, y: string, i: int, m: string)
    requires '#' !in t && IsMarker(m) && At(t + y, i, m)
    ensures At(y, i - |t|, m)
  {
    var s := t + y;
    assert s[i..i + |m|][0] == s[i];
    assert forall k :: 0 <= k < |t| ==> s[k] == t[k];
    AtBehind(t, y, i, m);
  }

  lemma OutsideHashFree(x: string, t: string, y: string, m: string)
    requires LineTerminated(x) && '#' !in t && IsMarker(m) && Contains(x + (t + y), m)
    ensures Contains(x, m) || Contains(y, m)
  {
    var i := Index(x + (t + y), m);
    if i < |x| {
      InsideBefore(x, t + y, i, m);
    } else {
      AtBehind(x, t + y, i, m);
      BeyondHashFree(t, y, i - |x|, m);
    }
  }

  /** An edit brings in no marker. */
  lemma EditBringsNoMarker(p: Place, value: string, m: string)
    requires IsFirst(p) && Token(value) && '#' !in value && IsMarker(m)
    requires Contains(Edited(p, value).Whole(), m)
    ensures Contains(p.Whole(), m)
  {
    NewPartsHaveNoHash(p, value);
    OutsideHashFree(p.before, Concat(NewParts(p, value)), p.after, m);
    ContainsInThree(p.before, Concat(p.parts), p.after, m);
  }

  // ---- SetGlobal and Migrate ----

  /** The block and the readings of a well-formed text after its first directive is rewritten. */
  lemma EditedText(user: string, value: string) returns (p: Place, g': Geo)
    requires DirectivePlaced(user) && FindLimitRate(user).Some? && Unquoted(user) && Token(value)
    requires FindGeo(user).Some? && SilentBlock(FindGeo(user).value)
    ensures FindLimitRate(user) == Some(p) && IsFirst(p)
    ensures var user' := ReplaceDirective(user, p, value);
            && user' == Edited(p, value).Whole()
            && FindLimitRate(user') == Some(Edited(p, value))
            && FindGeo(user') == Some(g') && SilentBlock(g')
            && g' == FindGeo(user).value.(before := g'.before, after := g'.after)
            && ConnLimitOf(user') == ConnLimitOf(user)
            && (value != EFFECTIVE_RATE_VAR ==> FirstRate(Lines(user')) == value)
            && (GlobalToken(value) ==> DirectivePlaced(user'))
    ensures p.parts[3] != EFFECTIVE_RATE_VAR ==> FirstRate(Lines(user)) == p.parts[3]
  {
    hide FindGeo, FindLimitRate, Lines, ReplaceDirective, SilentBlock;
    FindLimitRateFound(user);
    FindGeoFound(user);
    p := FindLimitRate(user).value;
    var g := FindGeo(user).value;
    SilentIsApart(p, g);
    DirectiveIsFirstText(p);
    ReplacedInPlace(p, value);
    ReadingsAfterEdit(p, value);
    if |p.before| + |Concat(p.parts)| <= |g.before| {
      g' := EditInFront(g, p, value);
    } else {
      g' := EditBehind(g, p, value);
    }
    FindGeoIs(g');
  }

  lemma EffectiveVarFacts()
    ensures Token(EFFECTIVE_RATE_VAR) && '$' in EFFECTIVE_RATE_VAR && '#' !in EFFECTIVE_RATE_VAR
  {
    assert EFFECTIVE_RATE_VAR[0] == '$';
  }

  /** The text parts of well-formedness after an edit of the user's text. */
  lemma EditedStaysPlaced(d: Doc, d': Doc, g': Geo)
    requires WellFormed(d) && !d.hasManaged
    requires d' == d.(global := d'.global, hasManaged := d'.hasManaged, postManaged := d'.postManaged)
    requires FindGeo(d'.postManaged) == Some(g') && SilentBlock(g')
    requires ConnLimitOf(d'.postManaged) == ConnLimitOf(d.postManaged)
    ensures BlockPlaced(d') && ConnAgrees(d')
  {
    assert d.Merged() == d.postManaged && d'.Merged() == d'.postManaged;
  }

  lemma NoMarkersAfterEdit(p: Place, value: string)
    requires IsFirst(p) && Token(value) && '#' !in value
    requires !(Contains(p.Whole(), BEGIN_MARKER) && Contains(p.Whole(), END_MARKER))
    ensures !(Contains(Edited(p, value).Whole(), BEGIN_MARKER) && Contains(Edited(p, value).Whole(), END_MARKER))
  {
    MarkersAreMarkers();
    if Contains(Edited(p, value).Whole(), BEGIN_MARKER) { EditBringsNoMarker(p, value, BEGIN_MARKER); }
    if Contains(Edited(p, value).Whole(), END_MARKER) { EditBringsNoMarker(p, value, END_MARKER); }
  }

  lemma SetGlobalUnmanaged(d: Doc, rate: string)
    requires WellFormed(d) && !d.hasManaged && Unquoted(d.postManaged) && SetGlobal(d, rate).1.None?
    ensures FindLimitRate(d.postManaged).Some?
    ensures var p, d' := FindLimitRate(d.postManaged).value, SetGlobal(d, rate).0;
            && WellFormed(d') && d.postManaged == p.Whole()
            && d' == d.(global := rate, postManaged := Edited(p, rate).Whole())
  {
    hide FindLimitRate, FindGeo, Contains, ReplaceDirective, Lines, Concat, SilentBlock, ConnLimitOf, GoodRules, Unquoted;
    hide FirstRate, IsFirst, Edited, ValidRate;
    var user, d' := d.postManaged, SetGlobal(d, rate).0;
    assert d.Merged() == user;
    ValidRateChars(rate);
    EffectiveVarFacts();
    assert rate != EFFECTIVE_RATE_VAR;
    var p, g' := EditedText(user, rate);
    FindLimitRateFound(user);
    assert d' == d.(global := rate, postManaged := ReplaceDirective(user, p, rate));
    EditedStaysPlaced(d, d', g');
    NoMarkersAfterEdit(p, rate);
  }

  /**
   * A successful SetGlobal keeps the document well formed. It changes the global rate, and on an unmanaged
   * document the text of the first directive; every other character of the user's text stays.
   */
  lemma SetGlobalKeeps(d: Doc, rate: string)
    requires WellFormed(d) && SetGlobal(d, rate).1.None? && (d.hasManaged || Unquoted(d.postManaged))
    ensures WellFormed(SetGlobal(d, rate).0)
    ensures d.hasManaged ==> SetGlobal(d, rate).0 == d.(global := rate)
    ensures !d.hasManaged ==>
              && FindLimitRate(d.postManaged).Some?
              && var p := FindLimitRate(d.postManaged).value;
                 && d.postManaged == p.Whole()
                 && SetGlobal(d, rate).0 == d.(global := rate, postManaged := Edited(p, rate).Whole())
  {
    if d.hasManaged {
      ValidRateChars(rate);
      assert d.(global := rate).Merged() == d.Merged();
    } else {
      SetGlobalUnmanaged(d, rate);
    }
  }

  lemma MigrateUnmanaged(d: Doc)
    requires WellFormed(d) && !d.hasManaged && Unquoted(d.postManaged) && Migrate(d).Ok?
    ensures FindLimitRate(d.postManaged).Some?
    ensures var p, d' := FindLimitRate(d.postManaged).value, Migrate(d).value;
            && WellFormed(d') && d.postManaged == p.Whole()
            && d' == d.(hasManaged := true, postManaged := Edited(p, EFFECTIVE_RATE_VAR).Whole())
  {
    hide FindLimitRate, FindGeo, Contains, ReplaceDirective, Lines, Concat, SilentBlock, ConnLimitOf, GoodRules, Unquoted;
    var user := d.postManaged;
    assert d.Merged() == user;
    EffectiveVarFacts();
    FindLimitRateFound(user);
    var p, g' := EditedText(user, EFFECTIVE_RATE_VAR);
    var d' := d.(global := p.parts[3], hasManaged := true, postManaged := ReplaceDirective(user, p, EFFECTIVE_RATE_VAR));
    assert Migrate(d) == Ok(d');
    EditedStaysPlaced(d, d', g');
    EmptyHasNoMarkers();
  }

  /**
   * A successful Migrate keeps the document well formed, its rules and its global rate. It changes the
   * text of the first directive and no other character of the user's text.
   */
  lemma MigrateKeeps(d: Doc)
    requires WellFormed(d) && Migrate(d).Ok? && (d.hasManaged || Unquoted(d.postManaged))
    ensures WellFormed(Migrate(d).value)
    ensures d.hasManaged ==> Migrate(d).value == d
    ensures !d.hasManaged ==>
              && FindLimitRate(d.postManaged).Some?
              && var p := FindLimitRate(d.postManaged).value;
                 && d.postManaged == p.Whole()
                 && Migrate(d).value == d.(hasManaged := true, postManaged := Edited(p, EFFECTIVE_RATE_VAR).Whole())
  {
    if !d.hasManaged { MigrateUnmanaged(d); }
  }

  lemma EmptyHasNoMarkers()
    ensures !Contains("", BEGIN_MARKER) && !Contains("", END_MARKER)
  {
    MarkersAreMarkers();
  }
}

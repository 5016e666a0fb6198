/** Which lines of the user's text are directives, and where the first limit_rate directive is. */
module Directives {
  import opened Wrappers
  import opened Lists
  import opened Text
  import opened Regex
  import opened Patterns
  import opened Document

  /** The line starts with a limit_rate directive. */
  predicate HoldsRate(l: string) {
    MatchLimitRate(l).Some?
  }

  /** The line starts with a directive the reader takes a value from. */
  predicate Speaks(l: string) {
    MatchLimitRate(l).Some? || MatchLimitConn(l).Some?
  }

  /** The lines of a text that matter to the reader. */
  function Speaking(s: string): seq<string> {
    Filter(Speaks, Lines(s))
  }

  // ---- Lines that cannot be directives ----

  lemma TrimSpaceHead(a: string, m: string)
    requires All(Space, a) && m != "" && !Is(Space, m[0])
    ensures TrimSpace(a + m) != "" && TrimSpace(a + m)[0] == m[0]
  {
    RunIs(Space, a, m);
    assert TrimLeft(a + m) == m;
    TrimRightFacts(m);
  }

  lemma MatchHead(p: Pattern, s: string)
    requires |p| >= 2 && p[0] == Star(Blank) && p[1].Lit? && p[1].text != "" && p[1].text[0] == 'l'
    requires Match(p, s).Some?
    ensures TrimSpace(s) != "" && TrimSpace(s)[0] == 'l'
  {
    MatchSound(p, s);
    var (parts, rest) := Match(p, s).value;
    assert p[0].Fits(parts[0]) && p[1].Fits(parts[1]);
    var tail := parts[1..];
    assert tail[0] == parts[1];
    var m := Concat(tail) + rest;
    Assoc(parts[0], Concat(tail), rest);
    assert m[0] == 'l';
    assert All(Space, parts[0]);
    TrimSpaceHead(parts[0], m);
  }

  /** A directive's first visible character is an l. */
  lemma SpeakingHead(s: string)
    requires Speaks(s)
    ensures TrimSpace(s) != "" && TrimSpace(s)[0] == 'l'
  {
    assert LIMIT_RATE[0] == 'l' && "limit_conn"[0] == 'l';
    if MatchLimitRate(s).Some? { MatchHead(LIMIT_RATE_LINE, s); } else { MatchHead(LIMIT_CONN_PERIP, s); }
  }

  lemma KeptIsSilent(l: string)
    requires IsKept(l)
    ensures !Speaks(l)
  {
    if Speaks(l) { SpeakingHead(l); }
  }

  lemma HeadIsSilent(s: string)
    requires s != "" && !Is(Space, s[0]) && s[0] != 'l'
    ensures !Speaks(s)
  {
    TrimSpaceHead("", s);
    assert "" + s == s;
    if Speaks(s) { SpeakingHead(s); }
  }

  lemma EmptyIsSilent()
    ensures !Speaks("")
  {
    TrimSpaceBlank("");
    KeptIsSilent("");
  }

  // ---- The values depend on the speaking lines only ----

  lemma {:induction false} RateOfSpeaking(ls: seq<string>)
    ensures FirstRate(ls) == FirstRate(Filter(Speaks, ls))
  {
    if ls != [] {
      var l := ls[0];
      RateOfSpeaking(ls[1..]);
      assert ls == [l] + ls[1..];
      FilterConcat(Speaks, [l], ls[1..]);
      FilterSnoc(Speaks, [], l);
      assert [] + [l] == [l];
      var f := Filter(Speaks, ls[1..]);
      assert ([l] + f)[1..] == f;
      assert [] + f == f;
    }
  }

  lemma {:induction false} ConnOfSpeaking(ls: seq<string>)
    ensures FirstConn(ls) == FirstConn(Filter(Speaks, ls))
  {
    if ls != [] {
      var l := ls[0];
      ConnOfSpeaking(ls[1..]);
      assert ls == [l] + ls[1..];
      FilterConcat(Speaks, [l], ls[1..]);
      FilterSnoc(Speaks, [], l);
      assert [] + [l] == [l];
      var f := Filter(Speaks, ls[1..]);
      assert ([l] + f)[1..] == f;
      assert [] + f == f;
    }
  }

  /** Texts with the same speaking lines are read alike. */
  lemma SameSpeaking(s: string, t: string)
    requires Speaking(s) == Speaking(t)
    ensures FirstRate(Lines(s)) == FirstRate(Lines(t)) && ConnLimitOf(s) == ConnLimitOf(t)
  {
    RateOfSpeaking(Lines(s));
    RateOfSpeaking(Lines(t));
    ConnOfSpeaking(Lines(s));
    ConnOfSpeaking(Lines(t));
  }

  // ---- Where lines meet ----

  /** The lines of a line-terminated text, without the empty one after the last newline. */
  function FullLines(s: string): seq<string> {
    Lines(s)[..|Lines(s)| - 1]
  }

  function LastLine(s: string): string {
    Lines(s)[|Lines(s)| - 1]
  }

  function FirstLine(s: string): string {
    Lines(s)[0]
  }

  lemma {:induction false} SingleLine(s: string)
    ensures |Lines(s)| == 1 ==> Lines(s)[0] == s
  {
    if s != "" {
      SingleLine(s[1..]);
      assert s == [s[0]] + s[1..];
    }
  }

  lemma LastLineStep(c: char, t: string)
    ensures LastLine([c] + t) == if c != '\n' && |Lines(t)| == 1 then [c] + t else LastLine(t)
  {
    hide Lines;
    LinesCons(c, t);
    SingleLine(t);
  }

  lemma {:induction false} LastLineEnds(s: string)
    ensures |LastLine(s)| <= |s| && s[|s| - |LastLine(s)|..] == LastLine(s)
  {
    if s != "" {
      var c, t := s[0], s[1..];
      LastLineEnds(t);
      LastLineStep(c, t);
      hide LastLine;
      assert s == [c] + t;
      SuffixOfTail(c, t, LastLine(t));
    }
  }

  lemma SuffixOfTail(c: char, t: string, l: string)
    requires |l| <= |t| && t[|t| - |l|..] == l
    ensures var s := [c] + t; s[|s| - |l|..] == l
  {
  }

  lemma {:induction false} LastLineOfTerminated(s: string)
    ensures LineTerminated(s) <==> LastLine(s) == ""
  {
    if s != "" {
      var t := s[1..];
      LastLineOfTerminated(t);
      SingleLine(t);
    }
  }

  lemma LastLineIsSuffix(s: string)
    ensures |LastLine(s)| <= |s| && s[|s| - |LastLine(s)|..] == LastLine(s) && '\n' !in LastLine(s)
    ensures LineTerminated(s) <==> LastLine(s) == ""
  {
    LastLineEnds(s);
    LastLineOfTerminated(s);
    LinesHaveNoNewline(s);
    assert LastLine(s) in Lines(s);
  }

  /** Only the touching lines matter when lists of lines are joined. */
  lemma JoinEnds(la: seq<string>, lb: seq<string>)
    requires |la| >= 1 && |lb| >= 1
    ensures Joined(la, lb) == la[..|la| - 1] + Joined([la[|la| - 1]], lb)
    ensures Joined(la, lb) == Joined(la, [lb[0]]) + lb[1..]
  {
    var l := la[|la| - 1];
    assert [l][..0] == [];
    assert [lb[0]][1..] == [];
    assert Joined([l], lb) == [l + lb[0]] + lb[1..];
  }

  lemma LinesAfterTerminated(x: string, t: string)
    requires LineTerminated(x)
    ensures Lines(x + t) == FullLines(x) + Lines(t)
  {
    LinesOfConcat(x, t);
    LastLineOfTerminated(x);
    JoinEmpty(Lines(x), Lines(t));
  }

  lemma FullLinesAfterTerminated(x: string, t: string)
    requires LineTerminated(x)
    ensures FullLines(x + t) == FullLines(x) + FullLines(t)
  {
    LinesAfterTerminated(x, t);
    FrontOfConcat(FullLines(x), Lines(t));
  }

  lemma FrontOfConcat(a: seq<string>, b: seq<string>)
    requires |b| >= 1
    ensures (a + b)[..|a + b| - 1] == a + b[..|b| - 1]
  {
  }

  /** Only the last line of what precedes a text can run into it. */
  lemma LinesAfterLast(x: string, t: string)
    ensures Lines(x + t) == FullLines(x) + Lines(LastLine(x) + t)
  {
    LinesOfConcat(x, t);
    LinesOfConcat(LastLine(x), t);
    LastLineIsSuffix(x);
    OneLine(LastLine(x));
    JoinEnds(Lines(x), Lines(t));
  }

  /** Only the first line of what follows a text can run into it. */
  lemma LinesBeforeFirst(t: string, y: string)
    ensures Lines(t + y) == Lines(t + FirstLine(y)) + Lines(y)[1..]
  {
    LinesOfConcat(t, y);
    LinesOfConcat(t, FirstLine(y));
    LinesHaveNoNewline(y);
    OneLine(FirstLine(y));
    JoinEnds(Lines(t), Lines(y));
  }

  // ---- The first limit_rate directive ----

  lemma LimitRateIsNewlineFree()
    ensures NewlineFree(LIMIT_RATE_LINE)
  {
    assert '\n' !in LIMIT_RATE;
  }

  lemma DirectiveHasNoNewline(parts: seq<string>)
    requires Reads(LIMIT_RATE_LINE, parts)
    ensures '\n' !in Concat(parts) && Concat(parts) != "" && Concat(parts)[|Concat(parts)| - 1] == ';'
  {
    var t := Concat(parts);
    LimitRateIsNewlineFree();
    forall i | 0 <= i < |parts| ensures '\n' !in parts[i] {
      assert LIMIT_RATE_LINE[i].Fits(parts[i]);
      assert LIMIT_RATE_LINE[i] in LIMIT_RATE_LINE;
    }
    if '\n' in t { ConcatChars(parts, '\n'); }
    assert LIMIT_RATE_LINE[5].Fits(parts[5]);
    ConcatSix(parts[0], parts[1], parts[2], parts[3], parts[4], parts[5]);
    assert parts == [parts[0], parts[1], parts[2], parts[3], parts[4], parts[5]];
  }

  /** A directive's text at the start of a line is matched, whatever follows. */
  lemma DirectiveIsMatched(parts: seq<string>, rest: string)
    requires Reads(LIMIT_RATE_LINE, parts)
    ensures MatchLimitRate(Concat(parts) + rest) == Some((parts, rest))
  {
    LimitRateIsDeterministic();
    MatchComplete(LIMIT_RATE_LINE, parts, rest);
  }

  /** The place really is the first: it starts a line, and no earlier line is a directive. */
  ghost predicate IsFirst(p: Place) {
    Reads(LIMIT_RATE_LINE, p.parts) && LineTerminated(p.before) && Filter(HoldsRate, FullLines(p.before)) == []
  }

  function Behind(x: string, r: Option<Place>): Option<Place> {
    match r
    case None => None
    case Some(p) => Some(p.(before := x + "\n" + p.before))
  }

  /** A silent first line only shifts the search. */
  lemma SearchSkips(x: string, rest: string)
    requires '\n' !in x && !HoldsRate(x)
    ensures FindLimitRate(x + "\n" + rest) == Behind(x, FindLimitRate(rest))
  {
    var s := x + "\n" + rest;
    LimitRateIsNewlineFree();
    Assoc(x, "\n", rest);
    MatchAcrossNewline(LIMIT_RATE_LINE, x, rest);
    IndexOfChar(x, '\n', rest);
    assert s[|x| + 1..] == rest;
    assert s[..|x| + 1] == x + "\n";
  }

  lemma WholeBehind(x: string, p: Place)
    ensures p.(before := x + "\n" + p.before).Whole() == x + "\n" + p.Whole()
  {
  }

  lemma {:induction false} FindLimitRateIs(p: Place)
    requires IsFirst(p)
    ensures FindLimitRate(p.Whole()) == Some(p)
    decreases |p.before|
  {
    if p.before == "" {
      assert p.Whole() == Concat(p.parts) + p.after;
      DirectiveIsMatched(p.parts, p.after);
    } else {
      var n := Index(p.before, "\n");
      assert n >= 0 by { assert At(p.before, |p.before| - 1, "\n"); }
      var x, more := p.before[..n], p.before[n + 1..];
      NewlineSplit(p.before, n);
      FirstLineIsSilent(x, more);
      var p' := p.(before := more);
      FindLimitRateIs(p');
      WholeBehind(x, p');
      SearchSkips(x, p'.Whole());
    }
  }

  lemma NewlineSplit(s: string, n: nat)
    requires Index(s, "\n") == n
    ensures n < |s| && s == s[..n] + "\n" + s[n + 1..] && '\n' !in s[..n]
    ensures LineTerminated(s) ==> LineTerminated(s[n + 1..])
  {
    assert s[n..n + 1] == "\n";
    if '\n' in s[..n] {
      var i :| 0 <= i < n && s[..n][i] == '\n';
      assert At(s, i, "\n");
    }
  }

  lemma FirstLineIsSilent(x: string, more: string)
    requires '\n' !in x && Filter(HoldsRate, FullLines(x + "\n" + more)) == []
    ensures !HoldsRate(x) && Filter(HoldsRate, FullLines(more)) == []
  {
    hide Lines, Filter, HoldsRate;
    LinesAcrossNewline(x, more);
    OneLine(x);
    assert ([x] + Lines(more))[..|Lines(more)|] == [x] + FullLines(more);
    FilterConcat(HoldsRate, [x], FullLines(more));
    FilterMembers(HoldsRate, [x]);
    assert x in [x];
  }

  lemma FoundHere(s: string)
    requires HoldsRate(s)
    ensures FindLimitRate(s).Some?
    ensures var p := FindLimitRate(s).value; IsFirst(p) && s == p.Whole()
  {
    MatchSound(LIMIT_RATE_LINE, s);
    var (parts, rest) := MatchLimitRate(s).value;
    var p := Place("", parts, rest);
    assert p.Whole() == Concat(parts) + rest;
    assert FullLines("") == [];
  }

  lemma FirstBehind(x: string, p: Place)
    requires '\n' !in x && !HoldsRate(x) && IsFirst(p)
    ensures IsFirst(p.(before := x + "\n" + p.before))
  {
    FullLinesBehind(x, p.before);
    FilterConcat(HoldsRate, [x], FullLines(p.before));
    FilterSnoc(HoldsRate, [], x);
    assert [] + [x] == [x];
  }

  /** What is found is the first directive. */
  lemma {:induction false} FindLimitRateFound(s: string)
    requires FindLimitRate(s).Some?
    ensures var p := FindLimitRate(s).value; IsFirst(p) && s == p.Whole()
    decreases |s|
  {
    if HoldsRate(s) {
      FoundHere(s);
    } else {
      var n := Index(s, "\n");
      NewlineSplit(s, n);
      var x, rest := s[..n], s[n + 1..];
      FindLimitRateFound(rest);
      var p' := FindLimitRate(rest).value;
      LineIsSilent(s, x, rest);
      SearchSkips(x, rest);
      WholeBehind(x, p');
      FirstBehind(x, p');
    }
  }

  lemma LineIsSilent(s: string, x: string, rest: string)
    requires s == x + "\n" + rest && !HoldsRate(s)
    ensures !HoldsRate(x)
  {
    LimitRateIsNewlineFree();
    Assoc(x, "\n", rest);
    MatchAcrossNewline(LIMIT_RATE_LINE, x, rest);
  }

  lemma FullLinesBehind(x: string, b: string)
    requires '\n' !in x
    ensures FullLines(x + "\n" + b) == [x] + FullLines(b)
    ensures LineTerminated(b) ==> LineTerminated(x + "\n" + b)
  {
    LinesAcrossNewline(x, b);
    OneLine(x);
    assert ([x] + Lines(b))[..|Lines(b)|] == [x] + FullLines(b);
  }

  lemma NoNewlineFound(s: string)
    ensures Index(s, "\n") < 0 ==> '\n' !in s
  {
    if i :| 0 <= i < |s| && s[i] == '\n' { assert At(s, i, "\n"); }
  }

  /** Nothing is found exactly when no line is a directive. */
  lemma {:induction false} NoLimitRateIff(s: string)
    ensures FindLimitRate(s).None? <==> Filter(HoldsRate, Lines(s)) == []
    decreases |s|
  {
    var n := Index(s, "\n");
    LimitRateIsNewlineFree();
    if n < 0 {
      NoNewlineFound(s);
      OneLine(s);
      FilterSnoc(HoldsRate, [], s);
      assert [] + [s] == [s];
    } else {
      NewlineSplit(s, n);
      var x, rest := s[..n], s[n + 1..];
      assert s == x + ("\n" + rest);
      MatchAcrossNewline(LIMIT_RATE_LINE, x, rest);
      LinesAcrossNewline(x, rest);
      OneLine(x);
      NoLimitRateIff(rest);
      FilterConcat(HoldsRate, [x], Lines(rest));
      FilterSnoc(HoldsRate, [], x);
      assert [] + [x] == [x];
    }
  }

  lemma LinesOfOneThen(t: string, y: string)
    requires '\n' !in t
    ensures Lines(t + y) == [t + FirstLine(y)] + Lines(y)[1..]
  {
    LinesOfConcat(t, y);
    OneLine(t);
    assert [t][..0] == [];
  }

  /** The lines of the text around a directive. */
  lemma LinesAroundDirective(p: Place)
    requires IsFirst(p)
    ensures Lines(p.Whole()) == FullLines(p.before) + ([Concat(p.parts) + FirstLine(p.after)] + Lines(p.after)[1..])
  {
    LinesAfterTerminated(p.before, Concat(p.parts) + p.after);
    DirectiveHasNoNewline(p.parts);
    LinesOfOneThen(Concat(p.parts), p.after);
  }

  lemma FirstLineOfTerminated(z: string, t: string)
    requires z != "" && LineTerminated(z)
    ensures FirstLine(z + t) == FirstLine(z)
  {
    LinesAfterTerminated(z, t);
    SingleLine(z);
    LastLineIsSuffix(z);
    assert |FullLines(z)| > 0;
    assert FullLines(z)[0] == Lines(z)[0];
  }

  // ---- The first directive's line ----

  /** The first directive is read from the first line that holds one. */
  lemma FirstDirectiveLine(s: string)
    ensures var ls := Filter(HoldsRate, Lines(s));
            && (FindLimitRate(s).Some? <==> ls != [])
            && (ls != [] ==> MatchLimitRate(ls[0]).Some? && FindLimitRate(s).value.parts == MatchLimitRate(ls[0]).value.0)
  {
    NoLimitRateIff(s);
    if FindLimitRate(s).Some? {
      FindLimitRateFound(s);
      var p := FindLimitRate(s).value;
      var l, more := Concat(p.parts) + FirstLine(p.after), Lines(p.after)[1..];
      LinesAroundDirective(p);
      DirectiveIsMatched(p.parts, FirstLine(p.after));
      FilterConcat(HoldsRate, FullLines(p.before), [l] + more);
      FilterConcat(HoldsRate, [l], more);
      FilterSnoc(HoldsRate, [], l);
      assert [] + [l] == [l];
      assert Filter(HoldsRate, Lines(s)) == [l] + Filter(HoldsRate, more);
    }
  }

  /** Texts with the same speaking lines have the same first directive. */
  lemma SameDirective(s: string, t: string)
    requires Speaking(s) == Speaking(t)
    ensures FindLimitRate(s).Some? <==> FindLimitRate(t).Some?
    ensures FindLimitRate(s).Some? ==> FindLimitRate(s).value.parts == FindLimitRate(t).value.parts
  {
    FilterFilter(HoldsRate, Speaks, Lines(s));
    FilterFilter(HoldsRate, Speaks, Lines(t));
    FirstDirectiveLine(s);
    FirstDirectiveLine(t);
  }

  /** The text of the first directive does not occur earlier, so that a textual search finds the directive itself. */
  predicate Unquoted(s: string) {
    match FindLimitRate(s)
    case None => true
    case Some(p) => !Contains(p.before, Concat(p.parts))
  }
}

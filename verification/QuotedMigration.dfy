/**
 * Migrating a file that quotes its directive edits the quote. The block, the readings and so the rules stay
 * what they were: only the rates nginx applies are not the ones the file says.
 */
module QuotedMigration {
  import opened Wrappers
  import opened Lists
  import opened Text
  import opened Regex
  import opened Patterns
  import opened Document
  import opened PrintedLines
  import opened Directives
  import opened UserText
  import opened RoundTrip
  import opened Edits
  import opened Quotes

  // ---- A quote that is edited leaves the readings and the block alone ----

  /** Where the characters of a limit_conn directive are: its second word ends in a p. */
  lemma WordsOfConn(parts: seq<string>) returns (e: nat, v: nat, w: nat)
    requires Reads(LIMIT_CONN_PERIP, parts)
    ensures var c := Concat(parts);
            && e + 1 < v < w < |c| && c[|c| - 1] == ';' && c[e] == 'p'
            && (forall i :: e < i < v ==> Is(Blank, c[i]))
            && (forall i :: v <= i < w ==> !Is(Blank, c[i]))
            && (forall i :: w <= i < |c| - 1 ==> Is(Blank, c[i]))
            && (forall i :: 0 <= i < |c| - 1 ==> c[i] != ';')
  {
    assert forall i :: 0 <= i < 8 ==> LIMIT_CONN_PERIP[i].Fits(parts[i]);
    var lead := parts[0] + ("limit_conn" + parts[2]);
    ConcatEight(parts);
    assert ';' !in "limit_conn" && forall c :: c in lead ==> c in parts[0] || c in "limit_conn" || c in parts[2];
    assert ';' !in lead by { assert forall c :: c in parts[0] ==> Is(Blank, c); assert forall c :: c in parts[2] ==> Is(Blank, c); }
    e := |lead| + 4;
    v := e + 1 + |parts[4]|;
    w := v + |parts[5]|;
    ConnPositions(lead, parts[4], parts[5], parts[6]);
  }

  lemma ConcatEight(parts: seq<string>)
    requires |parts| == 8 && parts[1] == "limit_conn" && parts[3] == "perip" && parts[7] == ";"
    ensures Concat(parts) == (parts[0] + ("limit_conn" + parts[2])) + ("perip" + (parts[4] + (parts[5] + (parts[6] + ";"))))
  {
    var t := parts[2..];
    ConcatSix(t[0], t[1], t[2], t[3], t[4], t[5]);
    assert t == [t[0], t[1], t[2], t[3], t[4], t[5]];
    assert parts[1..][1..] == t;
    var rest := "perip" + (parts[4] + (parts[5] + (parts[6] + ";")));
    assert Concat(t) == parts[2] + rest;
    Assoc("limit_conn", parts[2], rest);
    Assoc(parts[0], "limit_conn" + parts[2], rest);
  }

  lemma ConnPositions(lead: string, gap: string, digits: string, tail: string)
    requires ';' !in lead && All(Blank, gap) && gap != "" && All(Digit, digits) && digits != "" && All(Blank, tail)
    ensures var c := lead + ("perip" + (gap + (digits + (tail + ";"))));
            var e := |lead| + 4; var v := e + 1 + |gap|; var w := v + |digits|;
            && e + 1 < v < w < |c| && c[|c| - 1] == ';' && c[e] == 'p'
            && (forall i :: e < i < v ==> Is(Blank, c[i]))
            && (forall i :: v <= i < w ==> !Is(Blank, c[i]))
            && (forall i :: w <= i < |c| - 1 ==> Is(Blank, c[i]))
            && (forall i :: 0 <= i < |c| - 1 ==> c[i] != ';')
  {
    var c := lead + ("perip" + (gap + (digits + (tail + ";"))));
    var e := |lead| + 4;
    var v := e + 1 + |gap|;
    var w := v + |digits|;
    assert forall i :: 0 <= i < |lead| ==> c[i] == lead[i];
    assert forall i :: |lead| <= i <= e ==> c[i] == "perip"[i - |lead|];
    assert "perip"[4] == 'p' && ';' !in "perip";
    assert forall i :: e < i < v ==> c[i] == gap[i - e - 1];
    assert forall i :: v <= i < w ==> c[i] == digits[i - v];
    assert forall i :: w <= i < |c| - 1 ==> c[i] == tail[i - w];
  }

  /** A limit_conn directive does not end with a limit_rate directive. */
  lemma ConnIsNoQuote(q: seq<string>, u: string, parts: seq<string>)
    requires Reads(LIMIT_CONN_PERIP, q) && Reads(LIMIT_RATE_LINE, parts)
    ensures Concat(q) != u + Concat(parts)
  {
    var e, v, w := WordsOfConn(q);
    var k, v', w' := WordsOf(parts);
    RateNameEnds(parts, k);
    hide Concat, Reads, Is;
    var c, t := Concat(q), Concat(parts);
    if c == u + t {
      BehindPrefix(u, t);
      SameLastWord(c, t, |u|, e, v, w, k + 9, v', w');
    }
  }

  lemma BehindPrefix(u: string, t: string)
    ensures forall i :: 0 <= i < |t| ==> (u + t)[|u| + i] == t[i]
  {
  }

  /** Of two texts that end alike, the words in front of the last ones end alike. */
  lemma SameLastWord(c: string, t: string, n: nat, e: nat, v: nat, w: nat, e': nat, v': nat, w': nat)
    requires e + 1 < v < w < |c| && e' + 1 <= v' < w' < |t| && |c| == n + |t|
    requires forall i :: 0 <= i < |t| ==> c[n + i] == t[i]
    requires forall i :: e < i < v ==> Is(Blank, c[i])
    requires forall i :: v <= i < w ==> !Is(Blank, c[i])
    requires forall i :: w <= i < |c| - 1 ==> Is(Blank, c[i])
    requires forall i :: e' < i < v' ==> Is(Blank, t[i])
    requires forall i :: v' <= i < w' ==> !Is(Blank, t[i])
    requires forall i :: w' <= i < |t| - 1 ==> Is(Blank, t[i])
    requires !Is(Blank, c[e]) && !Is(Blank, t[e']) && e' + 1 < v'
    ensures c[e] == t[e']
  {
    hide Is;
    assert forall i :: n <= i < |c| ==> c[i] == t[i - n];
    assert forall i :: n + e' < i < n + v' ==> Is(Blank, c[i]);
    assert forall i :: n + v' <= i < n + w' ==> !Is(Blank, c[i]);
    assert forall i :: n + w' <= i < |c| - 1 ==> Is(Blank, c[i]);
    assert !Is(Blank, c[w - 1]) && !Is(Blank, c[n + w' - 1]);
    assert w == n + w';
    assert Is(Blank, c[v - 1]) && Is(Blank, c[n + v' - 1]);
    assert v == n + v';
    assert !Is(Blank, c[n + e']);
  }

  lemma RateNameEnds(parts: seq<string>, k: nat)
    requires Reads(LIMIT_RATE_LINE, parts)
    requires k + 10 < |Concat(parts)| && forall i :: 0 <= i < k ==> Is(Blank, Concat(parts)[i])
    requires forall i :: k <= i < k + 10 ==> !Is(Blank, Concat(parts)[i])
    ensures Concat(parts)[k + 9] == 'e'
  {
    assert forall i :: 0 <= i < 6 ==> LIMIT_RATE_LINE[i].Fits(parts[i]);
    ConcatSix(parts[0], LIMIT_RATE, parts[2], parts[3], parts[4], ";");
    assert parts == [parts[0], LIMIT_RATE, parts[2], parts[3], parts[4], ";"];
    var t, n := Concat(parts), |parts[0]|;
    assert t[n] == LIMIT_RATE[0] && t[n + 9] == LIMIT_RATE[9] == 'e';
    assert forall i :: 0 <= i < n ==> t[i] == parts[0][i];
    assert forall i :: 0 <= i < n ==> Is(Blank, t[i]);
    assert !Is(Blank, t[n]) && !Is(Blank, t[k]);
    assert n == k;
  }

  /** A limit_conn directive at the start of a line ends in front of a quoted directive. */
  lemma ConnEndsInFront(q: seq<string>, rest: string, u: string, parts: seq<string>, v: string)
    requires Reads(LIMIT_CONN_PERIP, q) && Reads(LIMIT_RATE_LINE, parts)
    requires Concat(q) + rest == u + (Concat(parts) + v)
    ensures |Concat(q)| <= |u|
  {
    var e, b, w := WordsOfConn(q);
    var k', b', w' := WordsOf(parts);
    hide Concat, Is, Reads;
    if |Concat(q)| > |u| {
      SameEnd(Concat(q), rest, u, Concat(parts), v);
      ConnIsNoQuote(q, u, parts);
    }
  }

  /** It is read from its own text, whatever follows. */
  lemma ConnReadsFront(q: seq<string>, rest: string, u: string, y: string, z: string)
    requires Reads(LIMIT_CONN_PERIP, q) && Concat(q) + rest == u + y && |Concat(q)| <= |u|
    ensures MatchLimitConn(u + z) == Some(q[5])
  {
    var c := Concat(q);
    assert (c + rest)[..|c|] == c && (u + y)[..|c|] == u[..|c|];
    assert u == c + u[|c|..];
    Assoc(c, u[|c|..], z);
    LimitConnIsDeterministic();
    MatchComplete(LIMIT_CONN_PERIP, q, u[|c|..] + z);
  }

  /** What a line says of the connection limit, it says in front of a quoted directive. */
  lemma ConnInFrontOfQuote(u: string, parts: seq<string>, v: string, z: string)
    requires Reads(LIMIT_RATE_LINE, parts) && MatchLimitConn(u + (Concat(parts) + v)).Some?
    ensures MatchLimitConn(u + z) == MatchLimitConn(u + (Concat(parts) + v))
  {
    var s := u + (Concat(parts) + v);
    MatchSound(LIMIT_CONN_PERIP, s);
    var (q, rest) := Match(LIMIT_CONN_PERIP, s).value;
    ConnEndsInFront(q, rest, u, parts, v);
    ConnReadsFront(q, rest, u, Concat(parts) + v, z);
  }

  lemma ConnOfQuote(u: string, parts: seq<string>, parts': seq<string>, v: string)
    requires Reads(LIMIT_RATE_LINE, parts) && Reads(LIMIT_RATE_LINE, parts')
    ensures MatchLimitConn(u + (Concat(parts) + v)) == MatchLimitConn(u + (Concat(parts') + v))
  {
    hide MatchLimitConn, Reads, Concat;
    if MatchLimitConn(u + (Concat(parts) + v)).Some? {
      ConnInFrontOfQuote(u, parts, v, Concat(parts') + v);
    } else if MatchLimitConn(u + (Concat(parts') + v)).Some? {
      ConnInFrontOfQuote(u, parts', v, Concat(parts) + v);
    }
  }

  /** Editing a quote leaves the connection limit alone. */
  lemma QuoteKeepsConn(f: string, parts: seq<string>, parts': seq<string>, y: string)
    requires Reads(LIMIT_RATE_LINE, parts) && Reads(LIMIT_RATE_LINE, parts')
    ensures ConnLimitOf(f + (Concat(parts) + y)) == ConnLimitOf(f + (Concat(parts') + y))
  {
    DirectiveHasNoNewline(parts);
    DirectiveHasNoNewline(parts');
    hide Concat, Lines, MatchLimitConn, Reads;
    LinesAround(f, Concat(parts), y);
    LinesAround(f, Concat(parts'), y);
    var u, v := LastLine(f), FirstLine(y);
    ConnOfQuote(u, parts, parts', v);
    SameConnLine(FullLines(f), u + (Concat(parts) + v), u + (Concat(parts') + v), Lines(y)[1..]);
  }

  lemma SameConnLine(a: seq<string>, l: string, l': string, z: seq<string>)
    requires MatchLimitConn(l) == MatchLimitConn(l')
    ensures FirstConn(a + ([l] + z)) == FirstConn(a + ([l'] + z))
  {
    hide MatchLimitConn;
    ConnOfConcat(a, [l] + z);
    ConnOfConcat(a, [l'] + z);
    assert ([l] + z)[1..] == z && ([l'] + z)[1..] == z;
  }

  /** Editing a quote makes no line speak that did not. */
  lemma QuoteKeepsSilence(f: string, parts: seq<string>, parts': seq<string>, y: string)
    requires Reads(LIMIT_RATE_LINE, parts) && Reads(LIMIT_RATE_LINE, parts') && parts'[2] == " "
    requires Filter(Speaks, Lines(f + (Concat(parts) + y))) == []
    ensures Filter(Speaks, Lines(f + (Concat(parts') + y))) == []
  {
    DirectiveHasNoNewline(parts);
    DirectiveHasNoNewline(parts');
    hide Concat, Lines, MatchLimitConn, Reads, MatchLimitRate;
    LinesAround(f, Concat(parts), y);
    LinesAround(f, Concat(parts'), y);
    var u, v := LastLine(f), FirstLine(y);
    var l, l' := u + (Concat(parts) + v), u + (Concat(parts') + v);
    ConnOfQuote(u, parts, parts', v);
    OneLineSilent(FullLines(f), l, Lines(y)[1..]);
    QuoteStaysSilent(u, parts, parts', v);
    OneLineSilent(FullLines(f), l', Lines(y)[1..]);
  }

  lemma OneLineSilent(a: seq<string>, l: string, z: seq<string>)
    ensures Filter(Speaks, a + ([l] + z)) == [] <==>
            Filter(Speaks, a) == [] && !Speaks(l) && Filter(Speaks, z) == []
  {
    hide Speaks;
    FilterConcat(Speaks, a, [l] + z);
    FilterConcat(Speaks, [l], z);
    FilterSnoc(Speaks, [], l);
    assert [] + [l] == [l];
  }

  // ---- The block around an edited quote ----

  lemma WithinParts(a: string, b: string, c: string, f: string, t: string, y: string) returns (u: string, z: string)
    requires a + (b + c) == f + (t + y) && |a| <= |f| && |f| + |t| <= |a| + |b|
    ensures f == a + u && b == u + (t + z) && y == z + c
  {
    u := FrontCut(a, b + c, f, t + y);
    z := FrontCut(u + t, y, b, c);
    Assoc(u, t, y);
    Assoc(u, t, z);
  }

  /** A text put together in two ways: the longer front starts with the shorter one. */
  lemma FrontCut(a: string, x: string, f: string, y: string) returns (u: string)
    requires a + x == f + y && |a| <= |f|
    ensures f == a + u && x == u + y
  {
    u := f[|a|..];
    assert a == (a + x)[..|a|] == (f + y)[..|a|] == f[..|a|];
    assert x == (a + x)[|a|..] == (f + y)[|a|..];
  }

  /** A stretch t that lies in the middle one of three texts. */
  lemma Within(a: string, b: string, c: string, f: string, t: string, y: string) returns (u: string, z: string)
    requires a + (b + c) == f + (t + y) && |a| <= |f| && |f| + |t| <= |a| + |b|
    ensures f == a + u && b == u + (t + z) && y == z + c
    ensures forall t': string {:trigger t' + z} :: a + ((u + (t' + z)) + c) == f + (t' + y)
  {
    u, z := WithinParts(a, b, c, f, t, y);
    forall t': string ensures a + ((u + (t' + z)) + c) == f + (t' + y) {
      Assoc(t', z, c);
      Assoc(u, t' + z, c);
      Assoc(a, u, t' + (z + c));
    }
  }

  lemma BlockShape(g: Geo)
    ensures g.Whole() == "" + (g.before + (g.Block() + g.after))
    ensures g.Whole() == (g.before + g.header) + (g.body + ("}" + g.after))
    ensures g.Whole() == (g.before + g.Block()) + (g.after + "")
  {
    WholeShape(g);
    Assoc(g.before, g.Block(), g.after);
  }

  /** The block is the same block after a quote in front of it, in it or behind it was edited. */
  lemma BlockAroundQuote(g: Geo, f: string, parts: seq<string>, parts': seq<string>, y: string) returns (g': Geo)
    requires IsGeo(g) && SilentBlock(g) && g.Whole() == f + (Concat(parts) + y)
    requires Reads(LIMIT_RATE_LINE, parts) && Reads(LIMIT_RATE_LINE, parts') && parts'[2] == " "
    requires '}' !in Concat(parts) && '}' !in Concat(parts')
    ensures IsGeo(g') && SilentBlock(g') && g'.Whole() == f + (Concat(parts') + y) && g'.header == g.header
  {
    hide Concat, Reads, SilentBlock, HeaderFree, IsHeader;
    var t, t', a := Concat(parts), Concat(parts'), |g.before|;
    BlockShape(g);
    HeaderIsThere(g);
    HeaderAvoidsDirective(f, parts, y, a, g.header);
    BraceIsThere(g);
    assert forall i :: |f| <= i < |f| + |t| ==> g.Whole()[i] == t[i - |f|];
    if |f| + |t| <= a {
      var u, z := Within("", g.before, g.Block() + g.after, f, t, y);
      g' := g.(before := u + (t' + z));
      EditedIsHeaderFree(u, parts, parts', z);
      QuoteInFrontIsSilent(g, u, parts, parts', z);
    } else if |f| + |t| <= a + |g.header| + |g.body| {
      var u, z := Within(g.before + g.header, g.body, "}" + g.after, f, t, y);
      g' := g.(body := u + (t' + z));
      assert '}' !in u && '}' !in z;
      QuoteInBodyIsSilent(g, u, parts, parts', z);
    } else {
      var u, z := Within(g.before + g.Block(), g.after, "", f, t, y);
      g' := g.(after := u + (t' + z));
      QuoteBehindIsSilent(g, u, parts, parts', z);
    }
    BlockShape(g');
  }

  lemma HeaderIsThere(g: Geo)
    ensures At(g.Whole(), |g.before|, g.header)
  {
    BlockShape(g);
    var s, n := g.Whole(), |g.before|;
    assert s[..n + |g.header|] == g.before + g.header;
    assert s[n..n + |g.header|] == g.header;
  }

  lemma BraceIsThere(g: Geo)
    ensures |g.before| + |g.header| + |g.body| < |g.Whole()|
    ensures g.Whole()[|g.before| + |g.header| + |g.body|] == '}'
  {
    BlockShape(g);
  }

  lemma QuoteInFrontIsSilent(g: Geo, u: string, parts: seq<string>, parts': seq<string>, z: string)
    requires SilentBlock(g) && g.before == u + (Concat(parts) + z)
    requires Reads(LIMIT_RATE_LINE, parts) && Reads(LIMIT_RATE_LINE, parts') && parts'[2] == " "
    ensures SilentBlock(g.(before := u + (Concat(parts') + z)))
  {
    DirectiveHasNoNewline(parts);
    DirectiveHasNoNewline(parts');
    hide Concat, Reads, Lines, Speaks;
    var t, t', w, r := Concat(parts), Concat(parts'), z + g.header, g.body + "}" + FirstLine(g.after);
    BeforeThenHeader(u, t, z, g.header);
    BeforeThenHeader(u, t', z, g.header);
    if |Lines(w)| > 1 {
      LastLineOfLonger(u + t, w);
      LastLineOfLonger(u + t', w);
      Assoc(u, t, w);
      Assoc(u, t', w);
    } else {
      LastLineWithQuote(u, t, w);
      LastLineWithQuote(u, t', w);
      QuoteAssoc(LastLine(u), t, w, r);
      QuoteAssoc(LastLine(u), t', w, r);
      QuoteKeepsSilence(LastLine(u), parts, parts', w + r);
    }
  }

  lemma QuoteAssoc(u: string, t: string, w: string, r: string)
    ensures (u + (t + w)) + r == u + (t + (w + r))
  {
    Assoc(t, w, r);
    Assoc(u, t + w, r);
  }

  lemma LastLineOfLonger(x: string, w: string)
    requires |Lines(w)| > 1
    ensures LastLine(x + w) == LastLine(w)
  {
    LinesOfConcat(x, w);
    JoinEnds(Lines(x), Lines(w));
  }

  lemma LastLineWithQuote(u: string, t: string, w: string)
    requires '\n' !in t && |Lines(w)| == 1
    ensures LastLine(u + (t + w)) == LastLine(u) + (t + w)
  {
    LinesAround(u, t, w);
    SingleLine(w);
    assert Lines(w)[1..] == [];
  }

  lemma QuoteInBodyIsSilent(g: Geo, u: string, parts: seq<string>, parts': seq<string>, z: string)
    requires SilentBlock(g) && g.body == u + (Concat(parts) + z)
    requires Reads(LIMIT_RATE_LINE, parts) && Reads(LIMIT_RATE_LINE, parts') && parts'[2] == " "
    ensures SilentBlock(g.(body := u + (Concat(parts') + z)))
  {
    hide Concat, Reads, Lines, Speaks;
    var l, r := LastLine(g.before + g.header), "}" + FirstLine(g.after);
    BodyAssoc(l, u, Concat(parts), z, FirstLine(g.after));
    BodyAssoc(l, u, Concat(parts'), z, FirstLine(g.after));
    QuoteKeepsSilence(l + u, parts, parts', z + r);
  }

  lemma BodyAssoc(l: string, u: string, t: string, z: string, q: string)
    ensures l + ((u + (t + z)) + "}" + q) == (l + u) + (t + (z + ("}" + q)))
  {
    Assoc(u + (t + z), "}", q);
    QuoteAssoc(u, t, z, "}" + q);
    Assoc(l, u, t + (z + ("}" + q)));
  }

  lemma QuoteBehindIsSilent(g: Geo, u: string, parts: seq<string>, parts': seq<string>, z: string)
    requires SilentBlock(g) && g.after == u + (Concat(parts) + z)
    requires Reads(LIMIT_RATE_LINE, parts) && Reads(LIMIT_RATE_LINE, parts') && parts'[2] == " "
    ensures SilentBlock(g.(after := u + (Concat(parts') + z)))
  {
    DirectiveHasNoNewline(parts);
    DirectiveHasNoNewline(parts');
    hide Concat, Reads, Lines, Speaks;
    var l, t, t' := LastLine(g.before + g.header), Concat(parts), Concat(parts');
    if |Lines(u)| > 1 {
      FirstLineOfLonger(u, t + z);
      FirstLineOfLonger(u, t' + z);
    } else {
      FirstLineWithQuote(u, t, z);
      FirstLineWithQuote(u, t', z);
      BehindAssoc(l, g.body, u, t, FirstLine(z));
      BehindAssoc(l, g.body, u, t', FirstLine(z));
      QuoteKeepsSilence(l + (g.body + "}" + u), parts, parts', FirstLine(z));
    }
  }

  lemma BehindAssoc(l: string, b: string, u: string, t: string, q: string)
    ensures l + (b + "}" + (u + (t + q))) == (l + (b + "}" + u)) + (t + q)
  {
    Assoc(b + "}", u, t + q);
    Assoc(l, b + "}" + u, t + q);
  }

  lemma FirstLineOfLonger(u: string, w: string)
    requires |Lines(u)| > 1
    ensures FirstLine(u + w) == FirstLine(u)
  {
    LinesOfConcat(u, w);
    JoinEnds(Lines(u), Lines(w));
  }

  lemma FirstLineWithQuote(u: string, t: string, z: string)
    requires |Lines(u)| == 1 && '\n' !in t
    ensures FirstLine(u + (t + z)) == u + (t + FirstLine(z))
  {
    SingleLine(u);
    LinesHaveNoNewline(u);
    assert u in Lines(u);
    LinesOfOneThen(u, t + z);
    LinesOfOneThen(t, z);
  }

  // ---- Migrating a file that quotes its directive ----

  lemma DirectiveHasNoBrace(parts: seq<string>)
    requires Reads(LIMIT_RATE_LINE, parts) && '}' !in parts[3]
    ensures '}' !in Concat(parts)
  {
    assert forall i :: 0 <= i < 6 ==> LIMIT_RATE_LINE[i].Fits(parts[i]);
    assert '}' !in LIMIT_RATE && '}' !in ";";
    assert forall i :: 0 <= i < 6 ==> '}' !in parts[i];
    if '}' in Concat(parts) { ConcatChars(parts, '}'); }
  }

  /** The edit of a quote, seen in the whole text. */
  lemma QuoteInText(p: Place, value: string) returns (f: string, y: string)
    requires IsFirst(p) && Contains(p.before, Concat(p.parts)) && Token(value)
    ensures p.Whole() == f + (Concat(p.parts) + y) && |f| == Index(p.Whole(), Concat(p.parts))
    ensures ReplaceDirective(p.Whole(), p, value) == f + (Concat(NewParts(p, value)) + y)
  {
    DirectiveHasNoNewline(p.parts);
    hide ReplaceDirective, Contains, Concat, NewParts, Reads, Filter, HoldsRate, FullLines, At, IsFirst, Token;
    var t, t', b := Concat(p.parts), Concat(NewParts(p, value)), p.before;
    OccursInFront(p);
    var x, i := EarlierTextIsEdited(p, value);
    f, y := QuoteSplit(b, i, t, t', t + p.after, x);
  }

  lemma QuoteSplit(b: string, i: int, t: string, t': string, tail: string, x: string) returns (f: string, y: string)
    requires At(b, i, t) && x == b[..i] + t' + b[i + |t|..]
    ensures b + tail == f + (t + y) && x + tail == f + (t' + y) && |f| == i
  {
    f, y := b[..i], b[i + |t|..] + tail;
    assert b == f + (t + b[i + |t|..]);
    QuoteAssoc(f, t, b[i + |t|..], tail);
    Assoc(f, t', b[i + |t|..]);
    QuoteAssoc(f, t', b[i + |t|..], tail);
  }

  /** The text with the quote edited: its block, its first directive and its connection limit are what they were. */
  lemma QuotedText(user: string, value: string) returns (g': Geo)
    requires DirectivePlaced(user) && FindLimitRate(user).Some? && !Unquoted(user) && Token(value) && '}' !in value
    requires FindGeo(user).Some? && SilentBlock(FindGeo(user).value)
    ensures var p := FindLimitRate(user).value;
            var user' := ReplaceDirective(user, p, value);
            && FindGeo(user') == Some(g') && SilentBlock(g') && g'.header == FindGeo(user).value.header
            && FindLimitRate(user').Some? && FindLimitRate(user').value.parts == p.parts
            && ConnLimitOf(user') == ConnLimitOf(user)
  {
    hide FindGeo, FindLimitRate, ReplaceDirective, Contains, Concat, SilentBlock, Lines, ConnLimitOf, Reads;
    FindLimitRateFound(user);
    FindGeoFound(user);
    QuotedStays(user, value);
    var p := FindLimitRate(user).value;
    var f, y := QuoteInText(p, value);
    NewPartsRead(p, value);
    DirectiveHasNoBrace(p.parts);
    DirectiveHasNoBrace(NewParts(p, value));
    QuoteKeepsConn(f, p.parts, NewParts(p, value), y);
    g' := BlockAroundQuote(FindGeo(user).value, f, p.parts, NewParts(p, value), y);
    FindGeoIs(g');
  }

  lemma VarHasNoBrace()
    ensures '}' !in EFFECTIVE_RATE_VAR
  {
  }

  lemma QuotedMigrate(d: Doc)
    requires WellFormed(d) && !d.hasManaged && !Unquoted(d.postManaged) && Migrate(d).Ok?
    ensures var d' := Migrate(d).value;
            && WellFormed(d') && d' == d.(hasManaged := true, postManaged := d'.postManaged)
            && FindLimitRate(d.postManaged).Some? && FindLimitRate(d'.postManaged).Some?
            && FindLimitRate(d'.postManaged).value.parts == FindLimitRate(d.postManaged).value.parts
            && FindGeo(d.postManaged).Some? && FindGeo(d'.postManaged).Some?
            && FindGeo(d'.postManaged).value.header == FindGeo(d.postManaged).value.header
  {
    hide FindLimitRate, FindGeo, Contains, ReplaceDirective, Lines, Concat, SilentBlock, ConnLimitOf, GoodRules, Unquoted;
    var user := d.postManaged;
    assert d.Merged() == user;
    EffectiveVarFacts();
    VarHasNoBrace();
    FindLimitRateFound(user);
    var p := FindLimitRate(user).value;
    var g' := QuotedText(user, EFFECTIVE_RATE_VAR);
    RateAroundDirective(p);
    var d' := d.(global := p.parts[3], hasManaged := true, postManaged := ReplaceDirective(user, p, EFFECTIVE_RATE_VAR));
    assert Migrate(d) == Ok(d');
    EditedStaysPlaced(d, d', g');
    EmptyHasNoMarkers();
  }

  /**
   * From a document to its migrated one the text is the same but for the first place where the text of the
   * directive stands, a quote in front of the directive: there the value is replaced.
   */
  ghost predicate QuoteMigrated(d: Doc, d': Doc) {
    && !d.hasManaged && FindLimitRate(d.postManaged).Some? && !Unquoted(d.postManaged)
    && d' == d.(hasManaged := true, postManaged := d'.postManaged)
    && var p := FindLimitRate(d.postManaged).value;
       exists front, back ::
         && d.postManaged == front + (Concat(p.parts) + back) && |front| == Index(d.postManaged, Concat(p.parts))
         && d'.postManaged == front + (Concat(NewParts(p, EFFECTIVE_RATE_VAR)) + back)
  }

  lemma MigrateEditsQuote(d: Doc)
    requires WellFormed(d) && !d.hasManaged && !Unquoted(d.postManaged) && Migrate(d).Ok?
    ensures QuoteMigrated(d, Migrate(d).value)
  {
    hide FindLimitRate, FindGeo, Contains, Concat, WellFormed, ReplaceDirective;
    QuotedMigrate(d);
    EffectiveVarFacts();
    FindLimitRateFound(d.postManaged);
    var front, back := QuoteInText(FindLimitRate(d.postManaged).value, EFFECTIVE_RATE_VAR);
  }

  /**
   * Migrating keeps a document well formed, with its rules and its global rate, whether the directive is quoted
   * earlier or not. If it is, the first directive stays the literal one.
   */
  lemma MigrateStaysWellFormed(d: Doc)
    requires WellFormed(d) && Migrate(d).Ok?
    ensures var d' := Migrate(d).value;
            WellFormed(d') && d' == d.(hasManaged := true, postManaged := d'.postManaged)
    ensures !d.hasManaged && !Unquoted(d.postManaged) ==>
              && FindLimitRate(d.postManaged).Some? && FindLimitRate(Migrate(d).value.postManaged).Some?
              && FindLimitRate(Migrate(d).value.postManaged).value.parts == FindLimitRate(d.postManaged).value.parts
  {
    hide FindLimitRate, FindGeo, WellFormed, Unquoted, Migrate;
    if d.hasManaged || Unquoted(d.postManaged) { MigrateKeeps(d); } else { QuotedMigrate(d); }
  }
}

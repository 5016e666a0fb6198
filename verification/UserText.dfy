/** How the user's text fares when its geo block is rewritten or its directive replaced. */
module UserText {
  import opened Lists
  import opened Text
  import opened Regex
  import opened Patterns
  import opened Overrides
  import opened Document
  import opened PrintedLines
  import opened ManagedRead
  import opened Rewrite
  import opened Directives

  // ---- Rewriting the block leaves the speaking lines alone ----

  /** The lines the body of the block touches, from the one with its opening to the one with its end. */
  function TouchedLines(g: Geo): seq<string> {
    Lines(LastLine(g.before + g.header) + (g.body + "}" + FirstLine(g.after)))
  }

  /** No directive is on a line the block's body touches. */
  predicate SilentBlock(g: Geo) {
    Filter(Speaks, TouchedLines(g)) == []
  }

  function Rewritten(g: Geo, os: seq<Override>): Geo {
    g.(body := NewBody(g.body, os))
  }

  lemma SpeakingAroundBlock(g: Geo)
    ensures Speaking(g.Whole()) ==
            Filter(Speaks, FullLines(g.before + g.header)) + Filter(Speaks, TouchedLines(g)) +
            Filter(Speaks, Lines(g.after)[1..])
  {
    hide Lines, FullLines, FirstLine, LastLine, Filter;
    var p, b := g.before + g.header, g.body + "}";
    var l := LastLine(p);
    WholeIs(g);
    LinesAfterLast(p, b + g.after);
    Assoc(l, b, g.after);
    LinesBeforeFirst(l + b, g.after);
    Assoc(l, b, FirstLine(g.after));
    FilterConcat(Speaks, FullLines(p), TouchedLines(g) + Lines(g.after)[1..]);
    FilterConcat(Speaks, TouchedLines(g), Lines(g.after)[1..]);
  }

  lemma WholeIs(g: Geo)
    ensures g.Whole() == (g.before + g.header) + ((g.body + "}") + g.after)
  {
    var b := g.body + "}";
    assert g.Block() == g.header + b;
    Assoc(g.before, g.header, b);
    Assoc(g.before + g.header, b, g.after);
  }

  /** The opening's own piece of its line is silent if the whole line is. */
  lemma OpeningIsSilent(g: Geo)
    requires SilentBlock(g)
    ensures !Speaks(LastLine(g.before + g.header))
  {
    var l := LastLine(g.before + g.header);
    var t := g.body + "}" + FirstLine(g.after);
    LinesOfConcat(l, t);
    LastLineIsSuffix(g.before + g.header);
    OneLine(l);
    var first := l + Lines(t)[0];
    assert TouchedLines(g)[0] == first;
    FilterMembers(Speaks, TouchedLines(g));
    assert first in TouchedLines(g);
    if Speaks(l) { SpeakingExtends(l, Lines(t)[0]); }
  }

  lemma SpeakingExtends(l: string, more: string)
    requires Speaks(l)
    ensures Speaks(l + more)
  {
    LimitRateIsDeterministic();
    LimitConnIsDeterministic();
    if MatchLimitRate(l).Some? { MatchExtends(LIMIT_RATE_LINE, l, more); } else { MatchExtends(LIMIT_CONN_PERIP, l, more); }
  }

  lemma LimitConnIsDeterministic()
    ensures Deterministic(LIMIT_CONN_PERIP)
  {
    var p := LIMIT_CONN_PERIP;
    assert Deterministic([Lit(";")]);
    assert Deterministic([Star(Blank), Lit(";")]);
    assert Stops([Star(Blank), Lit(";")], Digit);
    assert Deterministic([Plus(Digit), Star(Blank), Lit(";")]);
    assert Deterministic([Plus(Blank), Plus(Digit), Star(Blank), Lit(";")]);
    assert Deterministic([Lit("perip"), Plus(Blank), Plus(Digit), Star(Blank), Lit(";")]);
    assert p[3..] == [Lit("perip"), Plus(Blank), Plus(Digit), Star(Blank), Lit(";")];
    assert Stops(p[3..], Blank);
    assert p[2..] == [Plus(Blank)] + p[3..];
    assert Deterministic(p[2..]);
    assert p[1..] == [Lit("limit_conn")] + p[2..];
    assert Deterministic(p[1..]);
    assert Stops(p[1..], Blank);
  }

  lemma {:induction false} ExemptLinesAreSilent(os: seq<Override>)
    requires forall o :: o in os ==> EntryIP(o.ip)
    ensures Filter(Speaks, ExemptLines(os)) == []
  {
    if os != [] {
      var front, last := os[..|os| - 1], os[|os| - 1];
      assert last in os && forall o :: o in front ==> o in os;
      ExemptLinesAreSilent(front);
      if last.exempt {
        EntryIsSilent(last.ip);
        FilterSnoc(Speaks, ExemptLines(front), EntryLine(last.ip, "0"));
      }
    }
  }

  lemma EntryIsSilent(ip: string)
    requires EntryIP(ip)
    ensures !Speaks(EntryLine(ip, "0"))
  {
    EntryTextShape(ip, "0");
    EntryTextIsTrimmed(ip, "0");
    assert Is(IPChar, ip[0]);
    if Speaks(EntryLine(ip, "0")) { SpeakingHead(EntryLine(ip, "0")); }
  }

  lemma {:induction false} KeptLinesAreSilent(ls: seq<string>)
    requires AllKept(ls)
    ensures Filter(Speaks, ls) == []
  {
    FilterMembers(IsKept, ls);
    forall l | l in ls ensures !Speaks(l) {
      KeptIsSilent(l);
    }
    FilterNothing(Speaks, ls);
  }

  /** Of the lines a rewritten block touches, only the one with the opening can hold a directive. */
  lemma TouchedAfterRewrite(g: Geo, os: seq<Override>)
    requires forall o :: o in os ==> EntryIP(o.ip)
    ensures Filter(Speaks, TouchedLines(Rewritten(g, os))) == Filter(Speaks, [LastLine(g.before + g.header)])
  {
    var l, q := LastLine(g.before + g.header), FirstLine(g.after);
    var ls := UserLines(g.body) + ExemptLines(os);
    UserLinesFacts(g.body);
    ExemptLinesChars(os);
    LinesHaveNoNewline(g.body);
    LinesHaveNoNewline(g.after);
    LastLineIsSuffix(g.before + g.header);
    TouchedByNewBody(l, ls, q);
    assert ("}" + q)[0] == '}';
    HeadIsSilent("}" + q);
    KeptLinesAreSilent(UserLines(g.body));
    ExemptLinesAreSilent(os);
    FilterConcat(Speaks, UserLines(g.body), ExemptLines(os));
    FilterSnoc(Speaks, [l] + ls, "}" + q);
    FilterConcat(Speaks, [l], ls);
  }

  /** The rewritten block is silent too. */
  lemma RewriteIsSilent(g: Geo, os: seq<Override>)
    requires SilentBlock(g) && forall o :: o in os ==> EntryIP(o.ip)
    ensures SilentBlock(Rewritten(g, os))
  {
    var l := LastLine(g.before + g.header);
    OpeningIsSilent(g);
    TouchedAfterRewrite(g, os);
    FilterSnoc(Speaks, [], l);
    assert [] + [l] == [l];
  }

  lemma TouchedByNewBody(l: string, ls: seq<string>, q: string)
    requires '\n' !in l && NoNewlines(ls) && '\n' !in q
    ensures Lines(l + ("\n" + Terminated(ls) + "}" + q)) == [l] + ls + ["}" + q]
  {
    var t, rest := Terminated(ls), "}" + q;
    Assoc("\n" + t, "}", q);
    Assoc("\n", t, rest);
    Assoc(l, "\n", t + rest);
    NewBodyBetween(l, ls, rest);
  }

  lemma NewBodyBetween(l: string, ls: seq<string>, rest: string)
    requires '\n' !in l && NoNewlines(ls) && '\n' !in rest
    ensures Lines(l + "\n" + (Terminated(ls) + rest)) == [l] + ls + [rest]
  {
    LinesAcrossNewline(l, Terminated(ls) + rest);
    TerminatedLines(ls, rest);
    OneLine(l);
    OneLine(rest);
    assert [l] + (ls + [rest]) == [l] + ls + [rest];
  }

  /** Rewriting a silent block changes nothing the reader takes from the rest of the text. */
  lemma RewriteKeepsSpeaking(g: Geo, os: seq<Override>)
    requires SilentBlock(g) && forall o :: o in os ==> EntryIP(o.ip)
    ensures Speaking(Rewritten(g, os).Whole()) == Speaking(g.Whole())
  {
    RewriteIsSilent(g, os);
    SpeakingAroundBlock(g);
    SpeakingAroundBlock(Rewritten(g, os));
  }

  /**
   * Rewriting any block keeps the directives of the text if and only if none is on a line the body touches, unless
   * it stands in front of the opening and the opening ends its line: a directive in the body is dropped.
   */
  lemma RewriteKeepsSpeakingIff(g: Geo, os: seq<Override>)
    requires forall o :: o in os ==> EntryIP(o.ip)
    ensures Speaking(Rewritten(g, os).Whole()) == Speaking(g.Whole()) <==>
            Filter(Speaks, TouchedLines(g)) == Filter(Speaks, [LastLine(g.before + g.header)])
  {
    hide Lines, FullLines, LastLine, Filter;
    SpeakingAroundBlock(g);
    SpeakingAroundBlock(Rewritten(g, os));
    TouchedAfterRewrite(g, os);
    var p := g.before + g.header;
    SameMiddle(Filter(Speaks, FullLines(p)), Filter(Speaks, TouchedLines(g)), Filter(Speaks, [LastLine(p)]),
               Filter(Speaks, Lines(g.after)[1..]));
  }

  lemma SameMiddle(a: seq<string>, b: seq<string>, b': seq<string>, c: seq<string>)
    ensures a + b + c == a + b' + c <==> b == b'
  {
    if a + b + c == a + b' + c {
      assert |b| == |b'|;
      assert b == (a + b + c)[|a|..|a| + |b|] && b' == (a + b' + c)[|a|..|a| + |b|];
    }
  }

  lemma RewrittenIsGeo(g: Geo, os: seq<Override>)
    requires IsGeo(g) && forall o :: o in os ==> EntryIP(o.ip)
    ensures IsGeo(Rewritten(g, os))
  {
    NewBodyLines(g.body, os);
  }

  // ---- A blank line at the cut ----

  /** Whether a blank line follows a line-terminated text makes no difference to the reader. */
  lemma BlankLineIsSilent(pre: string, post: string)
    requires LineTerminated(pre)
    ensures Speaking(pre + ("\n" + post)) == Speaking(pre + post)
  {
    hide Speaks, Lines;
    LinesAfterTerminated(pre, post);
    LinesAfterTerminated(pre, "\n" + post);
    assert "" + "\n" + post == "\n" + post;
    LinesAcrossNewline("", post);
    OneLine("");
    EmptyIsSilent();
    FilterConcat(Speaks, FullLines(pre), Lines(post));
    FilterConcat(Speaks, FullLines(pre), [""] + Lines(post));
    FilterConcat(Speaks, [""], Lines(post));
    FilterSnoc(Speaks, [], "");
    assert [] + [""] == [""];
    assert [] + Filter(Speaks, Lines(post)) == Filter(Speaks, Lines(post));
  }

  /** Nor does it let an opening appear across the cut. */
  lemma BlankLineIsHeaderFree(pre: string, mid: string)
    requires LineTerminated(pre) && HeaderFree(pre + mid)
    ensures HeaderFree(pre + ("\n" + mid))
  {
    forall i, h | At(pre + ("\n" + mid), i, h) ensures !IsHeader(h) {
      if IsHeader(h) { var j, h' := HeaderMovesUp(pre, mid, i, h); }
    }
  }

  /** An opening around a blank line is there without the blank line too, at most one character earlier. */
  lemma HeaderMovesUp(pre: string, mid: string, i: int, h: string) returns (j: int, h': string)
    requires LineTerminated(pre) && IsHeader(h) && At(pre + ("\n" + mid), i, h)
    ensures IsHeader(h') && At(pre + mid, j, h')
    ensures j + |h'| == if i + |h| <= |pre| then i + |h| else i + |h| - 1
  {
    var s, t := pre + ("\n" + mid), pre + mid;
    var n, e := |pre|, i + |h|;
    HeaderFacts(h);
    assert s[i..e][0] == s[i] == h[0];
    if e <= n {
      j, h' := i, h;
      assert t[i..e] == s[i..e];
    } else if i < n {
      j := i;
      h' := HeaderAcrossBlank(pre, mid, i, h);
    } else {
      assert s[n] == '\n';
      j, h' := i - 1, h;
      assert t[i - 1..e - 1] == s[i..e];
    }
  }

  lemma HeaderAcrossBlank(pre: string, mid: string, i: nat, h: string) returns (h': string)
    requires LineTerminated(pre) && IsHeader(h)
    requires At(pre + ("\n" + mid), i, h) && i < |pre| < i + |h|
    ensures IsHeader(h') && At(pre + mid, i, h') && |h'| == |h| - 1
  {
    hide Concat, Reads;
    var s, t := pre + ("\n" + mid), pre + mid;
    var n, j := |pre|, i + |h|;
    HeaderFacts(h);
    assert forall k :: 0 <= k < |h| ==> h[k] == s[i + k];
    assert h[n - i] == s[n] == '\n' && h[n - i - 1] == s[n - 1] == pre[n - 1] == '\n';
    ShorterHeader(h, n - i);
    h' := h[..n - i] + h[n - i + 1..];
    assert forall k :: n <= k < |t| ==> t[k] == s[k + 1];
    assert forall k :: 0 <= k < n ==> t[k] == s[k];
    assert |h'| == |h| - 1;
    assert forall k :: 0 <= k < |h'| ==> h'[k] == t[i + k];
    assert t[i..i + |h'|] == h';
  }

  /** Dropping one of two adjacent white space characters of an opening leaves an opening. */
  lemma ShorterHeader(h: string, k: nat)
    requires IsHeader(h) && 0 < k < |h| - 1
    requires Is(ReSpace, h[k - 1]) && Is(ReSpace, h[k])
    ensures IsHeader(h[..k] + h[k + 1..])
  {
    var gap, tail := HeaderParts(h);
    var a := WhereSpaces(h, gap, tail, k);
    if k < a {
      CutMiddle("geo", gap, "$rate_limit" + (tail + "{"), k - 3);
      HeaderFrom(gap[..k - 3] + gap[k - 2..], tail);
    } else {
      var m := k - a - 11;
      var lead := "geo" + (gap + "$rate_limit");
      Assoc(gap, "$rate_limit", tail + "{");
      Assoc("geo", gap + "$rate_limit", tail + "{");
      CutMiddle(lead, tail, "{", m);
      var tail' := tail[..m] + tail[m + 1..];
      Assoc(gap, "$rate_limit", tail' + "{");
      Assoc("geo", gap + "$rate_limit", tail' + "{");
      HeaderFrom(gap, tail');
    }
  }

  lemma WhereSpaces(h: string, gap: string, tail: string, k: nat) returns (a: nat)
    requires h == "geo" + (gap + ("$rate_limit" + (tail + "{")))
    requires 0 < k < |h| - 1 && Is(ReSpace, h[k - 1]) && Is(ReSpace, h[k])
    ensures a == 3 + |gap| && (3 < k < a || a + 11 < k < |h| - 1)
  {
    a := 3 + |gap|;
    var v := "$rate_limit";
    assert forall i :: a <= i < a + 11 ==> h[i] == v[i - a];
    assert h[0] == 'g' && h[1] == 'e' && h[2] == 'o';
  }

  lemma CutMiddle(x: string, s: string, y: string, j: nat)
    requires j < |s|
    ensures var t := x + (s + y); t[..|x| + j] + t[|x| + j + 1..] == x + ((s[..j] + s[j + 1..]) + y)
  {
    var t := x + (s + y);
    assert t[..|x| + j] == x + s[..j];
    assert t[|x| + j + 1..] == s[j + 1..] + y;
  }

  lemma HeaderFrom(gap: string, tail: string)
    requires gap != "" && All(ReSpace, gap) && All(ReSpace, tail)
    ensures IsHeader("geo" + (gap + ("$rate_limit" + (tail + "{"))))
  {
    var parts := ["geo", gap, "$rate_limit", tail, "{"];
    assert Reads(GEO_OPENING, parts);
    assert Concat(["{"]) == "{";
    assert Concat([tail, "{"]) == tail + "{";
    assert Concat(["$rate_limit", tail, "{"]) == "$rate_limit" + (tail + "{");
    assert Concat([gap, "$rate_limit", tail, "{"]) == gap + ("$rate_limit" + (tail + "{"));
  }

  // ---- What a rewrite can bring into a text ----

  lemma {:induction false} LineOccurs(s: string, k: nat) returns (i: nat)
    requires k < |Lines(s)|
    ensures At(s, i, Lines(s)[k])
  {
    if s == "" {
      i := 0;
    } else if s[0] == '\n' {
      if k == 0 {
        i := 0;
      } else {
        var j := LineOccurs(s[1..], k - 1);
        i := j + 1;
        assert s == [s[0]] + s[1..];
        assert s[i..i + |Lines(s)[k]|] == s[1..][j..j + |Lines(s)[k]|];
      }
    } else {
      var j := LineOccurs(s[1..], k);
      assert s == [s[0]] + s[1..];
      if k == 0 {
        FirstLineIsPrefix(s[1..]);
        i := 0;
      } else {
        i := j + 1;
        assert s[i..i + |Lines(s)[k]|] == s[1..][j..j + |Lines(s)[k]|];
      }
    }
  }

  lemma {:induction false} FirstLineIsPrefix(s: string)
    ensures FirstLine(s) <= s
  {
    if s != "" {
      FirstLineIsPrefix(s[1..]);
      assert s == [s[0]] + s[1..];
    }
  }

  lemma ContainedInLine(s: string, l: string, p: string)
    requires l in Lines(s) && Contains(l, p)
    ensures Contains(s, p)
  {
    var k :| 0 <= k < |Lines(s)| && Lines(s)[k] == l;
    var i := LineOccurs(s, k);
    assert s == s[..i] + l + s[i + |l|..];
    ContainsWithin(s[..i], l, s[i + |l|..], p);
  }

  /** An occurrence in a list of lines and what follows is in one of them. */
  lemma {:induction false} ContainedInTerminated(ls: seq<string>, rest: string, p: string)
    requires '\n' !in p && p != "" && Contains(Terminated(ls) + rest, p)
    ensures Contains(rest, p) || exists l :: l in ls && Contains(l, p)
  {
    if ls == [] {
      assert Terminated(ls) + rest == rest;
    } else {
      var front, last := ls[..|ls| - 1], ls[|ls| - 1];
      var t := last + "\n" + rest;
      assert Terminated(ls) + rest == Terminated(front) + t;
      ContainedInTerminated(front, t, p);
      if Contains(t, p) {
        ContainsAcrossNewline(last, rest, p);
        assert last in ls;
      }
    }
  }

  lemma {:induction false} ExemptLinesAlphabet(os: seq<Override>)
    requires forall o :: o in os ==> EntryIP(o.ip)
    ensures forall l :: l in ExemptLines(os) ==> '#' !in l && 'l' !in l
  {
    if os != [] {
      var front, last := os[..|os| - 1], os[|os| - 1];
      assert last in os && forall o :: o in front ==> o in os;
      ExemptLinesAlphabet(front);
      EntryLineParts(last.ip, "0");
      var lead, tail := "    " + (last.ip + Gap(last.ip)), "0" + ";";
      assert forall c :: c in lead ==> c == ' ' || Is(IPChar, c);
      assert '#' !in lead && 'l' !in lead && '#' !in tail && 'l' !in tail;
    }
  }

  lemma ContainsChar(s: string, p: string, c: char)
    requires Contains(s, p) && c in p
    ensures c in s
  {
    var i := Index(s, p);
    assert forall k :: 0 <= k < |p| ==> s[i + k] == p[k];
  }

  lemma NewLinesBringNothing(body: string, os: seq<Override>, l: string, p: string)
    requires forall o :: o in os ==> EntryIP(o.ip)
    requires '#' in p || 'l' in p
    requires l in UserLines(body) + ExemptLines(os) && Contains(l, p)
    ensures Contains(body, p)
  {
    ExemptLinesAlphabet(os);
    UserLinesFacts(body);
    if l in UserLines(body) {
      ContainedInLine(body, l, p);
    } else {
      if '#' in p { ContainsChar(l, p, '#'); } else { ContainsChar(l, p, 'l'); }
    }
  }

  /** Rewriting the block of a text brings in no marker and no directive. */
  lemma RewriteBringsNothing(g: Geo, os: seq<Override>, p: string)
    requires forall o :: o in os ==> EntryIP(o.ip)
    requires '\n' !in p && ('#' in p || 'l' in p)
    requires Contains(Rewritten(g, os).Whole(), p)
    ensures Contains(g.Whole(), p)
  {
    var x, rest := g.before + g.header, "}" + g.after;
    var ls := UserLines(g.body) + ExemptLines(os);
    RewrittenShape(g, os);
    WholeShape(g);
    ContainsAcrossNewline(x, Terminated(ls) + rest, p);
    if Contains(x, p) {
      ContainsInThree(x, g.body, rest, p);
    } else {
      ContainedInTerminated(ls, rest, p);
      if !Contains(rest, p) {
        var l :| l in ls && Contains(l, p);
        NewLinesBringNothing(g.body, os, l, p);
      }
      ContainsInThree(x, g.body, rest, p);
    }
  }

  lemma ContainsInThree(x: string, y: string, z: string, p: string)
    requires Contains(x, p) || Contains(y, p) || Contains(z, p)
    ensures Contains(x + (y + z), p)
  {
    hide At, Contains, Index;
    if Contains(x, p) {
      ContainsWithin("", x, y + z, p);
      assert "" + x + (y + z) == x + (y + z);
    } else if Contains(y, p) {
      ContainsWithin(x, y, z, p);
      Assoc(x, y, z);
    } else {
      ContainsWithin(x + y, z, "", p);
      assert (x + y) + z + "" == x + (y + z);
    }
  }

  lemma WholeShape(g: Geo)
    ensures g.Whole() == (g.before + g.header) + (g.body + ("}" + g.after))
  {
    WholeIs(g);
    Assoc(g.body, "}", g.after);
  }

  lemma RewrittenShape(g: Geo, os: seq<Override>)
    ensures Rewritten(g, os).Whole() ==
            (g.before + g.header) + "\n" + (Terminated(UserLines(g.body) + ExemptLines(os)) + ("}" + g.after))
  {
    var x, t, rest := g.before + g.header, Terminated(UserLines(g.body) + ExemptLines(os)), "}" + g.after;
    WholeShape(Rewritten(g, os));
    Assoc("\n", t, rest);
    Assoc(x, "\n", t + rest);
  }

  lemma ContainsWhole(t: string)
    ensures Contains(t, t)
  {
    assert At(t, 0, t);
  }

  // ---- Where there is no block ----

  /** A complete opening with a closing brace somewhere behind it is a block. */
  lemma {:induction false} GeoIfHeader(a: string, h: string, rest: string)
    requires IsHeader(h) && '}' in rest
    ensures FindGeo(a + (h + rest)).Some?
  {
    var s := a + (h + rest);
    HeaderIsMatched(h, rest);
    hide IsHeader, Concat, Match;
    if a == "" {
      assert s == h + rest;
    } else {
      GeoIfHeader(a[1..], h, rest);
      assert s[1..] == a[1..] + (h + rest);
    }
  }

  lemma GeoIfHeaderAt(s: string, i: int, h: string)
    requires IsHeader(h) && At(s, i, h) && '}' in s[i + |h|..]
    ensures FindGeo(s).Some?
  {
    GeoIfHeader(s[..i], h, s[i + |h|..]);
    assert s == s[..i] + (h + s[i + |h|..]);
  }

  /** A blank line after a line-terminated text does not make a block. */
  lemma BlankLineMakesNoGeo(pre: string, post: string)
    requires LineTerminated(pre) && FindGeo(pre + post).None?
    ensures FindGeo(pre + ("\n" + post)).None?
  {
    hide FindGeo, HeaderFree, IsHeader;
    var s, t := pre + ("\n" + post), pre + post;
    if FindGeo(s).Some? {
      FindGeoFound(s);
      var g := FindGeo(s).value;
      var i, h := |g.before|, g.header;
      assert s == g.before + (h + (g.body + ("}" + g.after))) by { WholeShape(g); Assoc(g.before, h, g.body + ("}" + g.after)); }
      assert s[i..i + |h|] == h;
      var j, h' := HeaderMovesUp(pre, post, i, h);
      var k := i + |h| + |g.body|;
      assert s[k] == '}';
      BraceMovesUp(pre, post, k, j + |h'|);
      GeoIfHeaderAt(t, j, h');
    }
  }

  lemma BraceMovesUp(pre: string, post: string, k: nat, e: nat)
    requires k < |pre| + 1 + |post| && (pre + ("\n" + post))[k] == '}'
    requires if k < |pre| then e <= k else e <= k - 1
    ensures e <= |pre + post| && '}' in (pre + post)[e..]
  {
    var t := pre + post;
    var k' := if k < |pre| then k else k - 1;
    assert t[k'] == '}';
    assert t[e..][k' - e] == '}';
  }
}

/**
 * A region that the printer put into a line of the user's block: which exempt rules are read from the two
 * halves, and from the lines around them.
 */
module SplitLine {
  import opened Wrappers
  import opened Lists
  import opened Text
  import opened Regex
  import opened Patterns
  import opened Overrides
  import opened Document
  import opened PrintedLines
  import opened ManagedRead
  import opened Rewrite
  import opened Directives
  import opened UserText
  import opened QuotedMigration
  import opened Parsed
  import opened Limits

  // ---- Cutting a list of lines ----

  /** A cut inside a text of lines cuts one of them, possibly at its end. */
  lemma {:induction false} CutLine(ls: seq<string>, k: nat)
    returns (front: seq<string>, left: string, right: string, back: seq<string>)
    requires k < |Terminated(ls)|
    ensures ls == front + [left + right] + back
    ensures Terminated(ls)[..k] == Terminated(front) + left
    ensures Terminated(ls)[k..] == right + ("\n" + Terminated(back))
  {
    var init, l := ls[..|ls| - 1], ls[|ls| - 1];
    var t := Terminated(init);
    assert ls == init + [l];
    if k < |t| {
      var b: seq<string>;
      front, left, right, b := CutLine(init, k);
      CutBefore(t, l + "\n", k);
      Assoc(t, l, "\n");
      back := b + [l];
      assert back[..|b|] == b;
      Assoc(Terminated(b), l, "\n");
      Assoc("\n", Terminated(b), l + "\n");
      Assoc(right, "\n" + Terminated(b), l + "\n");
      assert ls == front + [left + right] + back;
    } else {
      front, back := init, [];
      left, right := l[..k - |t|], l[k - |t|..];
      assert left + right == l && front + [l] + [] == ls;
      assert (t + l + "\n")[..k] == t + left && (t + l + "\n")[k..] == right + "\n";
    }
  }

  lemma CutBefore(t: string, rest: string, k: nat)
    requires k <= |t|
    ensures (t + rest)[..k] == t[..k] && (t + rest)[k..] == t[k..] + rest
  {
  }

  /** The entries of a body with a line separated. */
  lemma EntriesOfHalves(front: seq<string>, left: string, right: string, back: seq<string>)
    requires NoNewlines(front) && NoNewlines(back) && '\n' !in left && '\n' !in right
    ensures Entries(Lines(("\n" + Terminated(front) + left) + ("\n" + (right + ("\n" + Terminated(back))))))
            == Entries(front) + Entries([left]) + Entries([right]) + Entries(back)
  {
    hide Lines, Terminated, Entries;
    var a, b := "\n" + Terminated(front) + left, right + ("\n" + Terminated(back));
    LinesAcrossNewline(a, b);
    Assoc(a, "\n", b);
    FirstHalfLines(front, left);
    SecondHalfLines(right, back);
    EntriesConcat(Lines(a), Lines(b));
    EntriesOfFirst(front, left);
    EntriesOfSecond(right, back);
    FourTogether(Entries(front), Entries([left]), Entries([right]), Entries(back));
  }

  lemma FourTogether(a: seq<(string, string)>, b: seq<(string, string)>, c: seq<(string, string)>, d: seq<(string, string)>)
    ensures (a + b) + (c + d) == a + b + c + d
  {
  }

  lemma EntriesOfFirst(front: seq<string>, left: string)
    ensures Entries([""] + front + [left]) == Entries(front) + Entries([left])
  {
    hide Entries;
    BlankIsSkipped();
    EntriesConcat([""] + front, [left]);
    EntriesConcat([""], front);
    assert [] + Entries(front) == Entries(front);
  }

  lemma EntriesOfSecond(right: string, back: seq<string>)
    ensures Entries([right] + back + [""]) == Entries([right]) + Entries(back)
  {
    hide Entries;
    BlankIsSkipped();
    EntriesConcat([right] + back, [""]);
    EntriesConcat([right], back);
    assert Entries([right] + back) + [] == Entries([right] + back);
  }

  lemma FirstHalfLines(front: seq<string>, left: string)
    requires NoNewlines(front) && '\n' !in left
    ensures Lines("\n" + Terminated(front) + left) == [""] + front + [left]
  {
    hide Terminated;
    Assoc("\n", Terminated(front), left);
    LinesCons('\n', Terminated(front) + left);
    TerminatedLines(front, left);
    OneLine(left);
    assert [""] + (front + [left]) == [""] + front + [left];
  }

  lemma SecondHalfLines(right: string, back: seq<string>)
    requires NoNewlines(back) && '\n' !in right
    ensures Lines(right + ("\n" + Terminated(back))) == [right] + back + [""]
  {
    hide Terminated;
    Assoc(right, "\n", Terminated(back));
    LinesAcrossNewline(right, Terminated(back));
    OneLine(right);
    TerminatedLines(back, "");
    assert Terminated(back) + "" == Terminated(back);
    assert [right] + (back + [""]) == [right] + back + [""];
  }

  // ---- The first half ----

  /** The visible text of a prefix of a line is a prefix of what the line shows, or the other way round. */
  lemma VisiblePrefix(left: string, right: string)
    ensures var q, m := TrimSpace(left), TrimSpace(left + right);
            q == "" || q <= m || m <= q
  {
    var l, c := TrimLeft(left), TrimLeft(left + right);
    if l != "" {
      var w := left[..|left| - |l|];
      assert left == w + l && All(Space, w);
      RunIs(Space, w, l + right);
      Assoc(w, l, right);
      assert c == l + right;
      TrimRightFacts(l);
      TrimRightFacts(c);
      PrefixesCompare(TrimRight(l), TrimRight(c), c);
    }
  }

  lemma PrefixesCompare(a: string, b: string, c: string)
    requires a <= c && b <= c
    ensures a <= b || b <= a
  {
    if |a| <= |b| { assert b[..|a|] == c[..|a|]; } else { assert a[..|b|] == c[..|b|]; }
  }

  /** A prefix of a kept line is no entry. */
  lemma KeptPrefix(left: string, right: string)
    requires IsKept(left + right)
    ensures EntryOf(left) == None
  {
    hide TrimSpace, MatchEntry;
    var q, m := TrimSpace(left), TrimSpace(left + right);
    VisiblePrefix(left, right);
    if EntryOf(left).Some? {
      VisibleSemicolon(left);
      if m == "" {
        BlankPrefix(left, right);
      } else {
        ShortPrefix(q, m);
      }
    }
  }

  lemma BlankPrefix(left: string, right: string)
    requires TrimSpace(left + right) == ""
    ensures TrimSpace(left) == ""
  {
    TrimSpaceBlank(left + right);
    TrimSpaceBlank(left);
    assert forall i :: 0 <= i < |left| ==> (left + right)[i] == left[i];
  }

  lemma VisibleSemicolon(s: string)
    requires EntryOf(s).Some?
    ensures ';' in TrimSpace(s) && ';' in s
  {
    MatchSound(ENTRY, TrimSpace(s));
    var (parts, rest) := Match(ENTRY, TrimSpace(s)).value;
    assert ENTRY[5].Fits(parts[5]);
    CharInConcat(parts, 5, ';');
    assert ';' in Concat(parts) + rest;
    TrimmedChars(s, ';');
  }

  lemma ShortPrefix(q: string, m: string)
    requires (q <= m || m <= q) && ';' in q
    ensures m != "" && "#" <= m ==> "#" <= q
    ensures "default" <= m ==> "default" <= q
  {
    var i :| 0 <= i < |q| && q[i] == ';';
    assert i < |m| ==> m[i] == q[i];
    assert "default" <= m ==> forall k :: 0 <= k < 7 ==> m[k] == "default"[k];
  }

  /** The first half of a split line of a printed block is no entry. */
  lemma LeftIsNoEntry(body: string, os: seq<Override>, left: string, right: string)
    requires forall o :: o in os ==> EntryIP(o.ip)
    requires left + right in UserLines(body) + ExemptLines(os) && right != ""
    ensures EntryOf(left) == None
  {
    hide EntryOf, IsKept, EntryLine, UserLines;
    if left + right in UserLines(body) {
      UserLinesFacts(body);
      FilterMembers(IsKept, UserLines(body));
      KeptPrefix(left, right);
    } else {
      ExemptLinesAre(os, left + right);
      var o :| o in os && o.exempt && left + right == EntryLine(o.ip, "0");
      assert forall c :: c in o.ip ==> Is(IPChar, c);
      EntryPrefix(o.ip, left, right);
    }
  }

  lemma EntryPrefix(ip: string, left: string, right: string)
    requires left + right == EntryLine(ip, "0") && right != "" && ';' !in ip
    ensures EntryOf(left) == None
  {
    var l, lead := EntryLine(ip, "0"), "    " + (ip + (Gap(ip) + "0"));
    Assoc(Gap(ip), "0", ";");
    Assoc(ip, Gap(ip) + "0", ";");
    Assoc("    ", ip + (Gap(ip) + "0"), ";");
    assert l == lead + ";";
    assert ';' !in lead by {
      assert ';' !in Gap(ip);
      AbsentFromConcat(';', Gap(ip), "0");
      AbsentFromConcat(';', ip, Gap(ip) + "0");
      AbsentFromConcat(';', "    ", ip + (Gap(ip) + "0"));
    }
    assert forall i :: 0 <= i < |left| ==> left[i] == l[i] == lead[i];
    if EntryOf(left).Some? { VisibleSemicolon(left); }
  }

  // ---- The second half ----

  lemma ShortIsNoEntry(s: string)
    requires |s| <= 3
    ensures EntryOf(s) == None
  {
    hide TrimSpace, MatchEntry;
    TrimIsShorter(s);
    ShortIsNoMatch(TrimSpace(s));
  }

  lemma TrimIsShorter(s: string)
    ensures |TrimSpace(s)| <= |s|
  {
    TrimLeftFacts(s);
    TrimRightFacts(TrimLeft(s));
  }

  lemma ShortIsNoMatch(m: string)
    requires |m| <= 3
    ensures MatchEntry(m) == None
  {
    hide Match, Concat;
    if MatchEntry(m).Some? {
      MatchSound(ENTRY, m);
      var (parts, rest) := Match(ENTRY, m).value;
      assert parts == [parts[0], parts[1], parts[2], parts[3], parts[4], parts[5]];
      assert ENTRY[1].Fits(parts[1]) && ENTRY[2].Fits(parts[2]) && ENTRY[3].Fits(parts[3]) && ENTRY[5].Fits(parts[5]);
      ConcatSix(parts[0], parts[1], parts[2], parts[3], parts[4], parts[5]);
    }
  }

  lemma EntryWithGap(ip: string, gap: string)
    requires EntryIP(ip) && gap != "" && forall i :: 0 <= i < |gap| ==> gap[i] == ' '
    ensures EntryOf(ip + (gap + ("0" + ";"))) == Some((ip, "0"))
  {
    hide TrimSpace, MatchEntry;
    var m := ip + (gap + ("0" + ";"));
    EntryShape(ip, gap);
    TrimSpaceIs("", m, "");
    assert "" + m + "" == m;
    NotDefault(ip, m);
    EntryIsRead(ip, gap, "0");
  }

  lemma EntryShape(ip: string, gap: string)
    requires EntryIP(ip) && gap != "" && forall i :: 0 <= i < |gap| ==> gap[i] == ' '
    ensures var m := ip + (gap + ("0" + ";"));
            |m| > |ip| && m[..|ip|] == ip && m[|ip|] == ' ' && Trimmed(m)
    ensures All(ReSpace, gap)
  {
    var m := ip + (gap + ("0" + ";"));
    assert Is(IPChar, ip[0]);
    assert m[0] == ip[0] && m[|m| - 1] == ';';
  }

  /**
   * The second half of a split entry: cut in the address it is the entry of the rest of that address, which is
   * another one, and cut behind the address it is no entry.
   */
  lemma SplitEntryIs(ip: string, left: string, right: string)
    requires EntryIP(ip) && left + right == EntryLine(ip, "0") && right != "" && right[0] != ' '
    ensures |left| >= 4
    ensures EntryOf(right) == if |left| < 4 + |ip| then Some((ip[|left| - 4..], "0")) else None
  {
    hide EntryOf;
    var l, gap, n := EntryLine(ip, "0"), Gap(ip), |left|;
    assert right == l[n..] && right[0] == l[n];
    assert forall i :: 0 <= i < 4 ==> l[i] == ' ';
    assert forall i :: 4 + |ip| <= i < 4 + |ip| + |gap| ==> l[i] == gap[i - 4 - |ip|];
    if n < 4 + |ip| {
      var rest := ip[n - 4..];
      assert ip == ip[..n - 4] + rest;
      assert right == rest + (gap + ("0" + ";"));
      EntryWithGap(rest, gap);
    } else {
      ShortIsNoEntry(right);
    }
  }

  // ---- The rules that are read ----

  lemma {:induction false} ExemptIff(es: seq<(string, string)>, os: seq<Override>, ip: string)
    requires Unique(os)
    ensures Unique(ExemptsFrom(es, os))
    ensures ExemptOf(ExemptsFrom(es, os), ip) <==> ExemptOf(os, ip) || (ip, "0") in es
  {
    if es != [] {
      var front, last := es[..|es| - 1], es[|es| - 1];
      assert es == front + [last];
      ExemptIff(front, os, ip);
      var r := ExemptsFrom(front, os);
      PutIsMapUpdate(r, Override(last.0, RateOf(r, last.0), true));
    }
  }

  lemma ReadExempts(es: seq<(string, string)>, os: seq<Override>, ip: string)
    requires Sorted(os)
    ensures ExemptOf(SortByIP(ExemptsFrom(es, RatesFrom(RateEntries(os)))), ip) <==> (ip, "0") in es
  {
    SortedIsUnique(os);
    RatesAreRead(os);
    RatesOnlyUnique(os);
    UnratedRead(os, ip);
    ExemptIff(es, RatesOnly(os), ip);
    SortKeepsMap(RatesOnly(os));
    SortKeepsMap(ExemptsFrom(es, RatesOnly(os)));
  }

  predicate NoRepeats(es: seq<(string, string)>) {
    forall i, j :: 0 <= i < j < |es| ==> es[i] != es[j]
  }

  lemma {:induction false} ExemptEntriesDiffer(os: seq<Override>)
    requires Unique(os)
    ensures NoRepeats(ExemptEntries(os))
  {
    if os != [] {
      var front, last := os[..|os| - 1], os[|os| - 1];
      ExemptEntriesDiffer(front);
      if last.exempt {
        ExemptEntriesAre(front, (last.ip, "0"));
        assert (last.ip, "0") !in ExemptEntries(front);
      }
    }
  }

  lemma ExemptHasEntry(os: seq<Override>, ip: string)
    requires Unique(os)
    ensures (ip, "0") in ExemptEntries(os) <==> ExemptOf(os, ip)
  {
    ExemptEntriesAre(os, (ip, "0"));
    forall o | o in os && o.ip == ip && o.exempt ensures ExemptOf(os, ip) {
      MapOfUnique(os, ip, o.AsRule());
    }
    if ExemptOf(os, ip) { ExemptIsMember(os, ip); }
  }

  lemma WithoutOne(a: seq<(string, string)>, e: (string, string), b: seq<(string, string)>)
    requires NoRepeats(a + [e] + b)
    ensures e !in a && e !in b
  {
    var es := a + [e] + b;
    assert es[|a|] == e;
    assert forall i :: 0 <= i < |a| ==> es[i] == a[i];
    assert forall i :: 0 <= i < |b| ==> es[|a| + 1 + i] == b[i];
  }

  lemma EntriesOfPrinted(body: string, os: seq<Override>)
    requires forall o :: o in os ==> EntryIP(o.ip)
    ensures Entries(UserLines(body) + ExemptLines(os)) == ExemptEntries(os)
  {
    UserLinesFacts(body);
    KeptHoldNoEntries(UserLines(body));
    ExemptLinesAreRead(os);
    EntriesConcat(UserLines(body), ExemptLines(os));
  }

  lemma EntryIsItsLine(body: string, os: seq<Override>, l: string, ip: string)
    requires forall o :: o in os ==> EntryIP(o.ip)
    requires l in UserLines(body) + ExemptLines(os)
    ensures EntryOf(l) == Some((ip, "0")) ==> l == EntryLine(ip, "0")
    ensures l == EntryLine(ip, "0") && EntryIP(ip) ==> EntryOf(l) == Some((ip, "0"))
  {
    hide EntryOf, IsKept, EntryLine, UserLines;
    if l in UserLines(body) {
      UserLinesFacts(body);
      FilterMembers(IsKept, UserLines(body));
      assert l + "" == l;
      KeptPrefix(l, "");
    } else {
      ExemptLinesAre(os, l);
      var o :| o in os && o.exempt && l == EntryLine(o.ip, "0");
      EntryLineIsRead(o.ip, "0");
    }
    if EntryIP(ip) { EntryLineIsRead(ip, "0"); }
  }

  /** The exempt rules that the lines of a printed block stand for when one of them is split. */
  lemma EntriesOfSplit(body: string, os: seq<Override>, front: seq<string>, left: string, right: string,
                       back: seq<string>, ip: string)
    requires GoodRules(os) && right != ""
    requires UserLines(body) + ExemptLines(os) == front + [left + right] + back
    ensures (ip, "0") in Entries(front) + Entries([left]) + Entries([right]) + Entries(back) <==>
            (ExemptOf(os, ip) && left + right != EntryLine(ip, "0")) || EntryOf(right) == Some((ip, "0"))
  {
    hide EntryOf, IsKept, EntryLine, UserLines, ExemptLines, ExemptEntries, ExemptOf;
    var cut, e := left + right, (ip, "0");
    var ls := front + [cut] + back;
    assert cut in ls by { assert ls[|front|] == cut; }
    LeftIsNoEntry(body, os, left, right);
    EntriesSnoc([], left, None);
    EntriesSnoc([], right, EntryOf(right));
    EntriesSnoc(front, cut, EntryOf(cut));
    assert [] + [left] == [left] && [] + [right] == [right];
    EntriesConcat(front + [cut], back);
    SortedIsUnique(os);
    EntriesOfPrinted(body, os);
    ExemptHasEntry(os, ip);
    ExemptEntriesDiffer(os);
    EntryIsItsLine(body, os, cut, ip);
    if EntryOf(cut) == Some(e) { WithoutOne(Entries(front), e, Entries(back)); }
    if ExemptOf(os, ip) { ExemptIsMember(os, ip); }
  }

  // ---- A region inside the block ----

  /** Where the cut falls in the new body of a block that has grown past it. */
  lemma CutInBody(d: Doc, g: Geo, z: string) returns (k: nat)
    requires BlockInFront(d, g, z) && |d.preManaged| <= |CutText(d, g, z)| && !CutBehindBlock(d, g)
    ensures var nb, n, h := NewBody(g.body, d.overrides), |d.preManaged|, g.before + g.header;
            && 0 < k <= |nb| && n == |h| + k
            && CutText(d, g, z)[..n] == h + nb[..k]
            && CutText(d, g, z)[n..] == nb[k..] + ("}" + (z + d.postManaged))
  {
    hide FindGeo, NewBody;
    var nb, n, h := NewBody(g.body, d.overrides), |d.preManaged|, g.before + g.header;
    k := n - |h|;
    CutTextShape(d, g, z);
    assert CutText(d, g, z) == (h + nb[..k]) + (nb[k..] + ("}" + (z + d.postManaged))) by {
      assert nb == nb[..k] + nb[k..];
      Assoc(nb[..k], nb[k..], "}" + (z + d.postManaged));
      Assoc(h, nb[..k], nb[k..] + ("}" + (z + d.postManaged)));
    }
  }

  lemma CutTextShape(d: Doc, g: Geo, z: string)
    ensures CutText(d, g, z) == (g.before + g.header) + (NewBody(g.body, d.overrides) + ("}" + (z + d.postManaged)))
  {
    hide NewBody;
    var r := Rewritten(g, d.overrides).(after := z + d.postManaged);
    WholeShape(r);
    Assoc(r.before + r.Block(), z, d.postManaged);
  }

  /** The block of a file whose region was put into the block's body. */
  lemma SplitGeo(g: Geo, nb: string, k: nat, tail: string)
    requires IsGeo(g) && '}' !in nb && k <= |nb|
    ensures FindGeo((g.before + g.header + nb[..k]) + ("\n" + (nb[k..] + ("}" + tail))))
            == Some(Geo(g.before, g.header, nb[..k] + ("\n" + nb[k..]), tail))
  {
    hide IsHeader, HeaderFree, FindGeo;
    var r, h := Geo(g.before, g.header, nb[..k] + ("\n" + nb[k..]), tail), g.before + g.header;
    assert '}' !in r.body by {
      assert forall c :: c in nb[..k] || c in nb[k..] ==> c in nb;
      AbsentFromConcat('}', "\n", nb[k..]);
      AbsentFromConcat('}', nb[..k], "\n" + nb[k..]);
    }
    WholeShape(r);
    Assoc("\n", nb[k..], "}" + tail);
    Assoc(nb[..k], "\n" + nb[k..], "}" + tail);
    Assoc(h, nb[..k], "\n" + (nb[k..] + ("}" + tail)));
    FindGeoIs(r);
  }

  /** The exempt rules read from a new body that was cut inside a line. */
  lemma SplitBody(body: string, os: seq<Override>, k: nat, ip: string)
    requires GoodRules(os) && 0 < k < |NewBody(body, os)| && NewBody(body, os)[k] != '\n'
    ensures var nb := NewBody(body, os);
            var left, right := LastLine(nb[..k]), FirstLine(nb[k..]);
            (ip, "0") in Entries(Lines(nb[..k] + ("\n" + nb[k..]))) <==>
            (ExemptOf(os, ip) && left + right != EntryLine(ip, "0")) || EntryOf(right) == Some((ip, "0"))
  {
    hide EntryOf, IsKept, EntryLine, UserLines, ExemptLines, ExemptOf, Lines, Terminated;
    var ls, nb := UserLines(body) + ExemptLines(os), NewBody(body, os);
    PrintedAreLines(body, os);
    assert nb[..k] == "\n" + Terminated(ls)[..k - 1] && nb[k..] == Terminated(ls)[k - 1..];
    var front, left, right, back := CutLine(ls, k - 1);
    assert left + right in ls by { assert ls[|front|] == left + right; }
    PartsAreLines(ls, front, left, right, back);
    Assoc("\n", Terminated(front), left);
    FirstHalfLines(front, left);
    SecondHalfLines(right, back);
    assert (right + ("\n" + Terminated(back)))[0] == nb[k..][0] == nb[k];
    assert right != "";
    EntriesOfHalves(front, left, right, back);
    EntriesOfSplit(body, os, front, left, right, back, ip);
  }

  lemma PrintedAreLines(body: string, os: seq<Override>)
    requires GoodRules(os)
    ensures NoNewlines(UserLines(body) + ExemptLines(os))
  {
    UserLinesFacts(body);
    ExemptLinesChars(os);
    LinesHaveNoNewline(body);
  }

  lemma PartsAreLines(ls: seq<string>, front: seq<string>, left: string, right: string, back: seq<string>)
    requires NoNewlines(ls) && ls == front + [left + right] + back
    ensures NoNewlines(front) && NoNewlines(back) && '\n' !in left && '\n' !in right
  {
    assert ls[|front|] == left + right;
    assert forall i :: 0 <= i < |front| ==> ls[i] == front[i];
    assert forall i :: 0 <= i < |back| ==> ls[|front| + 1 + i] == back[i];
    assert forall c :: c in left || c in right ==> c in left + right;
  }

  /** Cut right in front of its closing brace, the block only gets a blank line. */
  lemma UnsplitBody(body: string, os: seq<Override>, ip: string)
    requires GoodRules(os)
    ensures (ip, "0") in Entries(Lines(NewBody(body, os) + ("\n" + ""))) <==> ExemptOf(os, ip)
    ensures |Lines(NewBody(body, os))| > 1 && LastLine(NewBody(body, os)) == ""
  {
    hide Lines, NewBody, ExemptOf;
    var nb := NewBody(body, os);
    NewBodyLines(body, os);
    NewBodyEntries(body, os);
    LinesAcrossNewline(nb, "");
    assert nb + "\n" + "" == nb + ("\n" + "");
    OneLine("");
    BlankIsSkipped();
    EntriesConcat(Lines(nb), [""]);
    SortedIsUnique(os);
    ExemptHasEntry(os, ip);
  }

  lemma BraceIsNoEntry(s: string)
    requires s != "" && s[0] == '}'
    ensures EntryOf(s) == None
  {
    hide MatchEntry;
    TrimSpaceHead("", s);
    assert "" + s == s;
    VisibleHeadNoEntry(TrimSpace(s));
  }

  lemma VisibleHeadNoEntry(m: string)
    requires m != "" && m[0] == '}'
    ensures MatchEntry(m) == None
  {
    var p := ENTRY;
    RunIs(ReSpace, "", m);
    assert "" + m == m;
    assert Take(p[0], m) == Some(("", m));
    assert Take(p[1..][0], m) == None;
    assert Match(p[1..], m).None?;
  }

  /** A list of lines cut inside, seen from the text around it. */
  lemma LinesAtCut(h: string, nb: string, k: nat, tail: string)
    requires 0 < k <= |nb| && nb[0] == '\n' && nb[|nb| - 1] == '\n'
    ensures LastLine(h + nb[..k]) == LastLine(nb[..k])
    ensures k < |nb| ==> FirstLine(nb[k..] + ("}" + tail)) == FirstLine(nb[k..])
  {
    hide Lines;
    LinesCons('\n', nb[1..k]);
    assert nb[..k] == "\n" + nb[1..k];
    LastLineOfLonger(h, nb[..k]);
    if k < |nb| {
      assert LineTerminated(nb[k..]);
      FirstLineOfTerminated(nb[k..], "}" + tail);
    }
  }

  /**
   * When the region lands inside the block and the line there is separated, an address is read as exempt if and
   * only if it was, unless its entry is the line that was split, or if the second half of that line is its entry.
   */
  lemma SplitLineIsReadBack(d: Doc, g: Geo, z: string, ip: string)
    requires BlockInFront(d, g, z) && GoodRules(d.overrides) && GlobalToken(d.global)
    requires |CutText(d, g, z)| >= |d.preManaged| && !CutBehindBlock(d, g)
    requires var pre := CutText(d, g, z)[..|d.preManaged|]; !Contains(pre, BEGIN_MARKER) && !Contains(pre, END_MARKER)
    requires Separator(CutText(d, g, z)[|d.preManaged|..]) != ""
    ensures Emit(d).Ok? && ParseDoc(Emit(d).value).Ok?
    ensures var pre, post := CutText(d, g, z)[..|d.preManaged|], CutText(d, g, z)[|d.preManaged|..];
            var left, right := LastLine(pre), FirstLine(post);
            ExemptOf(ParseDoc(Emit(d).value).value.overrides, ip) <==>
            (ExemptOf(d.overrides, ip) && left + right != EntryLine(ip, "0")) || EntryOf(right) == Some((ip, "0"))
  {
    hide FindGeo, ManagedText, Emit, ConnLimitOf, ParseDoc, Lines, EntryOf, EntryLine, ExemptOf;
    hide SortByIP, RatesFrom, RateOf, Contains, NewBody, CutText, CutBehindBlock, Entries, Terminated, ExemptsFrom;
    var os, nb, h, tail := d.overrides, NewBody(g.body, d.overrides), g.before + g.header, z + d.postManaged;
    var pre, post := CutText(d, g, z)[..|d.preManaged|], CutText(d, g, z)[|d.preManaged|..];
    CutIsParsed(d, g, z);
    var k := CutInBody(d, g, z);
    FindGeoFound(d.Merged());
    NewBodyLines(g.body, os);
    SplitGeo(g, nb, k, tail);
    ReadExempts(Entries(Lines(nb[..k] + ("\n" + nb[k..]))), os, ip);
    NewBodyEnds(g.body, os);
    LinesAtCut(h, nb, k, tail);
    if k < |nb| {
      assert post[0] == nb[k];
      SplitBody(g.body, os, k, ip);
    } else {
      assert nb[..k] == nb && nb[k..] == "";
      UnsplitBody(g.body, os, ip);
      BraceAtCut(post, tail, ip);
    }
  }

  lemma BraceAtCut(post: string, tail: string, ip: string)
    requires post == "" + ("}" + tail)
    ensures EntryOf(FirstLine(post)) == None && "" + FirstLine(post) != EntryLine(ip, "0")
  {
    hide Lines, EntryOf;
    assert post == "}" + tail && '\n' !in "}";
    LinesOfOneThen("}", tail);
    BraceIsNoEntry(FirstLine(post));
    assert FirstLine(post)[0] == '}' && EntryLine(ip, "0")[0] == ' ';
  }

  lemma NewBodyEnds(body: string, os: seq<Override>)
    ensures var nb := NewBody(body, os); nb[0] == '\n' && nb[|nb| - 1] == '\n'
  {
    TerminatedIsLineTerminated(UserLines(body) + ExemptLines(os));
  }
}

/** The rewrite of the user's geo block: canonical, idempotent, and read back as the exempt rules. */
module Rewrite {
  import opened Wrappers
  import opened Text
  import opened Regex
  import opened Patterns
  import opened Overrides
  import opened Lists
  import opened Document
  import opened PrintedLines
  import opened ManagedRead

  // ---- Filtering the body ----

  /** A list the filter leaves alone. */
  predicate AllKept(ls: seq<string>) {
    Filter(IsKept, ls) == ls
  }

  lemma {:induction false} KeptHoldNoEntries(ls: seq<string>)
    requires AllKept(ls)
    ensures Entries(ls) == []
  {
    if ls != [] {
      var front, last := ls[..|ls| - 1], ls[|ls| - 1];
      assert ls == front + [last];
      FilteredParts(IsKept, front, [last]);
      KeptHoldNoEntries(front);
      KeptIsNoEntry(last);
      EntriesSnoc(front, last, None);
    }
  }

  lemma KeptIsNoEntry(l: string)
    requires AllKept([l])
    ensures EntryOf(l) == None
  {
    FilterMembers(IsKept, [l]);
    assert l in [l];
  }

  lemma {:induction false} ExemptLinesAreDropped(os: seq<Override>)
    requires forall o :: o in os ==> EntryIP(o.ip)
    ensures Filter(IsKept, ExemptLines(os)) == []
  {
    if os != [] {
      var front, last := os[..|os| - 1], os[|os| - 1];
      assert last in os && forall o :: o in front ==> o in os;
      ExemptLinesAreDropped(front);
      if last.exempt {
        EntryLineIsNotKept(last.ip, "0");
        FilterSnoc(IsKept, ExemptLines(front), EntryLine(last.ip, "0"));
      }
    }
  }

  lemma UserLinesFacts(body: string)
    ensures var u := UserLines(body);
            Tight(IsBlankLine, u) && AllKept(u) && forall l :: l in u ==> l in Lines(body)
  {
    var ls := Lines(body);
    var k := KeptLines(ls);
    FilterIdempotent(IsKept, ls);
    FilterMembers(IsKept, ls);
    var a, b := Trimming(IsBlankLine, k);
    FilteredParts(IsKept, a + UserLines(body), b);
    FilteredParts(IsKept, a, UserLines(body));
    assert forall l :: l in UserLines(body) ==> l in k;
  }

  // ---- Which lines survive ----

  predicate IsVisible(l: string) {
    !IsBlankLine(l)
  }

  /** A comment or a default line. */
  predicate IsUserLine(l: string) {
    IsVisible(l) && IsKept(l)
  }

  /**
   * Every comment and default line of the body survives, in order and as often as it is there, and no other
   * visible line does. The blank lines between them survive too: only those at both ends are dropped.
   */
  lemma UserLinesAre(body: string)
    ensures Filter(IsVisible, UserLines(body)) == Filter(IsUserLine, Lines(body))
    ensures forall l :: l in Lines(body) && IsVisible(l) ==> (l in UserLines(body) <==> IsKept(l))
    ensures exists a, b :: KeptLines(Lines(body)) == a + UserLines(body) + b && forall l :: l in a || l in b ==> IsBlankLine(l)
  {
    hide IsKept, IsBlankLine, Lines;
    var ls := Lines(body);
    var k, u := KeptLines(ls), UserLines(body);
    var a, b := Trimming(IsBlankLine, k);
    FilterConcat(IsVisible, a + u, b);
    FilterConcat(IsVisible, a, u);
    FilterNothing(IsVisible, a);
    FilterNothing(IsVisible, b);
    assert [] + Filter(IsVisible, u) + [] == Filter(IsVisible, u);
    FilterBoth(IsVisible, IsKept, IsUserLine, ls);
    FilterMembers(IsVisible, u);
    FilterMembers(IsUserLine, ls);
  }

  // ---- The new body ----

  lemma {:induction false} ExemptLinesChars(os: seq<Override>)
    requires forall o :: o in os ==> EntryIP(o.ip)
    ensures forall l :: l in ExemptLines(os) ==> '}' !in l && '\n' !in l
  {
    if os != [] {
      var front, last := os[..|os| - 1], os[|os| - 1];
      assert last in os && forall o :: o in front ==> o in os;
      ExemptLinesChars(front);
      if last.exempt { EntryLineChars(last.ip, "0"); }
    }
  }

  lemma {:induction false} LineCharsInText(s: string, c: char)
    requires c !in s
    ensures forall l :: l in Lines(s) ==> c !in l
  {
    if s != "" {
      assert s == [s[0]] + s[1..];
      LineCharsInText(s[1..], c);
      var r := Lines(s[1..]);
      assert r[0] in r;
    }
  }

  lemma NewBodyLines(body: string, os: seq<Override>)
    requires forall o :: o in os ==> EntryIP(o.ip)
    ensures Lines(NewBody(body, os)) == [""] + (UserLines(body) + ExemptLines(os)) + [""]
    ensures '}' !in body ==> '}' !in NewBody(body, os)
  {
    var ls := UserLines(body) + ExemptLines(os);
    UserLinesFacts(body);
    ExemptLinesChars(os);
    LinesHaveNoNewline(body);
    BodyLines(ls);
    if '}' !in body {
      LineCharsInText(body, '}');
      AbsentFromTerminated(ls, '}');
    }
  }

  /** The new body's entries are exactly the exempt addresses, in order. */
  lemma NewBodyEntries(body: string, os: seq<Override>)
    requires forall o :: o in os ==> EntryIP(o.ip)
    ensures Entries(Lines(NewBody(body, os))) == ExemptEntries(os)
  {
    var u, e := UserLines(body), ExemptLines(os);
    NewBodyLines(body, os);
    UserLinesFacts(body);
    KeptHoldNoEntries(u);
    ExemptLinesAreRead(os);
    BlankIsSkipped();
    EntriesConcat([""] + (u + e), [""]);
    EntriesConcat([""], u + e);
    EntriesConcat(u, e);
  }

  lemma {:induction false} ExemptEntriesAre(os: seq<Override>, e: (string, string))
    ensures e in ExemptEntries(os) <==> exists o :: o in os && o.exempt && e == (o.ip, "0")
  {
    if os != [] {
      var front, last := os[..|os| - 1], os[|os| - 1];
      ExemptEntriesAre(front, e);
      assert os == front + [last];
    }
  }

  lemma {:induction false} ExemptLinesAre(os: seq<Override>, l: string)
    requires l in ExemptLines(os)
    ensures exists o :: o in os && o.exempt && l == EntryLine(o.ip, "0")
  {
    var front, last := os[..|os| - 1], os[|os| - 1];
    assert os == front + [last];
    if !last.exempt || l != EntryLine(last.ip, "0") { ExemptLinesAre(front, l); }
  }

  /** After a rewrite the line is still there, or an entry that says the same. */
  predicate Survives(l: string, body: string) {
    l in Lines(body) || (EntryOf(l).Some? && EntryOf(l).value in Entries(Lines(body)))
  }

  lemma VisibleInNewBody(body: string, os: seq<Override>, l: string)
    requires IsVisible(l) && forall o :: o in os ==> EntryIP(o.ip)
    ensures l in Lines(NewBody(body, os)) <==> l in UserLines(body) || l in ExemptLines(os)
  {
    hide Lines, NewBody, UserLines, ExemptLines, IsVisible;
    NewBodyLines(body, os);
    BlankIsInvisible();
    MemberBetween("", UserLines(body), ExemptLines(os), l);
  }

  lemma BlankIsInvisible()
    ensures !IsVisible("")
  {
    TrimSpaceBlank("");
  }

  lemma MemberBetween(x: string, a: seq<string>, b: seq<string>, l: string)
    requires l != x
    ensures l in [x] + (a + b) + [x] <==> l in a || l in b
  {
  }

  lemma ExemptLineReads(os: seq<Override>, l: string)
    requires l in ExemptLines(os) && forall o :: o in os ==> EntryIP(o.ip)
    ensures exists o :: o in os && o.exempt && EntryOf(l) == Some((o.ip, "0"))
  {
    hide EntryOf, EntryLine;
    ExemptLinesAre(os, l);
    var o :| o in os && o.exempt && l == EntryLine(o.ip, "0");
    EntryLineIsRead(o.ip, "0");
  }

  /** A visible line survives a rewrite if and only if it is a comment, a default line, or the entry of an exempt address. */
  lemma LineSurvivesIff(body: string, os: seq<Override>, l: string)
    requires forall o :: o in os ==> EntryIP(o.ip)
    requires l in Lines(body) && IsVisible(l)
    ensures Survives(l, NewBody(body, os)) <==>
            IsKept(l) || exists o :: o in os && o.exempt && EntryOf(l) == Some((o.ip, "0"))
  {
    hide IsKept, EntryOf, Lines, Entries, NewBody, UserLines, ExemptLines, ExemptEntries, Filter, IsVisible;
    VisibleInNewBody(body, os, l);
    NewBodyEntries(body, os);
    UserLinesAre(body);
    if EntryOf(l).Some? { ExemptEntriesAre(os, EntryOf(l).value); }
    if l in ExemptLines(os) { ExemptLineReads(os, l); }
  }

  lemma KeptOfNewBody(body: string, os: seq<Override>)
    requires forall o :: o in os ==> EntryIP(o.ip)
    ensures KeptLines(Lines(NewBody(body, os))) == [""] + UserLines(body) + [""]
  {
    var u, e := UserLines(body), ExemptLines(os);
    NewBodyLines(body, os);
    UserLinesFacts(body);
    ExemptLinesAreDropped(os);
    KeptBetweenBlanks(u, e);
  }

  lemma KeptBetweenBlanks(u: seq<string>, e: seq<string>)
    requires AllKept(u) && Filter(IsKept, e) == []
    ensures KeptLines([""] + (u + e) + [""]) == [""] + u + [""]
  {
    BlankIsSkipped();
    FilterConcat(IsKept, [""] + (u + e), [""]);
    FilterConcat(IsKept, [""], u + e);
    FilterConcat(IsKept, u, e);
    FilterSnoc(IsKept, [], "");
    assert [] + [""] == [""];
    assert u + [] == u;
  }

  /** Rewriting keeps the user's lines, so a second rewrite overrides the first completely. */
  lemma RewriteIsCanonical(body: string, os: seq<Override>, os': seq<Override>)
    requires forall o :: o in os ==> EntryIP(o.ip)
    ensures UserLines(NewBody(body, os)) == UserLines(body)
    ensures NewBody(NewBody(body, os), os') == NewBody(body, os')
  {
    KeptOfNewBody(body, os);
    UserLinesFacts(body);
    BlankIsSkipped();
    TightIsTrimmed(IsBlankLine, UserLines(body), "");
  }

  // ---- The whole block ----

  lemma {:induction false} OneBrace(h: string)
    requires IsHeader(h)
    ensures Index(h, "{") == |h| - 1
  {
    var gap, tail := HeaderParts(h);
    var v := "$rate_limit";
    var lead := "geo" + (gap + (v + tail));
    assert h == lead + "{" + "" by {
      Assoc(v, tail, "{");
      Assoc(gap, v + tail, "{");
      Assoc("geo", gap + (v + tail), "{");
    }
    assert '{' !in gap && '{' !in tail && '{' !in "geo" && '{' !in v;
    IndexOfChar(lead, '{', "");
  }

  /** On a block the pattern matched, the rewrite never fails and replaces exactly the body. */
  lemma RewriteReplacesBody(g: Geo, os: seq<Override>)
    requires IsGeo(g)
    ensures RewriteGeo(g.Block(), os) == Ok(g.header + NewBody(g.body, os) + "}")
  {
    hide NewBody, IsHeader, HeaderFree;
    OneBrace(g.header);
    HeaderFacts(g.header);
    BracesOfBlock(g.header, g.body);
  }

  /** The first opening brace ends the header, and the last closing brace ends the block. */
  lemma BracesOfBlock(h: string, body: string)
    requires Index(h, "{") == |h| - 1 && h != "" && h[|h| - 1] == '{'
    ensures var block := h + body + "}";
            && Index(block, "{") == |h| - 1 && LastIndex(block, "}") == |block| - 1
            && block[..|h|] == h && block[|h|..|block| - 1] == body && block[|block| - 1..] == "}"
  {
    var block, lead := h + body + "}", h[..|h| - 1];
    assert h == lead + "{";
    if i :| 0 <= i < |lead| && lead[i] == '{' { assert At(h, i, "{"); }
    assert block == lead + "{" + (body + "}");
    IndexOfChar(lead, '{', body + "}");
    assert At(block, |block| - 1, "}");
  }
}

/** Printing is stable, and leaves the user's text alone. */
module FixedPoint {
  import opened Wrappers
  import opened Text
  import opened Patterns
  import opened Overrides
  import opened Document
  import opened Rewrite
  import opened RoundTrip

  lemma {:induction false} CarryingPrintsAlike(os: seq<Override>)
    ensures RateLines(Carrying(os)) == RateLines(os) && ExemptLines(Carrying(os)) == ExemptLines(os)
  {
    if os != [] {
      var front, last := os[..|os| - 1], os[|os| - 1];
      CarryingPrintsAlike(front);
      if last.Carries() {
        var c := Carrying(front) + [last];
        assert c[..|c| - 1] == Carrying(front);
      }
    }
  }

  lemma SeparatorOnce(post: string)
    ensures Separator(Separator(post) + post) == ""
  {
  }

  /** A second print of what was read back has the same user text. */
  lemma RereadPost(d: Doc, d': Doc, sep: string)
    requires WellFormed(d) && LineTerminated(d.preManaged) && (sep == "" || sep == "\n")
    requires FindGeo(d.Merged()).Some? && |BlockOf(d).before| >= |d.preManaged|
    requires d' == d.(overrides := Carrying(d.overrides), postManaged := sep + NewPost(d))
    ensures FindGeo(d'.Merged()).Some? && |BlockOf(d').before| >= |d'.preManaged|
    ensures NewPost(d') == d'.postManaged
  {
    var g, pre := BlockOf(d), d.preManaged;
    var mid := g.before[|pre|..];
    UserTextIsReread(d, sep);
    assert d'.Merged() == pre + (sep + NewPost(d));
    CarryingPrintsAlike(d.overrides);
    RewriteIsCanonical(g.body, d.overrides, d.overrides);
    assert BlockOf(d').before == pre + (sep + mid);
    assert BlockOf(d').before[|pre|..] == sep + mid;
    var body := NewBody(g.body, d.overrides);
    assert NewBody(body, d'.overrides) == body;
    BeforeCut(Geo(sep + mid, g.header, body, g.after), sep, mid);
  }

  lemma ManagedIsFixed(d: Doc)
    requires WellFormed(d) && d.hasManaged
    requires FindGeo(d.Merged()).Some? && |BlockOf(d).before| >= |d.preManaged|
    requires WellFormed(Reread(d))
    ensures Emit(Reread(d)) == Emit(d)
  {
    var d' := Reread(d);
    EmitPrints(d);
    EmitPrints(d');
    RereadPost(d, d', Separator(NewPost(d)));
    RegionAlike(d.overrides, d.global);
    SeparatorOnce(NewPost(d));
    EmptyInFront(NewPost(d'));
  }

  lemma EmptyInFront(s: string)
    ensures "" + s == s
  {
  }

  lemma RegionAlike(os: seq<Override>, global: string)
    ensures ManagedRegion(Carrying(os), global) == ManagedRegion(os, global)
  {
    CarryingPrintsAlike(os);
    assert GeoBody(Carrying(os)) == GeoBody(os);
  }

  lemma UnmanagedIsFixed(d: Doc)
    requires WellFormed(d) && !d.hasManaged
    requires FindGeo(d.Merged()).Some? && |BlockOf(d).before| >= |d.preManaged|
    requires WellFormed(Reread(d))
    ensures Emit(Reread(d)) == Emit(d)
  {
    EmitPrints(d);
    EmitPrints(Reread(d));
    assert "" + NewPost(d) == NewPost(d);
    RereadPost(d, Reread(d), "");
  }

  /** A file the program printed is printed again byte for byte, with no growth anywhere. */
  lemma EmitIsFixedPoint(d: Doc)
    requires WellFormed(d)
    ensures Emit(d).Ok? && ParseDoc(Emit(d).value).Ok?
    ensures Emit(ParseDoc(Emit(d).value).value) == Emit(d)
  {
    PrintedIsReread(d);
    if d.hasManaged { ManagedIsFixed(d); } else { UnmanagedIsFixed(d); }
  }

  /**
   * Whatever happens to the rules, the printed file consists of the user's text byte for byte, with
   * only the managed region, the body of the geo block and at most one blank line after the region new.
   */
  lemma UserTextSurvives(d: Doc, os: seq<Override>)
      returns (mid: string, header: string, body: string, after: string, sep: string)
    requires WellFormed(d) && WellFormed(d.(overrides := os))
    ensures d.postManaged == mid + (header + body + "}") + after
    ensures sep == "" || (d.hasManaged && sep == "\n")
    ensures Emit(d.(overrides := os)) == Ok(
              (if d.hasManaged then d.preManaged + ManagedRegion(os, d.global) else d.preManaged) +
              (sep + (mid + (header + NewBody(body, os) + "}") + after)))
  {
    hide BlockPlaced, RewriteMerged, ManagedPlaced;
    var e := d.(overrides := os);
    assert e.Merged() == d.Merged();
    EmitPrints(e);
    BeforeSplits(e);
    var g, pre := BlockOf(e), d.preManaged;
    mid, header, body, after := g.before[|pre|..], g.header, g.body, g.after;
    sep := if d.hasManaged then Separator(NewPost(e)) else "";
    PostIsAround(g, pre, mid, d.postManaged);
    EmptyInFront(NewPost(e));
  }

  lemma PostIsAround(g: Geo, pre: string, mid: string, post: string)
    requires g.before == pre + mid && g.Whole() == pre + post
    ensures post == mid + (g.header + g.body + "}") + g.after
  {
    BeforeCut(g, pre, mid);
    var w := g.(before := mid).Whole();
    assert (pre + post)[|pre|..] == post && (pre + w)[|pre|..] == w;
  }
}

/**
 * The parsed document as the object the endpoints update in place. Every method is proved to do
 * what the function of the same name in Document.dfy says.
 */
module RateLimitDocs {
  import opened Wrappers
  import opened Lists
  import opened Text
  import opened Regex
  import opened Patterns
  import opened Overrides
  import D = Document

  class RateLimitDoc {
    var global: string
    var hasManaged: bool
    var overrides: seq<Override>
    var connLimit: int
    var connLimitParsed: bool
    var preManaged: string
    var postManaged: string

    /** The document this object holds. */
    ghost function View(): D.Doc
      reads this
    {
      D.Doc(global, hasManaged, overrides, connLimit, connLimitParsed, preManaged, postManaged)
    }

    constructor ()
      ensures View() == D.Doc("", false, [], 0, false, "", "")
    {
      global, hasManaged, overrides := "", false, [];
      connLimit, connLimitParsed := 0, false;
      preManaged, postManaged := "", "";
    }

    // ---- Rules ----

    method UpsertRate(ip: string, rate: string)
      modifies this`overrides
      ensures overrides == Overrides.UpsertRate(old(overrides), ip, rate)
    {
      for i := 0 to |overrides|
        invariant overrides == old(overrides)
        invariant i <= Find(overrides, ip)
      {
        if overrides[i].ip == ip {
          overrides := overrides[i := overrides[i].(rate := rate)];
          return;
        }
      }
      overrides := overrides + [Override(ip, rate, false)];
    }

    method UpsertExempt(ip: string, exempt: bool)
      modifies this`overrides
      ensures overrides == Overrides.UpsertExempt(old(overrides), ip, exempt)
    {
      for i := 0 to |overrides|
        invariant overrides == old(overrides)
        invariant i <= Find(overrides, ip)
      {
        if overrides[i].ip == ip {
          overrides := overrides[i := overrides[i].(exempt := exempt)];
          return;
        }
      }
      overrides := overrides + [Override(ip, "", exempt)];
    }

    /** The library sort; AnySortAgrees shows that the choice of algorithm cannot be seen. */
    method SortOverrides()
      modifies this`overrides
      ensures overrides == SortByIP(old(overrides))
    {
      var sorted: seq<Override> := [];
      for i := 0 to |overrides|
        invariant overrides == old(overrides)
        invariant sorted == SortByIP(overrides[..i])
      {
        sorted := Insert(overrides[i], sorted);
        assert overrides[..i + 1][..i] == overrides[..i];
      }
      assert overrides[..|overrides|] == overrides;
      overrides := sorted;
    }

    method SetOverride(valid: string -> bool, ip: string, rate: string, exempt: bool) returns (error: Option<D.Error>)
      modifies this`overrides
      ensures match D.SetOverride(old(View()), valid, ip, rate, exempt)
              case Ok(d) => error == None && View() == d
              case Err(e) => error == Some(e) && View() == old(View())
    {
      if !valid(ip) { return Some(D.InvalidIP); }
      if rate != "" {
        if !D.ValidRate(rate) { return Some(D.InvalidRate); }
      }
      for i := 0 to |overrides|
        invariant View() == old(View())
        invariant i <= Find(overrides, ip)
      {
        if overrides[i].ip == ip {
          overrides := overrides[i := overrides[i].(rate := rate, exempt := exempt)];
          assert overrides == Put(old(overrides), Override(ip, rate, exempt));
          SortOverrides();
          return None;
        }
      }
      overrides := overrides + [Override(ip, rate, exempt)];
      SortOverrides();
      return None;
    }

    /**
     * The kept rules are written to the front of the array they are read from, which is safe
     * because the write position never overtakes the read position.
     */
    method ClearOverride(ip: string)
      modifies this`overrides
      ensures View() == D.ClearOverride(old(View()), ip)
    {
      var all := overrides;
      var n := |all|;
      var backing := new Override[n](i requires 0 <= i < n => all[i]);
      var m := 0;
      for i := 0 to n
        invariant overrides == all && m <= i
        invariant backing[..m] == Without(all[..i], ip)
        invariant backing[i..] == all[i..]
      {
        var o := backing[i];
        assert backing[i..][0] == all[i..][0];
        assert all[..i + 1][..i] == all[..i];
        ghost var rest := backing[i + 1..];
        assert backing[i..][1..] == rest && all[i..][1..] == all[i + 1..];
        if o.ip != ip {
          backing[m] := o;
          m := m + 1;
          assert backing[..m] == backing[..m - 1] + [o];
          assert backing[i + 1..] == rest;
        }
      }
      assert all[..n] == all;
      overrides := backing[..m];
    }

    // ---- The global rate and the migration ----

    method SetGlobal(rate: string) returns (error: Option<D.Error>)
      modifies this
      ensures (View(), error) == D.SetGlobal(old(View()), rate)
    {
      if !D.ValidRate(rate) { return Some(D.InvalidRate); }
      if rate == "0" { return Some(D.InvalidRate); }
      global := rate;
      if hasManaged { return None; }
      var m := D.FindLimitRate(postManaged);
      if m == None { return Some(D.NoLimitRate); }
      var indent := m.value.parts[0];
      postManaged := ReplaceFirst(postManaged, Concat(m.value.parts), indent + (LIMIT_RATE + (" " + (rate + ";"))));
      return None;
    }

    method Migrate() returns (error: Option<D.Error>)
      modifies this
      ensures match D.Migrate(old(View()))
              case Ok(d) => error == None && View() == d
              case Err(e) => error == Some(e) && View() == old(View())
    {
      if hasManaged { return None; }
      var user := postManaged;
      var m := D.FindLimitRate(user);
      if m == None { return Some(D.NoLimitRate); }
      var currentValue := m.value.parts[3];
      if currentValue == D.EFFECTIVE_RATE_VAR { return Some(D.NoLimitRate); }
      global := currentValue;
      var indent := m.value.parts[0];
      var newLine := indent + (LIMIT_RATE + (" " + (D.EFFECTIVE_RATE_VAR + ";")));
      postManaged := ReplaceFirst(user, Concat(m.value.parts), newLine);
      hasManaged := true;
      return None;
    }

    // ---- Reading ----

    method ParseManaged(managed: string) returns (error: Option<D.Error>)
      requires overrides == [] && global == ""
      modifies this`overrides, this`global
      ensures match D.ParseManaged(managed)
              case Ok(r) => error == None && overrides == r.0 && global == r.1
              case Err(e) => error == Some(e)
    {
      var body := D.BracedAfter(managed, D.MANAGED_GEO);
      if body.Err? { return Some(body.error); }
      ReadRates(Lines(body.value));
      var mapBody := D.FirstBraces(managed, D.MANAGED_MAP);
      if mapBody.Some? { ReadFallback(Lines(mapBody.value)); }
      return None;
    }

    /** One rule for each entry of the managed geo block; a later entry for the same address wins. */
    method ReadRates(ls: seq<string>)
      requires overrides == []
      modifies this`overrides
      ensures overrides == D.RatesFrom(D.Entries(ls))
    {
      for i := 0 to |ls|
        invariant overrides == D.RatesFrom(D.Entries(ls[..i]))
      {
        SnocEntries(ls, i);
        var e := D.EntryOf(ls[i]);
        if e.Some? { UpsertRate(e.value.0, e.value.1); }
      }
      assert ls[..|ls|] == ls;
    }

    /** The first line keyed by the empty string gives the global rate. */
    method ReadFallback(ls: seq<string>)
      requires global == ""
      modifies this`global
      ensures global == D.Fallback(ls)
    {
      for i := 0 to |ls|
        invariant global == "" && D.Fallback(ls) == D.Fallback(ls[i..])
      {
        assert ls[i..][1..] == ls[i + 1..];
        var t := TrimSpace(ls[i]);
        if D.EMPTY_KEY <= t {
          var rest := TrimSpace(D.DropSemicolon(TrimSpace(t[2..])));
          if rest != "" { global := rest; }
          return;
        }
      }
    }

    /** ParseDoc: a new object holding what the content says. */
    static method ParseDoc(content: string) returns (r: Result<RateLimitDoc, D.Error>)
      ensures match D.ParseDoc(content)
              case Ok(d) => r.Ok? && fresh(r.value) && r.value.View() == d
              case Err(e) => r == Err(e)
    {
      var d := new RateLimitDoc();
      var s := D.SplitAtMarkers(content);
      d.preManaged, d.postManaged := s.pre, s.post;
      if s.managed.Some? {
        d.hasManaged := true;
        var error := d.ParseManaged(s.managed.value);
        if error.Some? { return Err(error.value); }
      }
      d.ParseUser(s);
      return Ok(d);
    }

    method ParseUser(s: D.Split)
      requires preManaged == s.pre && postManaged == s.post && hasManaged == s.managed.Some?
      modifies this
      ensures View() == D.ParseUser(s, old(overrides), old(global))
    {
      hide FindGeo, D.Entries, D.ExemptsFrom, D.ConnLimitOf, D.FirstRate, Lines;
      var merged := preManaged + postManaged;
      var m := FindGeo(merged);
      if m.Some? { ReadExempts(Lines(m.value.body)); }
      if global == "" { ReadGlobal(Lines(merged)); }
      var conn := D.ConnLimitOf(merged);
      if conn.Some? {
        connLimit, connLimitParsed := conn.value, true;
      } else {
        connLimit, connLimitParsed := D.DEFAULT_CONN_LIMIT, false;
      }
      SortOverrides();
    }

    /** The zero entries among the lines of the user's block. */
    method ReadExempts(ls: seq<string>)
      modifies this`overrides
      ensures overrides == D.ExemptsFrom(D.Entries(ls), old(overrides))
    {
      for i := 0 to |ls|
        invariant overrides == D.ExemptsFrom(D.Entries(ls[..i]), old(overrides))
      {
        ExemptsStep(ls, i, old(overrides));
        hide D.Entries, D.EntryOf, D.ExemptsFrom;
        var e := D.EntryOf(ls[i]);
        if e.Some? {
          if e.value.1 == "0" { UpsertExempt(e.value.0, true); }
        }
      }
      assert ls[..|ls|] == ls;
    }

    /** The first directive that does not name the monitor's own variable. */
    method ReadGlobal(ls: seq<string>)
      requires global == ""
      modifies this`global
      ensures global == D.FirstRate(ls)
    {
      for i := 0 to |ls|
        invariant global == "" && D.FirstRate(ls) == D.FirstRate(ls[i..])
      {
        assert ls[i..][1..] == ls[i + 1..];
        var m := MatchLimitRate(ls[i]);
        if m.Some? {
          if m.value.0[3] != D.EFFECTIVE_RATE_VAR {
            global := m.value.0[3];
            return;
          }
        }
      }
    }

    // ---- Printing ----

    /** rewriteGeoRateLimit. */
    static method RewriteGeoRateLimit(block: string, overrides: seq<Override>) returns (r: Result<string, D.Error>)
      ensures r == D.RewriteGeo(block, overrides)
    {
      hide Lines, Terminated, Trim, Filter, LastIndex, Index;
      var open, close := Index(block, "{"), LastIndex(block, "}");
      if open < 0 || close < open { return Err(D.MalformedBlock); }
      assert block[open] == block[open..open + 1][0] == '{';
      assert block[close] == block[close..close + 1][0] == '}';
      var header, body, footer := block[..open + 1], block[open + 1..close], block[close..];
      var kept := KeepUserLines(Lines(body));
      var b := PrintLines(header + "\n", kept);
      b := PrintExempts(b, kept, header + "\n", overrides);
      b := b + footer;
      Assoc(header, "\n", Terminated(kept + D.ExemptLines(overrides)));
      return Ok(b);
    }

    /** Filter the lines, then drop blank lines at both ends. */
    static method KeepUserLines(ls: seq<string>) returns (kept: seq<string>)
      ensures kept == Trim(D.IsBlankLine, Filter(D.IsKept, ls))
    {
      kept := FilterLines(D.IsKept, ls);
      kept := TrimLines(D.IsBlankLine, kept);
    }

    static method FilterLines(keep: string -> bool, ls: seq<string>) returns (kept: seq<string>)
      ensures kept == Filter(keep, ls)
    {
      kept := [];
      for i := 0 to |ls|
        invariant kept == Filter(keep, ls[..i])
      {
        FilterSnoc(keep, ls[..i], ls[i]);
        assert ls[..i + 1] == ls[..i] + [ls[i]];
        if keep(ls[i]) { kept := kept + [ls[i]]; }
      }
      assert ls[..|ls|] == ls;
    }

    static method TrimLines(blank: string -> bool, ls: seq<string>) returns (kept: seq<string>)
      ensures kept == Trim(blank, ls)
    {
      kept := ls;
      while |kept| > 0 && blank(kept[0])
        invariant DropFront(blank, kept) == DropFront(blank, ls)
      {
        kept := kept[1..];
      }
      ghost var front := kept;
      while |kept| > 0 && blank(kept[|kept| - 1])
        invariant DropBack(blank, kept) == DropBack(blank, front)
      {
        kept := kept[..|kept| - 1];
      }
    }

    static method PrintLines(start: string, ls: seq<string>) returns (b: string)
      ensures b == start + Terminated(ls)
    {
      b := start;
      for i := 0 to |ls|
        invariant b == start + Terminated(ls[..i])
      {
        b := b + ls[i];
        b := b + "\n";
        TerminatedStep(start, ls[..i], ls[i]);
        assert ls[..i + 1] == ls[..i] + [ls[i]];
      }
      assert ls[..|ls|] == ls;
    }

    static method PrintExempts(b0: string, kept: seq<string>, start: string, os: seq<Override>) returns (b: string)
      requires b0 == start + Terminated(kept)
      ensures b == start + Terminated(kept + D.ExemptLines(os))
    {
      b := b0;
      assert kept + D.ExemptLines(os[..0]) == kept;
      for i := 0 to |os|
        invariant b == start + Terminated(kept + D.ExemptLines(os[..i]))
      {
        var o := os[i];
        ghost var done := D.ExemptLines(os[..i]);
        assert os[..i + 1][..i] == os[..i];
        if o.exempt {
          var line := D.EntryLine(o.ip, "0");
          b := b + line + "\n";
          TerminatedStep(start, kept + done, line);
          assert kept + (done + [line]) == (kept + done) + [line];
        }
      }
      assert os[..|os|] == os;
    }

    static method PrintRates(b0: string, lead: seq<string>, start: string, os: seq<Override>) returns (b: string)
      requires b0 == start + Terminated(lead)
      ensures b == start + Terminated(lead + D.RateLines(os))
    {
      b := b0;
      assert lead + D.RateLines(os[..0]) == lead;
      for i := 0 to |os|
        invariant b == start + Terminated(lead + D.RateLines(os[..i]))
      {
        var o := os[i];
        ghost var done := D.RateLines(os[..i]);
        assert os[..i + 1][..i] == os[..i];
        if o.HasRate() {
          var line := D.EntryLine(o.ip, o.rate);
          b := b + line + "\n";
          TerminatedStep(start, lead + done, line);
          assert lead + (done + [line]) == (lead + done) + [line];
        }
      }
      assert os[..|os|] == os;
    }

    method Emit() returns (r: Result<string, D.Error>)
      ensures r == D.Emit(View())
    {
      hide FindGeo, D.RewriteGeo, Terminated, D.RateLines, D.FallbackLine, D.NewBody;
      var merged := preManaged + postManaged;
      var m := FindGeo(merged);
      if m.Some? {
        var updated := RewriteGeoRateLimit(m.value.Block(), overrides);
        if updated.Err? { return Err(updated.error); }
        merged := m.value.before + updated.value + m.value.after;
      }
      if !hasManaged { return Ok(merged); }
      if |merged| < |preManaged| { return Err(D.SliceOutOfRange); }
      var pre, post := merged[..|preManaged|], merged[|preManaged|..];
      var start := pre + D.BEGIN_MARKER + "\n" + D.GEO_HEAD + "{" + "\n";
      var b := PrintLines(start, [D.GEO_DEFAULT]);
      b := PrintRates(b, [D.GEO_DEFAULT], start, overrides);
      b := b + "}\n";
      if global == "" { return Err(D.NoGlobal); }
      var start' := b + D.MAP_HEAD + "{" + "\n";
      b := PrintLines(start', [D.FallbackLine(global), D.MAP_DEFAULT]);
      b := b + "}\n" + D.END_MARKER + "\n";
      if !("\n" <= post) && !(" " <= post) && post != "" { b := b + "\n"; } else { b := b + ""; }
      b := b + post;
      RegionFromPieces(pre, D.BEGIN_MARKER, D.GEO_HEAD, Terminated([D.GEO_DEFAULT] + D.RateLines(overrides)),
                       D.MAP_HEAD, Terminated([D.FallbackLine(global), D.MAP_DEFAULT]), D.END_MARKER,
                       D.Separator(post), post);
      return Ok(b);
    }
  }

  lemma SnocEntries(ls: seq<string>, i: nat)
    requires i < |ls|
    ensures D.Entries(ls[..i + 1]) ==
            if D.EntryOf(ls[i]).None? then D.Entries(ls[..i]) else D.Entries(ls[..i]) + [D.EntryOf(ls[i]).value]
  {
    assert ls[..i + 1] == ls[..i] + [ls[i]];
    CollectSnoc(D.EntryOf, ls[..i], ls[i]);
  }

  lemma ExemptsStep(ls: seq<string>, i: nat, os: seq<Override>)
    requires i < |ls|
    ensures D.ExemptsFrom(D.Entries(ls[..0]), os) == os
    ensures var r, e := D.ExemptsFrom(D.Entries(ls[..i]), os), D.EntryOf(ls[i]);
            D.ExemptsFrom(D.Entries(ls[..i + 1]), os) ==
            if e.Some? && e.value.1 == "0" then UpsertExempt(r, e.value.0, true) else r
  {
    hide D.EntryOf;
    SnocEntries(ls, i);
    var es := D.Entries(ls[..i]);
    assert forall e: (string, string) :: (es + [e])[..|es|] == es;
  }

  lemma TerminatedStep(start: string, ls: seq<string>, l: string)
    ensures start + Terminated(ls) + l + "\n" == start + Terminated(ls + [l])
  {
    assert (ls + [l])[..|ls|] == ls;
    Assoc(start, Terminated(ls), l);
    Assoc(start, Terminated(ls) + l, "\n");
  }

  lemma RegionFromPieces(pre: string, begin: string, geo: string, geoBody: string, head: string, mapBody: string,
                         end: string, sep: string, post: string)
    ensures var start := pre + begin + "\n" + geo + "{" + "\n";
            var b := start + geoBody + "}\n";
            var b' := b + head + "{" + "\n" + mapBody + "}\n" + end + "\n" + sep + post;
            b' == pre + (begin + (("\n" + (D.BlockText(geo, "\n" + geoBody) + D.BlockText(head, "\n" + mapBody)))
                                  + (end + "\n"))) + (sep + post)
  {
  }
}

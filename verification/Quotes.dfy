/**
 * The directive is found by its pattern and edited by its text: what happens when that text is quoted
 * earlier in the file.
 */
module Quotes {
  import opened Lists
  import opened Text
  import opened Regex
  import opened Patterns
  import opened Document
  import opened Directives
  import opened RoundTrip
  import opened Edits

  lemma SameTextSameParts(parts: seq<string>, parts': seq<string>)
    requires Reads(LIMIT_RATE_LINE, parts) && Reads(LIMIT_RATE_LINE, parts') && Concat(parts) == Concat(parts')
    ensures parts == parts'
  {
    DirectiveIsMatched(parts, "");
    DirectiveIsMatched(parts', "");
  }

  /** Two line-terminated texts followed by newline-free texts agree only part by part. */
  lemma SameLastLine(x: string, t: string, y: string, u: string)
    requires x != "" && y != "" && LineTerminated(x) && LineTerminated(y) && '\n' !in t && '\n' !in u
    requires x + t == y + u
    ensures t == u
  {
    LastLineAfter(x, t);
    LastLineAfter(y, u);
    OneLine(t);
    OneLine(u);
  }

  lemma EndsInside(x: string, y: string, i: int, t: string)
    requires LineTerminated(x) && '\n' !in t && At(x + y, i, t) && 0 <= i < |x|
    ensures i + |t| < |x|
  {
    assert (x + y)[|x| - 1] == x[|x| - 1] == '\n';
    assert forall k :: i <= k < i + |t| ==> (x + y)[k] == t[k - i];
  }

  /** Replacing the first t of b + tail, when it lies in b, leaves the tail alone. */
  lemma ReplacedEarlier(b: string, tail: string, t: string, t': string) returns (x: string, i: int)
    requires LineTerminated(b) && '\n' !in t && Contains(b + tail, t) && Index(b + tail, t) < |b|
    ensures x != "" && LineTerminated(x)
    ensures ReplaceFirst(b + tail, t, t') == x + tail
    ensures At(b, i, t) && i == Index(b + tail, t) && x == b[..i] + t' + b[i + |t|..]
  {
    var s := b + tail;
    i := Index(s, t);
    EndsInside(b, tail, i, t);
    x := b[..i] + t' + b[i + |t|..];
    assert s[..i] == b[..i];
    assert s[i + |t|..] == b[i + |t|..] + tail;
    Assoc(b[..i] + t', b[i + |t|..], tail);
    assert b[i + |t|..][|b| - i - |t| - 1] == '\n';
    assert b[i..i + |t|] == s[i..i + |t|];
    assert At(b, i, t);
  }

  /** When the text of the directive occurs earlier, that occurrence is edited and the directive's own line stays. */
  lemma EarlierTextIsEdited(p: Place, value: string) returns (x: string, i: int)
    requires IsFirst(p) && Token(value)
    requires Index(p.Whole(), Concat(p.parts)) < |p.before|
    ensures x != "" && LineTerminated(x)
    ensures ReplaceDirective(p.Whole(), p, value) == x + (Concat(p.parts) + p.after)
    ensures At(p.before, i, Concat(p.parts)) && i == Index(p.Whole(), Concat(p.parts))
    ensures x == p.before[..i] + Concat(NewParts(p, value)) + p.before[i + |Concat(p.parts)|..]
  {
    hide Concat, ReplaceFirst, Index;
    var t, b := Concat(p.parts), p.before;
    Assoc(b, t, p.after);
    AtMiddle(b, t, p.after);
    DirectiveHasNoNewline(p.parts);
    NewPartsRead(p, value);
    x, i := ReplacedEarlier(b, t + p.after, t, p.parts[0] + (LIMIT_RATE + (" " + (value + ";"))));
  }

  /**
   * Migrate and SetGlobal edit the directive they found if and only if its text does not occur
   * earlier in the file.
   */
  lemma DirectiveIsEditedIff(p: Place, value: string)
    requires IsFirst(p) && Token(value) && p.parts[3] != value
    ensures ReplaceDirective(p.Whole(), p, value) == Edited(p, value).Whole() <==>
            Index(p.Whole(), Concat(p.parts)) == |p.before|
  {
    var t, t' := Concat(p.parts), Concat(NewParts(p, value));
    NewPartsRead(p, value);
    Assoc(p.before, t, p.after);
    AtMiddle(p.before, t, p.after);
    if Index(p.Whole(), t) == |p.before| {
      ReplacedInPlace(p, value);
    } else if ReplaceDirective(p.Whole(), p, value) == Edited(p, value).Whole() {
      var x, i := EarlierTextIsEdited(p, value);
      Assoc(x, t, p.after);
      Assoc(p.before, t', p.after);
      DropTail(x + t, p.before + t', p.after);
      DirectiveHasNoNewline(p.parts);
      DirectiveHasNoNewline(NewParts(p, value));
      SameLastLine(x, t, p.before, t');
      SameTextSameParts(p.parts, NewParts(p, value));
    }
  }

  /** Where the characters of a directive are. */
  lemma WordsOf(parts: seq<string>) returns (k: nat, v: nat, w: nat)
    requires Reads(LIMIT_RATE_LINE, parts)
    ensures var t := Concat(parts);
            && v == k + 10 + |parts[2]| && v > k + 10 && v < w < |t| && t[|t| - 1] == ';'
            && (forall i :: 0 <= i < k ==> Is(Blank, t[i]))
            && (forall i :: k <= i < k + 10 ==> !Is(Blank, t[i]))
            && (forall i :: k + 10 <= i < v ==> Is(Blank, t[i]))
            && (forall i :: v <= i < w ==> !Is(Blank, t[i]))
            && (forall i :: w <= i < |t| - 1 ==> Is(Blank, t[i]))
            && (forall i :: 0 <= i < |t| - 1 ==> t[i] != ';')
  {
    assert forall i :: 0 <= i < 6 ==> LIMIT_RATE_LINE[i].Fits(parts[i]);
    ConcatSix(parts[0], LIMIT_RATE, parts[2], parts[3], parts[4], ";");
    assert parts == [parts[0], LIMIT_RATE, parts[2], parts[3], parts[4], ";"];
    k := |parts[0]|;
    v := k + 10 + |parts[2]|;
    w := v + |parts[3]|;
    WordPositions(parts[0], parts[2], parts[3], parts[4]);
  }

  lemma WordPositions(indent: string, gap: string, value: string, tail: string)
    requires All(Blank, indent) && All(Blank, gap) && gap != "" && All(TokenChar, value) && value != "" && All(Blank, tail)
    ensures var t := indent + (LIMIT_RATE + (gap + (value + (tail + ";"))));
            var k := |indent|; var v := k + 10 + |gap|; var w := v + |value|;
            && w < |t| && t[|t| - 1] == ';'
            && (forall i :: 0 <= i < k ==> Is(Blank, t[i]))
            && (forall i :: k <= i < k + 10 ==> !Is(Blank, t[i]))
            && (forall i :: k + 10 <= i < v ==> Is(Blank, t[i]))
            && (forall i :: v <= i < w ==> !Is(Blank, t[i]))
            && (forall i :: w <= i < |t| - 1 ==> Is(Blank, t[i]))
            && (forall i :: 0 <= i < |t| - 1 ==> t[i] != ';')
  {
    var k := |indent|;
    var v := k + 10 + |gap|;
    var w := v + |value|;
    var t := indent + (LIMIT_RATE + (gap + (value + (tail + ";"))));
    assert forall i :: 0 <= i < 10 ==> !Is(Blank, LIMIT_RATE[i]) && LIMIT_RATE[i] != ';';
    assert forall i :: 0 <= i < k ==> t[i] == indent[i];
    assert forall i :: k <= i < k + 10 ==> t[i] == LIMIT_RATE[i - k];
    assert forall i :: k + 10 <= i < v ==> t[i] == gap[i - k - 10];
    assert forall i :: v <= i < w ==> t[i] == value[i - v];
    assert forall i :: w <= i < |t| - 1 ==> t[i] == tail[i - w];
  }

  /** A text of two words and a semicolon has its first word where its last but one starts. */
  lemma SameWord(c: string, k: nat, v: nat, w: nat, a: nat)
    requires k + 10 < v < w < |c| && a + 11 < |c| - 1
    requires forall i :: 0 <= i < k ==> Is(Blank, c[i])
    requires forall i :: k + 10 <= i < v ==> Is(Blank, c[i])
    requires forall i :: w <= i < |c| - 1 ==> Is(Blank, c[i])
    requires forall i :: v <= i < w ==> !Is(Blank, c[i])
    requires forall i :: a <= i < a + 10 ==> !Is(Blank, c[i])
    requires Is(Blank, c[a + 10]) && !Is(Blank, c[a + 11])
    ensures a <= k
  {
    assert Is(Blank, c[k + 10]);
    assert !Is(Blank, c[a]);
  }

  lemma IndentedReads(u: string, parts: seq<string>)
    requires Reads(LIMIT_RATE_LINE, parts) && All(Blank, u)
    ensures Reads(LIMIT_RATE_LINE, parts[0 := u + parts[0]])
    ensures Concat(parts[0 := u + parts[0]]) == u + Concat(parts)
  {
    var q := parts[0 := u + parts[0]];
    assert forall i :: 0 <= i < 6 ==> LIMIT_RATE_LINE[i].Fits(parts[i]);
    assert LIMIT_RATE_LINE[0].Fits(q[0]);
    assert forall i :: 0 <= i < 6 ==> LIMIT_RATE_LINE[i].Fits(q[i]);
    assert q[1..] == parts[1..];
    Assoc(u, parts[0], Concat(parts[1..]));
  }

  /** A directive that reads u and another directive together starts with the blanks u. */
  lemma OneDirectiveOnly(u: string, parts: seq<string>, q: seq<string>)
    requires Reads(LIMIT_RATE_LINE, parts) && Reads(LIMIT_RATE_LINE, q) && Concat(q) == u + Concat(parts)
    requires parts[2] == " "
    ensures All(Blank, u)
  {
    var c, t := Concat(q), Concat(parts);
    var k, v, w := WordsOf(q);
    var k', v', w' := WordsOf(parts);
    var a := |u| + k';
    assert forall i :: 0 <= i < |u| ==> c[i] == u[i];
    assert forall i :: 0 <= i < |t| ==> c[|u| + i] == t[i];
    assert forall i :: a <= i < a + 10 ==> c[i] == t[i - |u|];
    assert c[a + 10] == t[k' + 10] && c[a + 11] == t[k' + 11];
    hide Concat;
    SameWord(c, k, v, w, a);
  }

  /** On a line that is no directive, a quoted directive does not become one by being edited. */
  lemma QuoteStaysSilent(u: string, parts: seq<string>, parts': seq<string>, v: string)
    requires Reads(LIMIT_RATE_LINE, parts) && Reads(LIMIT_RATE_LINE, parts') && parts'[2] == " "
    requires !HoldsRate(u + (Concat(parts) + v))
    ensures !HoldsRate(u + (Concat(parts') + v))
  {
    var t, t' := Concat(parts), Concat(parts');
    var s' := u + (t' + v);
    if HoldsRate(s') {
      MatchSound(LIMIT_RATE_LINE, s');
      var (q, rest) := MatchLimitRate(s').value;
      if |Concat(q)| <= |u| {
        PrefixHoldsRate(q, rest, u, t' + v, t + v);
      } else {
        EndsWithQuote(q, rest, u, parts', v);
        OneDirectiveOnly(u, parts', q);
        IndentedReads(u, parts);
        DirectiveIsMatched(parts[0 := u + parts[0]], v);
        Assoc(u, t, v);
      }
    }
  }

  lemma PrefixHoldsRate(q: seq<string>, rest: string, u: string, y: string, z: string)
    requires Reads(LIMIT_RATE_LINE, q) && Concat(q) + rest == u + y && |Concat(q)| <= |u|
    ensures HoldsRate(u + z)
  {
    var c := Concat(q);
    assert (c + rest)[..|c|] == c && (u + y)[..|c|] == u[..|c|];
    DirectiveIsMatched(q, u[|c|..] + z);
    assert u == c + u[|c|..];
    Assoc(c, u[|c|..], z);
  }

  /** Semicolons end directives, so one that reaches into a quoted directive ends with it. */
  lemma EndsWithQuote(q: seq<string>, rest: string, u: string, parts: seq<string>, v: string)
    requires Reads(LIMIT_RATE_LINE, q) && Reads(LIMIT_RATE_LINE, parts)
    requires Concat(q) + rest == u + (Concat(parts) + v) && |Concat(q)| > |u|
    ensures Concat(q) == u + Concat(parts)
  {
    hide Concat;
    var k, b, w := WordsOf(q);
    var k', b', w' := WordsOf(parts);
    SameEnd(Concat(q), rest, u, Concat(parts), v);
  }

  lemma SameEnd(c: string, rest: string, u: string, t: string, v: string)
    requires c + rest == u + (t + v) && |c| > |u| && t != ""
    requires c[|c| - 1] == ';' && forall i :: 0 <= i < |c| - 1 ==> c[i] != ';'
    requires t[|t| - 1] == ';' && forall i :: 0 <= i < |t| - 1 ==> t[i] != ';'
    ensures c == u + t
  {
    var s := u + (t + v);
    assert forall i :: 0 <= i < |c| ==> s[i] == c[i];
    assert forall i :: 0 <= i < |t| ==> s[|u| + i] == t[i];
    assert s[|c| - 1] == ';' && s[|u| + |t| - 1] == ';';
    assert forall i :: |u| <= i < |u| + |t| - 1 ==> s[i] == t[i - |u|];
    assert |c| == |u| + |t|;
    assert s[..|c|] == c;
    assert s[..|u| + |t|] == u + t;
  }

  /** The lines of a text around a stretch without newlines. */
  lemma LinesAround(b: string, t: string, y: string)
    requires '\n' !in t
    ensures Lines(b + (t + y)) == FullLines(b) + ([LastLine(b) + (t + FirstLine(y))] + Lines(y)[1..])
  {
    var u := LastLine(b);
    LinesAfterLast(b, t + y);
    LastLineIsSuffix(b);
    Assoc(u, t, y);
    LinesOfOneThen(u + t, y);
    Assoc(u, t, FirstLine(y));
  }

  lemma EditedQuoteIsSilent(b: string, i: nat, parts: seq<string>, parts': seq<string>, x: string)
    requires Reads(LIMIT_RATE_LINE, parts) && Reads(LIMIT_RATE_LINE, parts') && parts'[2] == " "
    requires At(b, i, Concat(parts)) && LineTerminated(b) && Filter(HoldsRate, FullLines(b)) == []
    requires x == b[..i] + Concat(parts') + b[i + |Concat(parts)|..] && LineTerminated(x)
    ensures Filter(HoldsRate, FullLines(x)) == []
  {
    hide HoldsRate, Lines, Concat, Filter, Reads;
    var t, t' := Concat(parts), Concat(parts');
    var front, y := b[..i], b[i + |t|..];
    assert b == front + (t + y);
    Assoc(front, t', y);
    DirectiveHasNoNewline(parts);
    DirectiveHasNoNewline(parts');
    AllLinesSilent(b);
    LinesAround(front, t, y);
    LinesAround(front, t', y);
    SilentAroundQuote(FullLines(front), LastLine(front), parts, parts', FirstLine(y), Lines(y)[1..]);
    FullLinesFiltered(x);
  }

  lemma SilentAroundQuote(a: seq<string>, u: string, parts: seq<string>, parts': seq<string>, v: string, z: seq<string>)
    requires Reads(LIMIT_RATE_LINE, parts) && Reads(LIMIT_RATE_LINE, parts') && parts'[2] == " "
    requires Filter(HoldsRate, a + ([u + (Concat(parts) + v)] + z)) == []
    ensures Filter(HoldsRate, a + ([u + (Concat(parts') + v)] + z)) == []
  {
    hide HoldsRate, Concat;
    var l, l' := u + (Concat(parts) + v), u + (Concat(parts') + v);
    FilterConcat(HoldsRate, a, [l] + z);
    FilterConcat(HoldsRate, [l], z);
    FilterConcat(HoldsRate, a, [l'] + z);
    FilterConcat(HoldsRate, [l'], z);
    FilterSnoc(HoldsRate, [], l);
    FilterSnoc(HoldsRate, [], l');
    assert [] + [l] == [l] && [] + [l'] == [l'];
    QuoteStaysSilent(u, parts, parts', v);
  }

  lemma NewGap(p: Place, value: string)
    requires |p.parts| == 6
    ensures |NewParts(p, value)| == 6 && NewParts(p, value)[2] == " "
  {
  }

  lemma QuoteIsEdited(p: Place, value: string) returns (x: string)
    requires IsFirst(p) && Contains(p.before, Concat(p.parts)) && Token(value)
    ensures ReplaceDirective(p.Whole(), p, value) == Place(x, p.parts, p.after).Whole()
    ensures IsFirst(Place(x, p.parts, p.after))
  {
    NewPartsRead(p, value);
    DirectiveHasNoNewline(p.parts);
    hide ReplaceDirective, Contains, Concat, FullLines, HoldsRate, Filter, Reads, Lines, NewParts, Token, At;
    OccursInFront(p);
    var i: int;
    x, i := EarlierTextIsEdited(p, value);
    NewGap(p, value);
    EditedQuoteIsSilent(p.before, i, p.parts, NewParts(p, value), x);
  }

  /** When the directive's text is quoted earlier, the directive itself stays the first one, unedited. */
  lemma QuotedStays(user: string, value: string)
    requires FindLimitRate(user).Some? && !Unquoted(user) && Token(value)
    ensures var p := FindLimitRate(user).value;
            var r := FindLimitRate(ReplaceDirective(user, p, value));
            r.Some? && r.value.parts == p.parts && r.value.after == p.after
  {
    hide FindLimitRate, ReplaceDirective, Contains, Concat, IsFirst;
    FindLimitRateFound(user);
    var p := FindLimitRate(user).value;
    var x := QuoteIsEdited(p, value);
    FindLimitRateIs(Place(x, p.parts, p.after));
  }

  lemma OccursInFront(p: Place)
    requires Contains(p.before, Concat(p.parts)) && Concat(p.parts) != "" && LineTerminated(p.before)
    ensures Index(p.Whole(), Concat(p.parts)) < |p.before|
  {
    var t := Concat(p.parts);
    var i := Index(p.before, t);
    AtWithin("", p.before, t + p.after, i, t);
    assert "" + p.before + (t + p.after) == p.Whole();
  }

  /**
   * Rewriting the directive takes effect if and only if its text is not quoted earlier in the file;
   * otherwise the quote is edited and the directive that counts stays as it was.
   */
  lemma TakesEffectIff(user: string, value: string)
    requires FindLimitRate(user).Some? && Token(value) && FindLimitRate(user).value.parts[3] != value
    ensures var p := FindLimitRate(user).value;
            var r := FindLimitRate(ReplaceDirective(user, p, value));
            && r.Some?
            && (r.value.parts[3] == value <==> Unquoted(user))
            && (if Unquoted(user) then r.value == Edited(p, value) else r.value.parts == p.parts)
  {
    hide FindLimitRate, ReplaceDirective, Contains, Concat;
    FindLimitRateFound(user);
    if Unquoted(user) {
      var p := FindLimitRate(user).value;
      DirectiveIsFirstText(p);
      ReplacedInPlace(p, value);
    } else {
      QuotedStays(user, value);
    }
  }

  /** An edit that took effect can be followed by another one if and only if its own text is not quoted earlier either. */
  lemma StaysUnquotedIff(user: string, value: string)
    requires FindLimitRate(user).Some? && Unquoted(user) && Token(value)
    ensures var p := FindLimitRate(user).value;
            Unquoted(ReplaceDirective(user, p, value)) <==> !Contains(p.before, Concat(NewParts(p, value)))
  {
    hide FindLimitRate, ReplaceDirective, Contains, Concat;
    FindLimitRateFound(user);
    var p := FindLimitRate(user).value;
    DirectiveIsFirstText(p);
    ReplacedInPlace(p, value);
  }
}

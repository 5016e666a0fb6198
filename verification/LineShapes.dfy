/** The lines the program knows, stated on their characters alone. */
module LineShapes {
  import opened Wrappers
  import opened Lists
  import opened Text
  import opened Regex
  import opened Patterns
  import opened Document
  import opened Rewrite
  import opened Directives
  import opened UserText

  // ---- Characters ----

  const DIGITS := "0123456789"
  const IP_CHARS := DIGITS + "ABCDEFabcdef:./"
  const BLANKS := " \t"
  const RE_WHITE := " \t\n\r\U{000C}"
  const WHITE :=
    " \t\n\r\U{000B}\U{000C}\U{0085}\U{00A0}\U{1680}\U{2000}\U{2001}\U{2002}\U{2003}\U{2004}\U{2005}\U{2006}" +
    "\U{2007}\U{2008}\U{2009}\U{200A}\U{2028}\U{2029}\U{202F}\U{205F}\U{3000}"

  predicate Only(s: string, chars: string) {
    forall c :: c in s ==> c in chars
  }

  lemma WhiteChars(c: char)
    ensures Is(Space, c) <==> c in WHITE
    ensures Is(ReSpace, c) <==> c in RE_WHITE
    ensures Is(Blank, c) <==> c in BLANKS
  {
  }

  lemma AddressChars(c: char)
    ensures Is(Digit, c) <==> c in DIGITS
    ensures Is(IPChar, c) <==> c in IP_CHARS
  {
  }

  lemma OnlyIsAll(s: string)
    ensures Only(s, WHITE) <==> All(Space, s)
    ensures Only(s, RE_WHITE) <==> All(ReSpace, s)
    ensures Only(s, BLANKS) <==> All(Blank, s)
    ensures Only(s, DIGITS) <==> All(Digit, s)
    ensures Only(s, IP_CHARS) <==> All(IPChar, s)
  {
    hide Is, WHITE, RE_WHITE, BLANKS, DIGITS, IP_CHARS;
    forall c | c in s
      ensures Is(Space, c) <==> c in WHITE
      ensures Is(ReSpace, c) <==> c in RE_WHITE
      ensures Is(Blank, c) <==> c in BLANKS
      ensures Is(Digit, c) <==> c in DIGITS
      ensures Is(IPChar, c) <==> c in IP_CHARS
    {
      WhiteChars(c);
      AddressChars(c);
    }
    assert forall i :: 0 <= i < |s| ==> s[i] in s;
  }

  /** A word of a directive: no semicolon and no white space. */
  predicate IsWord(s: string) {
    s != "" && forall c :: c in s ==> c != ';' && c !in RE_WHITE
  }

  lemma WordIsToken(s: string)
    ensures IsWord(s) <==> Token(s)
  {
    hide RE_WHITE;
    forall c | c in s ensures Is(TokenChar, c) <==> c != ';' && c !in RE_WHITE {
      WhiteChars(c);
    }
    assert forall i :: 0 <= i < |s| ==> s[i] in s;
  }

  // ---- Trimming ----

  lemma LeftParts(s: string) returns (a: string)
    ensures s == a + TrimLeft(s) && All(Space, a)
  {
    TrimLeftFacts(s);
    a := s[..|s| - |TrimLeft(s)|];
  }

  lemma RightParts(s: string) returns (b: string)
    ensures s == TrimRight(s) + b && All(Space, b)
  {
    TrimRightFacts(s);
    b := s[|TrimRight(s)|..];
  }

  lemma TrimParts(s: string) returns (a: string, b: string)
    ensures s == a + (TrimSpace(s) + b) && All(Space, a) && All(Space, b)
  {
    hide All, TrimLeft, TrimRight;
    a := LeftParts(s);
    b := RightParts(TrimLeft(s));
  }

  /** White space in front of a visible character is trimmed, and nothing up to the last visible one. */
  lemma TrimmedFrom(lead: string, m: string, rest: string) returns (rest': string)
    requires All(Space, lead) && m != "" && Trimmed(m)
    ensures TrimSpace(lead + (m + rest)) == m + rest'
  {
    var r := m + rest;
    RunIs(Space, lead, r);
    TrimRightFacts(r);
    var t := TrimRight(r);
    assert r[|m| - 1] == m[|m| - 1];
    assert |t| >= |m|;
    rest' := t[|m|..];
    assert t == r[..|t|] && t[..|m|] == m;
  }

  // ---- Comments, default lines and visible lines ----

  predicate HasInk(l: string) {
    exists c :: c in l && c !in WHITE
  }

  /** The line is this word with white space in front and anything behind. */
  ghost predicate StartsWith(l: string, word: string) {
    exists lead, rest :: l == lead + (word + rest) && Only(lead, WHITE)
  }

  /** A line of the user's own: a comment, or the default of the block. */
  ghost predicate IsOwnLine(l: string) {
    StartsWith(l, "#") || StartsWith(l, "default")
  }

  lemma InkIsVisible(l: string)
    ensures HasInk(l) <==> IsVisible(l)
  {
    OnlyIsAll(l);
    TrimSpaceBlank(l);
  }

  lemma StartIff(l: string, word: string)
    requires word != "" && Trimmed(word)
    ensures StartsWith(l, word) <==> word <= TrimSpace(l)
  {
    hide WHITE;
    if StartsWith(l, word) {
      var lead, rest :| l == lead + (word + rest) && Only(lead, WHITE);
      OnlyIsAll(lead);
      var rest' := TrimmedFrom(lead, word, rest);
    }
    if word <= TrimSpace(l) {
      var a, b := TrimParts(l);
      OnlyIsAll(a);
      var t := TrimSpace(l);
      assert t == word + t[|word|..];
      Assoc(word, t[|word|..], b);
      assert l == a + (word + (t[|word|..] + b));
    }
  }

  /** Kept by the rewrite and skipped by the reader: blank lines and the user's own. */
  lemma KeptIff(l: string)
    ensures IsKept(l) <==> !HasInk(l) || IsOwnLine(l)
  {
    InkIsVisible(l);
    StartIff(l, "#");
    StartIff(l, "default");
  }

  // ---- Entries ----

  /** An address, white space, a value and a semicolon, with anything behind it. */
  ghost predicate IsEntryLine(l: string, ip: string, value: string) {
    exists lead, gap, tail, rest ::
      && l == lead + (ip + (gap + (value + (tail + (";" + rest)))))
      && Only(lead, WHITE) && gap != "" && Only(gap, RE_WHITE) && Only(tail, RE_WHITE)
      && ip != "" && Only(ip, IP_CHARS) && IsWord(value)
  }

  lemma NotOwnText(ip: string, gap: string, more: string)
    requires EntryIP(ip) && gap != "" && All(ReSpace, gap)
    ensures var m := ip + (gap + more); !("#" <= m) && !("default" <= m)
  {
    var m := ip + (gap + more);
    assert m[0] == ip[0] && m[|ip|] == gap[0];
    assert Is(ReSpace, gap[0]) && forall i :: 0 <= i < |ip| ==> m[i] == ip[i];
    PrefixAt("default", m, 4);
    if |ip| <= 4 { PrefixAt("default", m, |ip|); }
  }

  lemma PrefixAt(word: string, s: string, i: nat)
    requires i < |word|
    ensures word <= s ==> i < |s| && s[i] == word[i]
  {
  }

  /** An entry in front of a rest is matched as it stands. */
  lemma EntryMatched(ip: string, gap: string, value: string, tail: string, rest: string)
    requires EntryIP(ip) && gap != "" && All(ReSpace, gap) && Token(value) && All(ReSpace, tail)
    ensures MatchEntry((ip + (gap + (value + (tail + ";")))) + rest) == Some((ip, value))
  {
    var parts := ["", ip, gap, value, tail, ";"];
    EntryIsDeterministic();
    MatchComplete(ENTRY, parts, rest);
    ConcatSix("", ip, gap, value, tail, ";");
    var m := ip + (gap + (value + (tail + ";")));
    assert "" + m == m;
  }

  lemma EntryRead(lead: string, ip: string, gap: string, value: string, tail: string, rest: string)
    requires All(Space, lead) && EntryIP(ip) && gap != "" && All(ReSpace, gap) && Token(value) && All(ReSpace, tail)
    ensures EntryOf(lead + (ip + (gap + (value + (tail + (";" + rest)))))) == Some((ip, value))
  {
    hide MatchEntry, TrimSpace, Token;
    var m := ip + (gap + (value + (tail + ";")));
    assert Is(IPChar, ip[0]) && m[0] == ip[0] && m[|m| - 1] == ';';
    FiveThenRest(ip, gap, value, tail, rest);
    var rest' := TrimmedFrom(lead, m, rest);
    FiveThenRest(ip, gap, value, tail, rest');
    NotOwnText(ip, gap, value + (tail + (";" + rest')));
    EntryMatched(ip, gap, value, tail, rest');
  }

  lemma FiveThenRest(a: string, b: string, c: string, d: string, rest: string)
    ensures (a + (b + (c + (d + ";")))) + rest == a + (b + (c + (d + (";" + rest))))
  {
    Assoc(d, ";", rest);
    Assoc(c, d + ";", rest);
    Assoc(b, c + (d + ";"), rest);
    Assoc(a, b + (c + (d + ";")), rest);
  }

  /** A line gives an entry if and only if it has the shape of one; what is behind the semicolon does not matter. */
  lemma EntryIff(l: string, ip: string, value: string)
    ensures EntryOf(l) == Some((ip, value)) <==> IsEntryLine(l, ip, value)
  {
    hide Match, TrimSpace, WHITE, RE_WHITE, IP_CHARS, Only, IsWord, Token, All;
    if IsEntryLine(l, ip, value) {
      var lead, gap, tail, rest :|
        && l == lead + (ip + (gap + (value + (tail + (";" + rest)))))
        && Only(lead, WHITE) && gap != "" && Only(gap, RE_WHITE) && Only(tail, RE_WHITE)
        && ip != "" && Only(ip, IP_CHARS) && IsWord(value);
      OnlyIsAll(lead);
      OnlyIsAll(gap);
      OnlyIsAll(tail);
      OnlyIsAll(ip);
      WordIsToken(value);
      EntryRead(lead, ip, gap, value, tail, rest);
    }
    if EntryOf(l) == Some((ip, value)) {
      EntryParts(l, ip, value);
    }
  }

  lemma EntryParts(l: string, ip: string, value: string)
    requires EntryOf(l) == Some((ip, value))
    ensures IsEntryLine(l, ip, value)
  {
    hide Match, TrimSpace, WHITE, RE_WHITE, IP_CHARS, Only, IsWord;
    var a, b := TrimParts(l);
    var t := TrimSpace(l);
    MatchSound(ENTRY, t);
    var (q, rest) := Match(ENTRY, t).value;
    assert forall i :: 0 <= i < 6 ==> ENTRY[i].Fits(q[i]);
    assert q == [q[0], ip, q[2], value, q[4], ";"];
    ConcatSix(q[0], ip, q[2], value, q[4], ";");
    var lead := a + q[0];
    WhiteTogether(a, q[0]);
    Regroup(a, q[0], ip, q[2], value, q[4], rest, b);
    OnlyIsAll(lead);
    OnlyIsAll(q[2]);
    OnlyIsAll(q[4]);
    OnlyIsAll(ip);
    WordIsToken(value);
    assert All(IPChar, ip) && ip != "" && Token(value) && q[2] != "";
    assert l == lead + (ip + (q[2] + (value + (q[4] + (";" + (rest + b))))));
  }

  lemma WhiteTogether(a: string, b: string)
    requires All(Space, a) && All(ReSpace, b)
    ensures All(Space, a + b)
  {
  }

  lemma Regroup(a: string, lead: string, ip: string, gap: string, value: string, tail: string, rest: string, b: string)
    ensures a + (((lead + (ip + (gap + (value + (tail + ";"))))) + rest) + b)
            == (a + lead) + (ip + (gap + (value + (tail + (";" + (rest + b))))))
  {
    Assoc(lead + (ip + (gap + (value + (tail + ";")))), rest, b);
    var r := rest + b;
    Assoc(tail, ";", r);
    Assoc(value, tail + ";", r);
    Assoc(gap, value + (tail + ";"), r);
    Assoc(ip, gap + (value + (tail + ";")), r);
    Assoc(lead, ip + (gap + (value + (tail + ";"))), r);
    Assoc(a, lead, ip + (gap + (value + (tail + (";" + r)))));
  }

  // ---- Directives ----

  ghost predicate IsRateLine(l: string, value: string) {
    exists lead, gap, tail, rest ::
      && l == lead + ("limit_rate" + (gap + (value + (tail + (";" + rest)))))
      && Only(lead, BLANKS) && gap != "" && Only(gap, BLANKS) && Only(tail, BLANKS) && IsWord(value)
  }

  ghost predicate IsConnLine(l: string, digits: string) {
    exists lead, gap, gap', tail, rest ::
      && l == lead + ("limit_conn" + (gap + ("perip" + (gap' + (digits + (tail + (";" + rest)))))))
      && Only(lead, BLANKS) && gap != "" && Only(gap, BLANKS) && gap' != "" && Only(gap', BLANKS) && Only(tail, BLANKS)
      && digits != "" && Only(digits, DIGITS)
  }

  lemma RateRead(lead: string, gap: string, value: string, tail: string, rest: string)
    requires All(Blank, lead) && gap != "" && All(Blank, gap) && All(Blank, tail) && Token(value)
    ensures MatchLimitRate(lead + ("limit_rate" + (gap + (value + (tail + (";" + rest))))))
            == Some(([lead, "limit_rate", gap, value, tail, ";"], rest))
  {
    var parts := [lead, "limit_rate", gap, value, tail, ";"];
    DirectiveIsMatched(parts, rest);
    ConcatSix(lead, "limit_rate", gap, value, tail, ";");
    SixThenRest(lead, "limit_rate", gap, value, tail, rest);
  }

  lemma SixThenRest(a: string, b: string, c: string, d: string, e: string, rest: string)
    ensures (a + (b + (c + (d + (e + ";"))))) + rest == a + (b + (c + (d + (e + (";" + rest)))))
  {
    FiveThenRest(b, c, d, e, rest);
    Assoc(a, b + (c + (d + (e + ";"))), rest);
  }

  /** The first directive's line, and its value. */
  lemma RateLineIff(l: string, value: string)
    ensures MatchLimitRate(l).Some? && MatchLimitRate(l).value.0[3] == value <==> IsRateLine(l, value)
  {
    hide Match, BLANKS, RE_WHITE, Only, IsWord, All;
    if IsRateLine(l, value) {
      var lead, gap, tail, rest :|
        && l == lead + ("limit_rate" + (gap + (value + (tail + (";" + rest)))))
        && Only(lead, BLANKS) && gap != "" && Only(gap, BLANKS) && Only(tail, BLANKS) && IsWord(value);
      OnlyIsAll(lead);
      OnlyIsAll(gap);
      OnlyIsAll(tail);
      WordIsToken(value);
      RateRead(lead, gap, value, tail, rest);
    }
    if MatchLimitRate(l).Some? && MatchLimitRate(l).value.0[3] == value {
      RateParts(l);
    }
  }

  lemma RateParts(l: string)
    requires MatchLimitRate(l).Some?
    ensures IsRateLine(l, MatchLimitRate(l).value.0[3])
  {
    hide Match, BLANKS, RE_WHITE, Only, IsWord;
    MatchSound(LIMIT_RATE_LINE, l);
    var (q, rest) := MatchLimitRate(l).value;
    assert forall i :: 0 <= i < 6 ==> LIMIT_RATE_LINE[i].Fits(q[i]);
    assert q == [q[0], "limit_rate", q[2], q[3], q[4], ";"];
    ConcatSix(q[0], "limit_rate", q[2], q[3], q[4], ";");
    SixThenRest(q[0], "limit_rate", q[2], q[3], q[4], rest);
    OnlyIsAll(q[0]);
    OnlyIsAll(q[2]);
    OnlyIsAll(q[4]);
    WordIsToken(q[3]);
    assert l == q[0] + ("limit_rate" + (q[2] + (q[3] + (q[4] + (";" + rest)))));
  }

  lemma EightParts(q: seq<string>, rest: string)
    requires |q| == 8 && q[1] == "limit_conn" && q[3] == "perip" && q[7] == ";"
    ensures Concat(q) + rest == q[0] + ("limit_conn" + (q[2] + ("perip" + (q[4] + (q[5] + (q[6] + (";" + rest)))))))
  {
    var t := q[2..];
    ConcatSix(t[0], t[1], t[2], t[3], t[4], t[5]);
    assert t == [t[0], t[1], t[2], t[3], t[4], t[5]];
    assert q[1..][1..] == t;
    SixThenRest(t[0], t[1], t[2], t[3], t[4], rest);
    Assoc("limit_conn", Concat(t), rest);
    Assoc(q[0], "limit_conn" + Concat(t), rest);
  }

  lemma ConnRead(q: seq<string>, rest: string)
    requires |q| == 8 && q[1] == "limit_conn" && q[3] == "perip" && q[7] == ";"
    requires All(Blank, q[0]) && All(Blank, q[2]) && q[2] != "" && All(Blank, q[4]) && q[4] != "" && All(Blank, q[6])
    requires All(Digit, q[5]) && q[5] != ""
    ensures MatchLimitConn(Concat(q) + rest) == Some(q[5])
  {
    LimitConnIsDeterministic();
    assert Reads(LIMIT_CONN_PERIP, q);
    MatchComplete(LIMIT_CONN_PERIP, q, rest);
  }

  lemma ConnOfText(lead: string, gap: string, gap': string, digits: string, tail: string, rest: string)
    requires Only(lead, BLANKS) && gap != "" && Only(gap, BLANKS) && gap' != "" && Only(gap', BLANKS) && Only(tail, BLANKS)
    requires digits != "" && Only(digits, DIGITS)
    ensures MatchLimitConn(lead + ("limit_conn" + (gap + ("perip" + (gap' + (digits + (tail + (";" + rest)))))))) == Some(digits)
  {
    hide MatchLimitConn, BLANKS, DIGITS, Only, All, Concat;
    OnlyIsAll(lead);
    OnlyIsAll(gap);
    OnlyIsAll(gap');
    OnlyIsAll(tail);
    OnlyIsAll(digits);
    var q := [lead, "limit_conn", gap, "perip", gap', digits, tail, ";"];
    EightParts(q, rest);
    ConnRead(q, rest);
  }

  lemma ConnIfShape(l: string, digits: string)
    requires IsConnLine(l, digits)
    ensures MatchLimitConn(l) == Some(digits)
  {
    hide MatchLimitConn, BLANKS, DIGITS, Only;
    var lead, gap, gap', tail, rest :|
      && l == lead + ("limit_conn" + (gap + ("perip" + (gap' + (digits + (tail + (";" + rest)))))))
      && Only(lead, BLANKS) && gap != "" && Only(gap, BLANKS) && gap' != "" && Only(gap', BLANKS) && Only(tail, BLANKS)
      && digits != "" && Only(digits, DIGITS);
    ConnOfText(lead, gap, gap', digits, tail, rest);
  }

  /** The connection limit's line, and its digits. */
  lemma ConnLineIff(l: string, digits: string)
    ensures MatchLimitConn(l) == Some(digits) <==> IsConnLine(l, digits)
  {
    hide MatchLimitConn, IsConnLine;
    if IsConnLine(l, digits) { ConnIfShape(l, digits); }
    if MatchLimitConn(l) == Some(digits) { ConnParts(l); }
  }

  lemma ConnParts(l: string)
    requires MatchLimitConn(l).Some?
    ensures IsConnLine(l, MatchLimitConn(l).value)
  {
    hide Match, BLANKS, DIGITS, Only, Concat;
    MatchSound(LIMIT_CONN_PERIP, l);
    var (q, rest) := Match(LIMIT_CONN_PERIP, l).value;
    assert forall i :: 0 <= i < 8 ==> LIMIT_CONN_PERIP[i].Fits(q[i]);
    EightParts(q, rest);
    OnlyIsAll(q[0]);
    OnlyIsAll(q[2]);
    OnlyIsAll(q[4]);
    OnlyIsAll(q[5]);
    OnlyIsAll(q[6]);
  }

  // ---- The opening of the user's block ----

  ghost predicate IsOpening(h: string) {
    exists gap, tail :: h == "geo" + (gap + ("$rate_limit" + (tail + "{"))) && gap != "" && Only(gap, RE_WHITE) && Only(tail, RE_WHITE)
  }

  lemma OpeningIff(h: string)
    ensures IsHeader(h) <==> IsOpening(h)
  {
    hide IsHeader, RE_WHITE, Only, All;
    if IsHeader(h) {
      var gap, tail := HeaderParts(h);
      OnlyIsAll(gap);
      OnlyIsAll(tail);
    }
    if IsOpening(h) {
      var gap, tail :| h == "geo" + (gap + ("$rate_limit" + (tail + "{"))) && gap != "" && Only(gap, RE_WHITE) && Only(tail, RE_WHITE);
      OnlyIsAll(gap);
      OnlyIsAll(tail);
      HeaderFrom(gap, tail);
    }
  }
}

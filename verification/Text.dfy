/** The string operations the config editor is built from, with the laws its proofs use. */
module Text {

  /** p occurs in s at position i. */
  predicate At(s: string, i: int, p: string) {
    0 <= i <= |s| - |p| && s[i..i + |p|] == p
  }

  /** First occurrence of p in s, or -1. */
  function Index(s: string, p: string): (r: int)
    ensures r == -1 || At(s, r, p)
    ensures forall i :: At(s, i, p) ==> 0 <= r <= i
  {
    IndexFrom(s, p, 0)
  }

  function IndexFrom(s: string, p: string, from: nat): (r: int)
    requires from <= |s|
    ensures r == -1 || (from <= r && At(s, r, p))
    ensures forall i :: from <= i && At(s, i, p) ==> 0 <= r <= i
    decreases |s| - from
  {
    if At(s, from, p) then from
    else if from == |s| then -1
    else IndexFrom(s, p, from + 1)
  }

  /** Last occurrence of p in s, or -1. */
  function LastIndex(s: string, p: string): (r: int)
    ensures r == -1 || At(s, r, p)
    ensures forall i :: At(s, i, p) ==> i <= r
  {
    LastIndexBelow(s, p, |s| + 1)
  }

  function LastIndexBelow(s: string, p: string, end: nat): (r: int)
    ensures r == -1 || (r < end && At(s, r, p))
    ensures forall i :: i < end && At(s, i, p) ==> i <= r
  {
    if end == 0 then -1
    else if At(s, end - 1, p) then end - 1
    else LastIndexBelow(s, p, end - 1)
  }

  predicate Contains(s: string, p: string)
    ensures Contains(s, p) <==> exists i :: At(s, i, p)
  {
    Index(s, p) >= 0
  }

  /** Replace the first occurrence of from by to. */
  function ReplaceFirst(s: string, from: string, to: string): string {
    var i := Index(s, from);
    if i < 0 then s else s[..i] + to + s[i + |from|..]
  }

  lemma AtMiddle(x: string, p: string, y: string)
    ensures At(x + p + y, |x|, p)
  {
  }

  /** An occurrence in a substring is an occurrence in the whole. */
  lemma AtWithin(x: string, s: string, y: string, i: int, p: string)
    requires At(s, i, p)
    ensures At(x + s + y, |x| + i, p)
  {
    var t := x + s + y;
    assert t[|x| + i..|x| + i + |p|] == s[i..i + |p|];
  }

  /** A pattern without a newline never spans one. */
  lemma AtAcrossNewline(x: string, y: string, i: int, p: string)
    requires At(x + "\n" + y, i, p)
    requires '\n' !in p && p != ""
    ensures At(x, i, p) || At(y, i - |x| - 1, p)
  {
    var t := x + "\n" + y;
    assert forall j :: i <= j < i + |p| ==> t[j] == p[j - i];
    assert t[|x|] == '\n';
    if i + |p| <= |x| {
      assert t[i..i + |p|] == x[i..i + |p|];
    } else if i > |x| {
      assert t[i..i + |p|] == y[i - |x| - 1..i - |x| - 1 + |p|];
    }
  }

  lemma ContainsAcrossNewline(x: string, y: string, p: string)
    requires '\n' !in p && p != ""
    ensures Contains(x + "\n" + y, p) <==> Contains(x, p) || Contains(y, p)
  {
    if Contains(x + "\n" + y, p) {
      AtAcrossNewline(x, y, Index(x + "\n" + y, p), p);
    }
    if Contains(x, p) {
      assert "" + x + ("\n" + y) == x + "\n" + y;
      AtWithin("", x, "\n" + y, Index(x, p), p);
    }
    if Contains(y, p) {
      assert (x + "\n") + y + "" == x + "\n" + y;
      AtWithin(x + "\n", y, "", Index(y, p), p);
    }
  }

  lemma ContainsWithin(x: string, s: string, y: string, p: string)
    requires Contains(s, p)
    ensures Contains(x + s + y, p)
  {
    AtWithin(x, s, y, Index(s, p), p);
  }

  /** The first p is where a p-free text ends, for a one-character p. */
  lemma IndexOfChar(x: string, c: char, y: string)
    requires c !in x
    ensures Index(x + [c] + y, [c]) == |x|
  {
    var t := x + [c] + y;
    AtMiddle(x, [c], y);
    var i := Index(t, [c]);
    assert t[i..i + 1][0] == t[i];
    assert forall j :: 0 <= j < |x| ==> t[j] == x[j];
  }

  // ---- Lines ----

  /** One more character in front of the first line, or a new first line. */
  function Push(c: char, ls: seq<string>): (r: seq<string>)
    requires |ls| >= 1
    ensures |r| >= 1
  {
    if c == '\n' then [""] + ls else [[c] + ls[0]] + ls[1..]
  }

  /** strings.Split(s, "\n"). */
  function Lines(s: string): (ls: seq<string>)
    ensures |ls| >= 1
  {
    if s == "" then [""] else Push(s[0], Lines(s[1..]))
  }

  lemma LinesCons(c: char, s: string)
    ensures Lines([c] + s) == Push(c, Lines(s))
  {
    assert ([c] + s)[1..] == s;
  }

  lemma PushFirst(c: char, a: seq<string>, b: seq<string>)
    requires |a| >= 1
    ensures Push(c, a + b) == Push(c, a) + b
  {
    assert (a + b)[0] == a[0] && (a + b)[1..] == a[1..] + b;
  }

  predicate NoNewlines(ls: seq<string>) {
    forall l :: l in ls ==> '\n' !in l
  }

  /** Each line followed by a newline. */
  function Terminated(ls: seq<string>): string {
    if ls == [] then "" else Terminated(ls[..|ls| - 1]) + ls[|ls| - 1] + "\n"
  }

  lemma {:induction false} LinesHaveNoNewline(s: string)
    ensures NoNewlines(Lines(s))
  {
    if s != "" { LinesHaveNoNewline(s[1..]); }
  }

  lemma {:induction false} OneLine(s: string)
    requires '\n' !in s
    ensures Lines(s) == [s]
  {
    if s != "" {
      OneLine(s[1..]);
      assert s == [s[0]] + s[1..];
    }
  }

  lemma ConsConcat(a: string, b: string)
    requires a != ""
    ensures a + b == [a[0]] + (a[1..] + b)
  {
  }

  lemma {:induction false} LinesAcrossNewline(a: string, b: string)
    ensures Lines(a + "\n" + b) == Lines(a) + Lines(b)
  {
    if a == "" {
      assert a + "\n" + b == ['\n'] + b;
      LinesCons('\n', b);
    } else {
      var c, t := a[0], a[1..];
      LinesAcrossNewline(t, b);
      ConsConcat(a, "\n");
      ConsConcat(a + "\n", b);
      assert (a + "\n")[1..] == t + "\n";
      LinesCons(c, t + "\n" + b);
      PushFirst(c, Lines(t), Lines(b));
    }
  }

  function Joined(la: seq<string>, lb: seq<string>): (r: seq<string>)
    requires |la| >= 1 && |lb| >= 1
    ensures |r| >= 1
  {
    la[..|la| - 1] + [la[|la| - 1] + lb[0]] + lb[1..]
  }

  lemma PushJoined(c: char, r: seq<string>, lb: seq<string>)
    requires |r| >= 1 && |lb| >= 1
    ensures Joined(Push(c, r), lb) == Push(c, Joined(r, lb))
  {
    var q := Push(c, r);
    if c == '\n' {
      assert q[..|q| - 1] == [""] + r[..|r| - 1];
    } else if |r| == 1 {
      assert [c] + r[0] + lb[0] == [c] + (r[0] + lb[0]);
    } else {
      assert q[..|q| - 1] == [[c] + r[0]] + r[..|r| - 1][1..];
    }
  }

  /** Joining two texts joins the last line of one with the first line of the other. */
  lemma {:induction false} LinesOfConcat(a: string, b: string)
    ensures Lines(a + b) == Joined(Lines(a), Lines(b))
  {
    if a == "" {
      assert a + b == b;
      JoinEmpty([""], Lines(b));
    } else {
      LinesOfConcat(a[1..], b);
      ConsConcat(a, b);
      LinesCons(a[0], a[1..] + b);
      PushJoined(a[0], Lines(a[1..]), Lines(b));
    }
  }

  /** Joining with an empty last line is concatenation. */
  lemma JoinEmpty(la: seq<string>, lb: seq<string>)
    requires |la| >= 1 && |lb| >= 1 && la[|la| - 1] == ""
    ensures Joined(la, lb) == la[..|la| - 1] + lb
  {
    assert "" + lb[0] == lb[0];
    assert [lb[0]] + lb[1..] == lb;
  }

  lemma {:induction false} TerminatedLines(ls: seq<string>, b: string)
    requires NoNewlines(ls)
    ensures Lines(Terminated(ls) + b) == ls + Lines(b)
  {
    hide Lines;
    if ls == [] {
      assert Terminated(ls) + b == b;
    } else {
      var front, last := ls[..|ls| - 1], ls[|ls| - 1];
      assert last in ls;
      assert forall l :: l in front ==> l in ls;
      var rest := last + "\n" + b;
      LinesAcrossNewline(last, b);
      OneLine(last);
      TerminatedLines(front, rest);
      assert Terminated(ls) + b == Terminated(front) + rest;
      PushFront(front, last, Lines(b));
      assert front + [last] == ls;
    }
  }

  lemma PushFront(front: seq<string>, last: string, rest: seq<string>)
    ensures front + ([last] + rest) == (front + [last]) + rest
  {
  }

  lemma TwoEnds(a: string, b: string, c: string)
    ensures (a + b) + c + "\n" == a + (b + c + "\n")
  {
  }

  lemma {:induction false} TerminatedConcat(a: seq<string>, b: seq<string>)
    ensures Terminated(a + b) == Terminated(a) + Terminated(b)
  {
    if b == [] {
      assert a + b == a;
    } else {
      var front := b[..|b| - 1];
      TerminatedConcat(a, front);
      assert (a + b)[..|a + b| - 1] == a + front && (a + b)[|a + b| - 1] == b[|b| - 1];
      TwoEnds(Terminated(a), Terminated(front), b[|b| - 1]);
    }
  }

  /** A text that is empty or ends with a newline. */
  predicate LineTerminated(s: string) {
    s == "" || s[|s| - 1] == '\n'
  }

  lemma {:induction false} TerminatedIsLineTerminated(ls: seq<string>)
    ensures LineTerminated(Terminated(ls))
  {
  }

  // ---- Runs of characters and trimming ----

  /** The character classes the editor scans for. */
  datatype Class =
    | Space      // Unicode white space, as strings.TrimSpace sees it
    | ReSpace    // \s
    | Blank      // [ \t]
    | TokenChar  // [^;\s]
    | IPChar     // [0-9A-Fa-f:./]
    | Digit      // [0-9]
    | BodyChar   // anything but a closing brace

  predicate Is(k: Class, c: char) {
    var n := c as int;
    match k
    case Space =>
      9 <= n <= 13 || n == 32 || n == 0x85 || n == 0xA0 || n == 0x1680 ||
      0x2000 <= n <= 0x200A || n == 0x2028 || n == 0x2029 || n == 0x202F || n == 0x205F || n == 0x3000
    case ReSpace => n == 9 || n == 10 || n == 12 || n == 13 || n == 32
    case Blank => n == 9 || n == 32
    case TokenChar => !(c == ';' || n == 9 || n == 10 || n == 12 || n == 13 || n == 32)
    case IPChar =>
      '0' <= c <= '9' || 'A' <= c <= 'F' || 'a' <= c <= 'f' || c == ':' || c == '.' || c == '/'
    case Digit => '0' <= c <= '9'
    case BodyChar => c != '}'
  }

  predicate All(k: Class, s: string) {
    forall i :: 0 <= i < |s| ==> Is(k, s[i])
  }

  /** Length of the longest prefix of s in the class: a greedy regex class. */
  function Span(k: Class, s: string): (n: nat)
    ensures n <= |s|
    ensures forall i :: 0 <= i < n ==> Is(k, s[i])
    ensures n < |s| ==> !Is(k, s[n])
  {
    if s == "" || !Is(k, s[0]) then 0 else 1 + Span(k, s[1..])
  }

  /** Split s after its longest prefix in the class. */
  function Run(k: Class, s: string): (r: (string, string))
    ensures s == r.0 + r.1
    ensures All(k, r.0)
    ensures r.1 == "" || !Is(k, r.1[0])
  {
    var n := Span(k, s);
    (s[..n], s[n..])
  }

  lemma RunIs(k: Class, a: string, b: string)
    requires All(k, a)
    requires b == "" || !Is(k, b[0])
    ensures Run(k, a + b) == (a, b)
  {
    assert forall i :: 0 <= i < |a| ==> (a + b)[i] == a[i];
    assert b != "" ==> (a + b)[|a|] == b[0];
  }

  function TrimLeft(s: string): string {
    s[Span(Space, s)..]
  }

  function TrimRight(s: string): string {
    if s == "" || !Is(Space, s[|s| - 1]) then s else TrimRight(s[..|s| - 1])
  }

  lemma TrimLeftFacts(s: string)
    ensures var r := TrimLeft(s);
            && (r == "" || !Is(Space, r[0]))
            && |r| <= |s| && s[|s| - |r|..] == r
            && forall i :: 0 <= i < |s| - |r| ==> Is(Space, s[i])
  {
  }

  lemma {:induction false} TrimRightFacts(s: string)
    ensures var r := TrimRight(s);
            && (r == "" || !Is(Space, r[|r| - 1]))
            && r <= s
            && forall i :: |r| <= i < |s| ==> Is(Space, s[i])
  {
    if s != "" && Is(Space, s[|s| - 1]) { TrimRightFacts(s[..|s| - 1]); }
  }

  /** strings.TrimSpace. */
  function TrimSpace(s: string): string {
    TrimRight(TrimLeft(s))
  }

  /** A text that starts and ends with something visible. */
  predicate Trimmed(s: string) {
    s == "" || (!Is(Space, s[0]) && !Is(Space, s[|s| - 1]))
  }

  lemma {:induction false} TrimRightIs(m: string, t: string)
    requires All(Space, t)
    requires m == "" || !Is(Space, m[|m| - 1])
    ensures TrimRight(m + t) == m
  {
    if t == "" {
      assert m + t == m;
    } else {
      assert (m + t)[..|m + t| - 1] == m + t[..|t| - 1];
      TrimRightIs(m, t[..|t| - 1]);
    }
  }

  lemma TrimSpaceIs(l: string, m: string, t: string)
    requires All(Space, l) && All(Space, t)
    requires m != "" && Trimmed(m)
    ensures TrimSpace(l + m + t) == m
  {
    assert l + m + t == l + (m + t);
    RunIs(Space, l, m + t);
    TrimRightIs(m, t);
  }

  lemma TrimSpaceBlank(s: string)
    ensures TrimSpace(s) == "" <==> All(Space, s)
  {
    var l := TrimLeft(s);
    TrimLeftFacts(s);
    TrimRightFacts(l);
    assert forall i :: |s| - |l| <= i < |s| ==> s[i] == l[i - (|s| - |l|)];
    assert l != "" ==> s[|s| - |l|] == l[0];
    assert TrimRight(l) == "" ==> All(Space, l);
  }

  // ---- Pairs of adjacent characters ----

  /** c is never directly followed by d in s. */
  predicate NoPair(s: string, c: char, d: char) {
    forall i :: 0 <= i < |s| - 1 ==> !(s[i] == c && s[i + 1] == d)
  }

  lemma NoPairConcat(a: string, b: string, c: char, d: char)
    requires NoPair(a, c, d) && NoPair(b, c, d)
    requires a == "" || b == "" || a[|a| - 1] != c || b[0] != d
    ensures NoPair(a + b, c, d)
  {
    var t := a + b;
    forall i | 0 <= i < |t| - 1 ensures !(t[i] == c && t[i + 1] == d) {
      if i + 1 < |a| {
        assert t[i] == a[i] && t[i + 1] == a[i + 1];
      } else if i >= |a| {
        assert t[i] == b[i - |a|] && t[i + 1] == b[i - |a| + 1];
      }
    }
  }

  lemma {:induction false} NoPairTerminated(ls: seq<string>, c: char, d: char)
    requires c != '\n' && d != '\n'
    requires forall l :: l in ls ==> NoPair(l, c, d)
    ensures NoPair(Terminated(ls), c, d)
  {
    if ls != [] {
      var front, last := ls[..|ls| - 1], ls[|ls| - 1];
      assert last in ls;
      NoPairTerminated(front, c, d);
      TerminatedIsLineTerminated(front);
      NoPairConcat(Terminated(front), last, c, d);
      NoPairConcat(Terminated(front) + last, "\n", c, d);
    }
  }
}

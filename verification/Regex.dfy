/** Regular expressions without alternatives, and the greedy scanner that runs them. */
module Regex {
  import opened Wrappers
  import opened Text

  /** A literal, or a character class repeated. */
  datatype Item =
    | Lit(text: string)
    | Star(k: Class)
    | Plus(k: Class)
  {
    /** part is a text this item may stand for. */
    predicate Fits(part: string) {
      match this
      case Lit(text) => part == text
      case Star(k) => All(k, part)
      case Plus(k) => part != "" && All(k, part)
    }
  }

  type Pattern = seq<Item>

  function Concat(parts: seq<string>): string {
    if parts == [] then "" else parts[0] + Concat(parts[1..])
  }

  /** The regex semantics: parts is a way of reading Concat(parts) as p. */
  predicate Reads(p: Pattern, parts: seq<string>) {
    |p| == |parts| && forall i :: 0 <= i < |p| ==> p[i].Fits(parts[i])
  }

  /** One greedy step: the part taken from the front of s, and what is left. */
  function Take(item: Item, s: string): (r: Option<(string, string)>)
    ensures r.Some? ==> item.Fits(r.value.0) && s == r.value.0 + r.value.1
  {
    match item
    case Lit(text) => if text <= s then Some((text, s[|text|..])) else None
    case Star(k) => Some(Run(k, s))
    case Plus(k) => if Run(k, s).0 == "" then None else Some(Run(k, s))
  }

  /** The scanner: every item takes all it can, and nothing is taken back. */
  function Match(p: Pattern, s: string): (r: Option<(seq<string>, string)>)
    ensures r.Some? ==> |r.value.0| == |p|
  {
    if p == [] then Some(([], s)) else
    match Take(p[0], s)
    case None => None
    case Some(first) =>
      match Match(p[1..], first.1)
      case None => None
      case Some(rest) => Some(([first.0] + rest.0, rest.1))
  }

  ghost predicate Disjoint(k: Class, k': Class) {
    forall c :: !(Is(k, c) && Is(k', c))
  }

  /** Whatever p reads, it starts with a character outside k. */
  ghost predicate Stops(p: Pattern, k: Class) {
    p != [] &&
    match p[0]
    case Lit(text) => text != "" && !Is(k, text[0])
    case Star(k') => Disjoint(k, k') && Stops(p[1..], k)
    case Plus(k') => Disjoint(k, k')
  }

  /** Every repetition is stopped by what follows it, so that greed is harmless. */
  ghost predicate Deterministic(p: Pattern) {
    p == [] || ((p[0].Lit? || Stops(p[1..], p[0].k)) && Deterministic(p[1..]))
  }

  lemma Assoc(a: string, b: string, c: string)
    ensures (a + b) + c == a + (b + c)
  {
  }

  lemma {:induction false} MatchSound(p: Pattern, s: string)
    requires Match(p, s).Some?
    ensures var (parts, rest) := Match(p, s).value; Reads(p, parts) && s == Concat(parts) + rest
  {
    if p == [] {
      assert Concat([]) + s == s;
    } else {
      var first := Take(p[0], s).value;
      MatchSound(p[1..], first.1);
      var (parts, rest) := Match(p[1..], first.1).value;
      assert ([first.0] + parts)[1..] == parts;
      Assoc(first.0, Concat(parts), rest);
    }
  }

  lemma {:induction false} StopsReading(p: Pattern, k: Class, parts: seq<string>, rest: string)
    requires Stops(p, k) && Reads(p, parts)
    ensures Concat(parts) + rest != "" && !Is(k, (Concat(parts) + rest)[0])
  {
    var tail := parts[1..];
    if parts[0] == "" {
      assert p[1..] == p[1..] && Reads(p[1..], tail);
      StopsReading(p[1..], k, tail, rest);
      assert Concat(parts) == Concat(tail);
    } else {
      assert p[0].Fits(parts[0]);
      assert (Concat(parts) + rest)[0] == parts[0][0];
    }
  }

  lemma TakeIs(item: Item, part: string, rest: string)
    requires item.Fits(part)
    requires item.Lit? || (rest != "" && !Is(item.k, rest[0]))
    ensures Take(item, part + rest) == Some((part, rest))
  {
    if !item.Lit? { RunIs(item.k, part, rest); }
  }

  /**
   * On a deterministic pattern the scanner finds the reading whenever there is one,
   * so it is also the only one.
   */
  lemma {:induction false} MatchComplete(p: Pattern, parts: seq<string>, rest: string)
    requires Deterministic(p) && Reads(p, parts)
    ensures Match(p, Concat(parts) + rest) == Some((parts, rest))
  {
    if p == [] {
      assert Concat(parts) + rest == rest;
    } else {
      var tail := Concat(parts[1..]);
      assert p[0].Fits(parts[0]);
      assert Reads(p[1..], parts[1..]);
      MatchComplete(p[1..], parts[1..], rest);
      if !p[0].Lit? { StopsReading(p[1..], p[0].k, parts[1..], rest); }
      TakeIs(p[0], parts[0], tail + rest);
      Assoc(parts[0], tail, rest);
      assert [parts[0]] + parts[1..] == parts;
    }
  }

  /** Every character read comes from one of the parts. */
  lemma {:induction false} ConcatChars(parts: seq<string>, c: char)
    requires c in Concat(parts)
    ensures exists i :: 0 <= i < |parts| && c in parts[i]
  {
    if c !in parts[0] {
      ConcatChars(parts[1..], c);
      var i :| 0 <= i < |parts[1..]| && c in parts[1..][i];
      assert c in parts[i + 1];
    }
  }

  /** A match only looks at its own text: more text after it changes nothing. */
  lemma MatchExtends(p: Pattern, s: string, more: string)
    requires Deterministic(p) && Match(p, s).Some?
    ensures Match(p, s + more) == Some((Match(p, s).value.0, Match(p, s).value.1 + more))
  {
    MatchSound(p, s);
    var (parts, rest) := Match(p, s).value;
    MatchComplete(p, parts, rest + more);
    Assoc(Concat(parts), rest, more);
  }

  predicate NewlineFree(p: Pattern) {
    forall item :: item in p ==> if item.Lit? then '\n' !in item.text else !Is(item.k, '\n')
  }

  lemma TakeAcrossNewline(item: Item, x: string, y: string)
    requires if item.Lit? then '\n' !in item.text else !Is(item.k, '\n')
    ensures Take(item, x + ("\n" + y)).Some? <==> Take(item, x).Some?
    ensures Take(item, x).Some? ==>
              Take(item, x + ("\n" + y)) == Some((Take(item, x).value.0, Take(item, x).value.1 + ("\n" + y)))
  {
    hide Run, Is, All;
    var s := x + ("\n" + y);
    if item.Lit? {
      if item.text <= s {
        assert forall i :: 0 <= i < |item.text| ==> item.text[i] == s[i];
        assert s[|x|] == '\n';
        assert item.text <= x;
        assert s[|item.text|..] == x[|item.text|..] + ("\n" + y);
      }
    } else {
      var (run, rest) := Run(item.k, x);
      assert s == run + (rest + ("\n" + y));
      RunIs(item.k, run, rest + ("\n" + y));
    }
  }

  /** A pattern that cannot read a newline matches a text exactly when it matches its first line. */
  lemma {:induction false} MatchAcrossNewline(p: Pattern, x: string, y: string)
    requires NewlineFree(p)
    ensures Match(p, x + ("\n" + y)).Some? <==> Match(p, x).Some?
    ensures Match(p, x).Some? ==>
              Match(p, x + ("\n" + y)) == Some((Match(p, x).value.0, Match(p, x).value.1 + ("\n" + y)))
  {
    if p != [] {
      assert p[0] in p;
      TakeAcrossNewline(p[0], x, y);
      if Take(p[0], x).Some? {
        assert forall item :: item in p[1..] ==> item in p;
        MatchAcrossNewline(p[1..], Take(p[0], x).value.1, y);
      }
    }
  }
}

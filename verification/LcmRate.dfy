/** The override dialogs' conversion between a client's total bandwidth and the rate per connection. */
module LcmRate {
  import opened Wrappers
  import opened Text
  import opened Decimal
  import opened LineShapes
  import D = Document

  const KILO := 1024
  const MEGA := 1024 * 1024

  // ---- String.prototype.trim ----

  predicate White(c: char) {
    c as int == 0xFEFF || (Is(Space, c) && c as int != 0x85)
  }

  function DropWhiteFront(s: string): string {
    if s != "" && White(s[0]) then DropWhiteFront(s[1..]) else s
  }

  function DropWhiteBack(s: string): string {
    if s != "" && White(s[|s| - 1]) then DropWhiteBack(s[..|s| - 1]) else s
  }

  function JSTrim(s: string): string {
    DropWhiteBack(DropWhiteFront(s))
  }

  // ---- The four functions ----

  function Unit(suffix: string): Option<nat> {
    if suffix == "" then Some(1)
    else if suffix == "k" || suffix == "K" then Some(KILO)
    else if suffix == "m" || suffix == "M" then Some(MEGA)
    else None
  }

  /** None stands for null. */
  function Parse(str: Option<string>): Option<nat> {
    if str.None? then None
    else
      var (digits, suffix) := Run(Digit, JSTrim(str.value));
      if digits == "" || Unit(suffix).None? then None
      else Some(Value(digits) * Unit(suffix).value)
  }

  function Format(n: int): string {
    if n < 0 then ""
    else if n == 0 then "0"
    else if n % MEGA == 0 then Print(n / MEGA) + "m"
    else if n % KILO == 0 then Print(n / KILO) + "k"
    else Print(n)
  }

  /** Math.floor(n / f) */
  function FloorDiv(n: int, f: int): int
    requires f != 0
  {
    if f > 0 then n / f else (-n) / (-f)
  }

  function Divide(str: Option<string>, factor: int): string {
    var n := Parse(str);
    if n.None? || factor == 0 then ""
    else if n.value == 0 then "0"
    else Format(FloorDiv(n.value, factor))
  }

  function Multiply(str: Option<string>, factor: int): string {
    var n := Parse(str);
    if n.None? || factor == 0 then ""
    else if n.value == 0 then "0"
    else Format(n.value * factor)
  }

  // ---- Printed rates ----

  lemma NotWhite(s: string)
    requires s == "" || (!White(s[0]) && !White(s[|s| - 1]))
    ensures JSTrim(s) == s
  {
  }

  /** Digits with a unit suffix mean what they say. */
  lemma ParseDigits(digits: string, suffix: string)
    requires digits != "" && All(Digit, digits) && Unit(suffix).Some?
    ensures Parse(Some(digits + suffix)) == Some(Value(digits) * Unit(suffix).value)
  {
    var s := digits + suffix;
    assert s[0] == digits[0] && s[|s| - 1] == if suffix == "" then digits[|digits| - 1] else suffix[|suffix| - 1];
    NotWhite(s);
    RunIs(Digit, digits, suffix);
  }

  /** format writes a number that parse reads back. */
  lemma ParseFormat(n: nat)
    ensures Parse(Some(Format(n))) == Some(n)
  {
    hide Parse, JSTrim, Value, Print;
    var m, suffix := if n % MEGA == 0 then n / MEGA else if n % KILO == 0 then n / KILO else n,
                     if n % MEGA == 0 then "m" else if n % KILO == 0 then "k" else "";
    PrintIsRead(m);
    PrintHasNoLeadingZero(m);
    ParseDigits(Print(m), suffix);
    if n == 0 {
      ParseZero();
    } else {
      assert Format(n) == Print(m) + suffix;
    }
  }

  lemma ParseZero()
    ensures Parse(Some("0")) == Some(0)
  {
    PrintIsRead(0);
    ParseDigits(Print(0), "");
    assert Print(0) + "" == "0";
  }

  lemma DigitsAreValid(m: nat, suffix: string)
    requires m > 0 && Unit(suffix).Some?
    ensures D.ValidRate(Print(m) + suffix)
  {
    PrintIsRead(m);
    PrintHasNoLeadingZero(m);
    RunIs(Digit, Print(m)[1..], suffix);
    ValidRateIs(Print(m) + suffix);
  }

  lemma ValidRateIs(s: string)
    requires s != "" && '1' <= s[0] <= '9' && Unit(Run(Digit, s[1..]).1).Some?
    ensures D.ValidRate(s)
  {
    var (digits, suffix) := Run(Digit, s[1..]);
    assert s == ([s[0]] + digits) + suffix;
    RunIs(Digit, [s[0]] + digits, suffix);
  }

  /** Everything format writes for a number is a rate the server accepts. */
  lemma FormatIsValid(n: nat)
    ensures D.ValidRate(Format(n))
  {
    if n > 0 {
      var m, suffix := if n % MEGA == 0 then n / MEGA else if n % KILO == 0 then n / KILO else n,
                       if n % MEGA == 0 then "m" else if n % KILO == 0 then "k" else "";
      DigitsAreValid(m, suffix);
      assert Print(n) + "" == Print(n);
    }
  }

  /** Every rate the server accepts is understood by the dialogs, and only "0" is unlimited. */
  lemma ValidRatesParse(s: string)
    requires D.ValidRate(s)
    ensures Parse(Some(s)).Some? && (Parse(Some(s)).value == 0 <==> s == "0")
  {
    hide Parse, JSTrim, Is, Run, Span, Value;
    if s == "0" {
      ParseZero();
    } else {
      var (digits, suffix) := Run(Digit, s);
      assert digits != "" && digits[0] == s[0];
      ParseDigits(digits, suffix);
      PositiveValue(digits);
    }
  }

  // ---- Conversions ----

  lemma DivideIs(str: Option<string>, f: nat)
    requires Parse(str).Some? && f >= 1
    ensures Divide(str, f) == Format(Parse(str).value / f)
  {
  }

  lemma MultiplyIs(str: Option<string>, f: nat)
    requires Parse(str).Some? && f >= 1
    ensures Multiply(str, f) == Format(Parse(str).value * f)
  {
  }

  lemma ProductDivides(n: nat, f: nat)
    requires f >= 1
    ensures n * f >= 0 && n * f / f == n
  {
    var q := n * f / f;
    assert q * f <= n * f < (q + 1) * f;
    ProductGrows(q + 1, n, f);
    ProductGrows(n + 1, q, f);
  }

  lemma ProductGrows(a: nat, b: nat, f: nat)
    ensures a <= b ==> a * f <= b * f
  {
  }

  /** A rate multiplied and divided again is the same number, in canonical form. */
  lemma MultiplyThenDivide(str: Option<string>, f: nat)
    requires Parse(str).Some? && f >= 1
    ensures Parse(Some(Divide(Some(Multiply(str, f)), f))) == Parse(str)
    ensures Divide(Some(Multiply(str, f)), f) == Format(Parse(str).value)
  {
    hide Parse, Format, Divide, Multiply;
    var n := Parse(str).value;
    MultiplyIs(str, f);
    ParseFormat(n * f);
    DivideIs(Some(Multiply(str, f)), f);
    ProductDivides(n, f);
    ParseFormat(n);
  }

  /** A total divided and multiplied again loses its remainder: less than f, and nothing exactly when f divides it. */
  lemma DivideThenMultiply(str: Option<string>, f: nat)
    requires Parse(str).Some? && f >= 1
    ensures var n, back := Parse(str).value, Parse(Some(Multiply(Some(Divide(str, f)), f)));
            && back.Some? && n - f < back.value <= n
            && (back.value == n <==> n % f == 0)
            && (back.value > 0 <==> n >= f)
  {
    hide Parse, Format, Divide, Multiply;
    var n := Parse(str).value;
    DivideIs(str, f);
    ParseFormat(n / f);
    MultiplyIs(Some(Divide(str, f)), f);
    ParseFormat(n / f * f);
    Remainder(n, f);
  }

  lemma Remainder(n: nat, f: nat)
    requires f >= 1
    ensures n == n / f * f + n % f && 0 <= n % f < f
    ensures n / f * f > 0 <==> n >= f
  {
    if n >= f {
      assert n / f >= 1;
      assert n / f * f >= f;
    } else {
      assert n / f == 0;
    }
  }

  /** What the dialogs compute from a readable text and a positive factor is always a rate the server accepts. */
  lemma ConversionsAreValid(str: Option<string>, f: nat)
    requires Parse(str).Some? && f >= 1
    ensures D.ValidRate(Divide(str, f)) && D.ValidRate(Multiply(str, f))
  {
    hide Parse, Format, Divide, Multiply, D.ValidRate;
    DivideIs(str, f);
    MultiplyIs(str, f);
    FormatIsValid(Parse(str).value / f);
    FormatIsValid(Parse(str).value * f);
  }

  /** A positive total smaller than the number of connections turns into "0", which means unlimited. */
  lemma SmallTotalsBecomeUnlimited(str: Option<string>, f: nat)
    requires Parse(str).Some? && f >= 1
    ensures Divide(str, f) == "0" <==> Parse(str).value < f
  {
    hide Parse, Format, Divide;
    var n := Parse(str).value;
    DivideIs(str, f);
    ParseFormat(n / f);
    ParseZero();
    Remainder(n, f);
    assert Format(0) == "0" by { FormatZero(); }
  }

  lemma FormatZero()
    ensures Format(0) == "0"
  {
  }

  // ---- What the four functions compute, spelled out ----

  const JS_WHITE :=
    " \t\n\r\U{000B}\U{000C}\U{00A0}\U{1680}\U{2000}\U{2001}\U{2002}\U{2003}\U{2004}\U{2005}\U{2006}" +
    "\U{2007}\U{2008}\U{2009}\U{200A}\U{2028}\U{2029}\U{202F}\U{205F}\U{3000}\U{FEFF}"

  lemma JSWhiteChars(c: char)
    ensures White(c) <==> c in JS_WHITE
  {
  }

  lemma {:induction false} FrontWhite(s: string) returns (a: string)
    ensures s == a + DropWhiteFront(s) && forall c :: c in a ==> White(c)
    ensures DropWhiteFront(s) == "" || !White(DropWhiteFront(s)[0])
  {
    a := "";
    if s != "" && White(s[0]) {
      var b := FrontWhite(s[1..]);
      a := [s[0]] + b;
      assert s == [s[0]] + s[1..];
    }
  }

  lemma {:induction false} BackWhite(s: string) returns (b: string)
    ensures s == DropWhiteBack(s) + b && forall c :: c in b ==> White(c)
  {
    b := "";
    if s != "" && White(s[|s| - 1]) {
      var a := BackWhite(s[..|s| - 1]);
      b := a + [s[|s| - 1]];
      assert s == s[..|s| - 1] + [s[|s| - 1]];
    }
  }

  lemma TrimmedParts(s: string) returns (a: string, b: string)
    ensures s == a + (JSTrim(s) + b) && Only(a, JS_WHITE) && Only(b, JS_WHITE)
  {
    hide White, JS_WHITE;
    a := FrontWhite(s);
    b := BackWhite(DropWhiteFront(s));
    forall c ensures White(c) <==> c in JS_WHITE {
      JSWhiteChars(c);
    }
  }

  lemma {:induction false} FrontDropped(a: string, m: string)
    requires (forall c :: c in a ==> White(c)) && m != "" && !White(m[0])
    ensures DropWhiteFront(a + m) == m
  {
    if a == "" {
      assert a + m == m;
    } else {
      assert (a + m)[1..] == a[1..] + m && a[0] in a;
      FrontDropped(a[1..], m);
    }
  }

  lemma {:induction false} BackDropped(m: string, b: string)
    requires (forall c :: c in b ==> White(c)) && m != "" && !White(m[|m| - 1])
    ensures DropWhiteBack(m + b) == m
  {
    if b == "" {
      assert m + b == m;
    } else {
      assert (m + b)[..|m + b| - 1] == m + b[..|b| - 1] && b[|b| - 1] in b;
      BackDropped(m, b[..|b| - 1]);
    }
  }

  /** Digits and at most one unit letter, which stands for 1024 or 1048576, with white space around them. */
  ghost predicate Says(s: string, n: nat) {
    exists lead, digits, unit, trail :: s == lead + ((digits + unit) + trail) && IsAmount(lead, digits, unit, trail, n)
  }

  predicate IsAmount(lead: string, digits: string, unit: string, trail: string, n: nat) {
    && Only(lead, JS_WHITE) && Only(trail, JS_WHITE) && digits != "" && All(Digit, digits)
    && ((unit == "" && n == Value(digits)) ||
        ((unit == "k" || unit == "K") && n == Value(digits) * 1024) ||
        ((unit == "m" || unit == "M") && n == Value(digits) * 1048576))
  }

  lemma SaidIsParsed(lead: string, digits: string, unit: string, trail: string, n: nat)
    requires IsAmount(lead, digits, unit, trail, n)
    ensures Parse(Some(lead + ((digits + unit) + trail))) == Some(n)
  {
    hide Value, JS_WHITE, Only, Parse;
    var m := digits + unit;
    WhiteOnly(lead);
    WhiteOnly(trail);
    assert m[0] == digits[0] && m[|m| - 1] == if unit == "" then digits[|digits| - 1] else unit[|unit| - 1];
    assert !White(m[0]) && !White(m[|m| - 1]);
    FrontDropped(lead, m + trail);
    BackDropped(m, trail);
    ParseDigits(digits, unit);
    NotWhite(m);
    assert JSTrim(lead + (m + trail)) == JSTrim(m);
    SameTrimSameNumber(lead + (m + trail), m);
  }

  lemma SameTrimSameNumber(s: string, m: string)
    requires JSTrim(s) == JSTrim(m)
    ensures Parse(Some(s)) == Parse(Some(m))
  {
  }

  lemma WhiteOnly(s: string)
    ensures Only(s, JS_WHITE) <==> forall c :: c in s ==> White(c)
  {
    hide White, JS_WHITE;
    forall c ensures White(c) <==> c in JS_WHITE {
      JSWhiteChars(c);
    }
  }

  /** parse understands exactly these texts. */
  lemma ParseIff(s: string, n: nat)
    ensures Parse(Some(s)) == Some(n) <==> Says(s, n)
  {
    hide Value, JS_WHITE, Only, JSTrim;
    if Says(s, n) {
      var lead, digits, unit, trail :| s == lead + ((digits + unit) + trail) && IsAmount(lead, digits, unit, trail, n);
      SaidIsParsed(lead, digits, unit, trail, n);
    }
    if Parse(Some(s)) == Some(n) {
      var lead, trail := TrimmedParts(s);
      var (digits, unit) := Run(Digit, JSTrim(s));
      assert IsAmount(lead, digits, unit, trail, n);
    }
  }

  /** format writes a multiple of 1048576 in m, any other multiple of 1024 in k, and the rest as it is. */
  lemma FormatSpelled(q: nat)
    ensures q > 0 ==> Format(q * 1048576) == Print(q) + "m"
    ensures q % 1024 != 0 ==> Format(q * 1024) == Print(q) + "k" && Format(q) == Print(q)
    ensures Format(0) == "0"
  {
    hide Print;
    FormatZero();
    ProductDivides(q, 1048576);
    ProductDivides(q, 1024);
    UnitsApart(q);
  }

  lemma UnitsApart(q: nat)
    ensures q * 1048576 % 1048576 == 0 && q * 1024 % 1024 == 0
    ensures q % 1024 != 0 ==> q * 1024 % 1048576 != 0 && q % 1048576 != 0
  {
    MegaRemainder(q, 0);
    KiloRemainder(q, 0);
    var a, b := q / 1024, q % 1024;
    MegaRemainder(a, b * 1024);
    if q % 1048576 == 0 { KiloRemainder(q / 1048576 * 1024, 0); }
  }

  lemma MegaRemainder(a: nat, r: nat)
    requires r < 1048576
    ensures (a * 1048576 + r) % 1048576 == r
  {
  }

  lemma KiloRemainder(a: nat, r: nat)
    requires r < 1024
    ensures (a * 1024 + r) % 1024 == r
  {
  }

  /** divide and multiply give the formatted quotient, rounded down, and product, and "" for a text parse does not understand. */
  lemma ConversionsSpelled(s: string, n: nat, f: nat)
    requires f >= 1
    ensures Says(s, n) ==> Divide(Some(s), f) == Format(n / f) && Multiply(Some(s), f) == Format(n * f)
    ensures (forall k :: !Says(s, k)) ==> Divide(Some(s), f) == "" && Multiply(Some(s), f) == ""
    ensures Divide(None, f) == "" && Multiply(None, f) == "" && Divide(Some(s), 0) == "" && Multiply(Some(s), 0) == ""
  {
    hide Says, Parse;
    ParseIff(s, n);
    if Says(s, n) {
      DivideIs(Some(s), f);
      MultiplyIs(Some(s), f);
    }
    if Parse(Some(s)).Some? { ParseIff(s, Parse(Some(s)).value); }
    assert Parse(None) == None by { NullIsNoNumber(); }
  }

  /** A negative factor gives "", except for "0". */
  lemma NegativeFactor(s: string, n: nat, f: int)
    requires f < 0 && Says(s, n)
    ensures Divide(Some(s), f) == Multiply(Some(s), f) == if n == 0 then "0" else ""
  {
    hide Says, Parse;
    ParseIff(s, n);
    if n > 0 {
      assert FloorDiv(n, f) < 0;
      NegativeProduct(n, f);
    }
  }

  lemma NegativeProduct(n: nat, f: int)
    requires n > 0 && f < 0
    ensures n * f < 0
  {
  }

  lemma NullIsNoNumber()
    ensures Parse(None) == None
  {
  }

  /** For example, half of "1m" is "512k". */
  lemma HalfOfOneMega()
    ensures Divide(Some("1m"), 2) == "512k"
  {
    hide Parse, Format, JS_WHITE;
    assert "1"[..0] == "" && Value("1") == 1;
    assert IsAmount("", "1", "m", "", 1048576);
    assert "1m" == "" + (("1" + "m") + "");
    ConversionsSpelled("1m", 1048576, 2);
    FormatSpelled(512);
    assert Print(512) == "512";
  }
}

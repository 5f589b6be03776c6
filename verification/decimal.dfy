/** The decimal numbers Python's `float()` accepts once a text holds nothing
    but ASCII digits, `.` and `-`: an optional minus sign, digits, an
    optional point and more digits, with at least one digit in all. Values
    are exact rationals rather than IEEE doubles. */
module Decimal {
  import opened Wrappers

  predicate IsDigit(c: char) {
    '0' <= c <= '9'
  }

  predicate AllDigits(s: string) {
    forall k :: 0 <= k < |s| ==> IsDigit(s[k])
  }

  /** A decimal literal as written: sign, integer digits, whether a point
      was written, and fraction digits. */
  datatype Decimal = Decimal(negative: bool, whole: string, point: bool, frac: string)

  /** The literals `float()` accepts: digits only, at least one of them, and
      no fraction digits without a point. */
  predicate Valid(d: Decimal) {
    && AllDigits(d.whole)
    && AllDigits(d.frac)
    && |d.whole| + |d.frac| > 0
    && (!d.point ==> d.frac == [])
  }

  /** The text of a literal. */
  function Render(d: Decimal): string {
    (if d.negative then "-" else "") + d.whole + (if d.point then "." else "") + d.frac
  }

  /** The number of leading ASCII digits of `s`. */
  function LeadingDigits(s: string): (n: nat)
    ensures n <= |s|
    ensures forall k :: 0 <= k < n ==> IsDigit(s[k])
    ensures n == |s| || !IsDigit(s[n])
  {
    if s != [] && IsDigit(s[0]) then 1 + LeadingDigits(s[1..]) else 0
  }

  /** Reads an unsigned literal: digits, then optionally a point and digits. */
  function ParseUnsigned(body: string): (r: Option<Decimal>)
    ensures r.Some? ==> Valid(r.value) && !r.value.negative && Render(r.value) == body
  {
    var k := LeadingDigits(body);
    var whole, rest := body[..k], body[k..];
    LeadingDigitsSplit(body);
    if rest == [] then
      if k > 0 then Some(Decimal(false, whole, false, [])) else None
    else if rest[0] == '.' && AllDigits(rest[1..]) && k + |rest| > 1 then
      assert rest == "." + rest[1..];
      Some(Decimal(false, whole, true, rest[1..]))
    else
      None
  }

  lemma LeadingDigitsSplit(body: string)
    ensures var k := LeadingDigits(body);
      AllDigits(body[..k]) && body == body[..k] + body[k..]
  {
    var k := LeadingDigits(body);
    assert forall i :: 0 <= i < k ==> body[..k][i] == body[i];
  }

  /** Reads a decimal literal; `None` is the ValueError `float()` raises.
      Whatever it reads renders back to exactly the input text. */
  function Parse(t: string): (r: Option<Decimal>)
    ensures r.Some? ==> Valid(r.value) && Render(r.value) == t
  {
    if |t| > 0 && t[0] == '-' then
      match ParseUnsigned(t[1..])
      case None => None
      case Some(d) =>
        RenderNegated(d);
        assert t == "-" + t[1..];
        Some(d.(negative := true))
    else
      ParseUnsigned(t)
  }

  /** A minus sign in front is all that tells a negative literal's text
      from its unsigned one. */
  lemma RenderNegated(d: Decimal)
    ensures Render(d.(negative := true)) == "-" + Render(d.(negative := false))
  {
  }

  lemma {:induction false} LeadingDigitsOf(a: string, b: string)
    requires AllDigits(a)
    requires b == [] || !IsDigit(b[0])
    ensures LeadingDigits(a + b) == |a|
  {
    if a != [] {
      assert (a + b)[1..] == a[1..] + b;
      LeadingDigitsOf(a[1..], b);
    }
  }

  /** The unsigned reader reads every valid unsigned literal back. */
  lemma {:induction false} ParseUnsignedRender(d: Decimal)
    requires Valid(d) && !d.negative
    ensures ParseUnsigned(Render(d)) == Some(d)
  {
    var tail := (if d.point then "." else "") + d.frac;
    var body := Render(d);
    assert body == d.whole + tail;
    LeadingDigitsOf(d.whole, tail);
    assert body[..|d.whole|] == d.whole;
    assert body[|d.whole|..] == tail;
    if d.point {
      assert tail[1..] == d.frac;
    }
  }

  /** Every valid literal is read back from its own text, so `Parse`
      succeeds on a text exactly when the text renders a valid literal. */
  lemma {:induction false} ParseRender(d: Decimal)
    requires Valid(d)
    ensures Parse(Render(d)) == Some(d)
  {
    var u := d.(negative := false);
    ParseUnsignedRender(u);
    var t := Render(d);
    if d.negative {
      assert t == "-" + Render(u);
      assert t[1..] == Render(u);
    } else {
      assert t == Render(u);
      assert t != [] && t[0] != '-' by {
        if d.whole != [] { assert t[0] == d.whole[0]; } else { assert t[0] == '.'; }
      }
    }
  }

  function DigitValue(c: char): (v: nat)
    ensures v < 10
  {
    if IsDigit(c) then c as int - '0' as int else 0
  }

  function Pow10(n: nat): (p: nat)
    ensures p > 0
  {
    if n == 0 then 1 else 10 * Pow10(n - 1)
  }

  /** The integer a digit string spells, most significant digit first; it
      has fewer than |ds| digits' worth of magnitude. */
  function DigitsValue(ds: string): (v: nat)
    ensures v < Pow10(|ds|)
  {
    if ds == [] then 0 else DigitsValue(ds[..|ds| - 1]) * 10 + DigitValue(ds[|ds| - 1])
  }

  /** One more digit at the end shifts the value one place. */
  lemma DigitsValueSnoc(ds: string, c: char)
    ensures DigitsValue(ds + [c]) == DigitsValue(ds) * 10 + DigitValue(c)
  {
    assert (ds + [c])[..|ds|] == ds;
  }

  /** Appending a digit string shifts the value by its length: the value of
      `a + b` is that of `a` times ten to the `|b|`, plus that of `b`. */
  lemma {:induction false} DigitsValueAppend(a: string, b: string)
    ensures DigitsValue(a + b) == DigitsValue(a) * Pow10(|b|) + DigitsValue(b)
  {
    if b == [] {
      assert a + b == a;
    } else {
      var init, c := b[..|b| - 1], b[|b| - 1];
      assert b == init + [c];
      assert a + b == (a + init) + [c];
      DigitsValueSnoc(a + init, c);
      DigitsValueSnoc(init, c);
      DigitsValueAppend(a, init);
      assert Pow10(|b|) == 10 * Pow10(|init|);
      ShiftOnce(DigitsValue(a), Pow10(|init|), DigitsValue(init), DigitValue(c));
    }
  }

  lemma ShiftOnce(x: int, p: int, y: int, d: int)
    ensures (x * p + y) * 10 + d == x * (10 * p) + (y * 10 + d)
  {
  }

  /** The exact number a literal denotes. */
  function Value(d: Decimal): (v: real)
    ensures d.negative ==> v <= 0.0
    ensures !d.negative ==> 0.0 <= v
    ensures -(Pow10(|d.whole|) as real) < v < Pow10(|d.whole|) as real
  {
    var w, f, p := DigitsValue(d.whole), DigitsValue(d.frac), Pow10(|d.frac|);
    FractionBelowOne(f, p);
    var magnitude := w as real + f as real / p as real;
    if d.negative then -magnitude else magnitude
  }

  /** A fraction part is less than one. */
  lemma FractionBelowOne(f: nat, p: nat)
    requires f < p
    ensures 0.0 <= f as real / p as real < 1.0
  {
  }

  /** Trailing zeros in the fraction do not change the value, so `-13.0205`
      and `-13.020500` denote the same number. */
  lemma TrailingZero(d: Decimal)
    ensures Value(d.(frac := d.frac + "0")) == Value(d)
  {
    var f := d.frac + "0";
    assert f[..|f| - 1] == d.frac;
    var a, b := DigitsValue(d.frac) as real, Pow10(|d.frac|) as real;
    assert DigitsValue(f) as real == 10.0 * a;
    assert Pow10(|f|) as real == 10.0 * b;
    assert (10.0 * a) / (10.0 * b) == a / b;
  }

  /** Texts `float()` rejects once only digits, `.` and `-` are left: no
      digit at all, a sign that is not in front, or two signs. */
  lemma ParseRejects()
    ensures Parse("") == None && Parse("-") == None && Parse(".") == None
    ensures Parse("1-2") == None && Parse("--1") == None
  {
    assert LeadingDigits("1-2") == 1 by {
      assert "1-2"[1..] == "-2";
    }
    assert "1-2"[1..] == "-2";
    assert "--1"[1..] == "-1";
    assert "-"[1..] == "";
  }

  /** A point with digits on one side only is accepted. */
  lemma ParseAccepts()
    ensures Parse("1.") == Some(Decimal(false, "1", true, ""))
    ensures Parse(".5") == Some(Decimal(false, "", true, "5"))
  {
    assert Render(Decimal(false, "1", true, "")) == "1.";
    ParseRender(Decimal(false, "1", true, ""));
    assert Render(Decimal(false, "", true, "5")) == ".5";
    ParseRender(Decimal(false, "", true, "5"));
  }
}

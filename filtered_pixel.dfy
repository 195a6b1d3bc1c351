/**
 * A pixel position together with the filter value computed for it: the
 * immutable record the filter-driven algorithms sort and select from.
 */
module FilteredPixels {

  /**
   * `new FilteredPixel(x, y, value)`. The getters `getX`, `getY` and
   * `getFilterValue` are the destructors `x`, `y` and `value`; nothing can
   * change a field once the record exists.
   */
  datatype FilteredPixel = FilteredPixel(x: int, y: int, value: int)

  // ----- toString -----

  function DigitChar(d: nat): (c: char)
    requires d < 10
    ensures '0' <= c <= '9'
  {
    (('0' as int) + d) as char
  }

  /** The decimal digits of a natural number, most significant first, without leading zeros. */
  function Digits(n: nat): (s: string)
    ensures |s| >= 1 && forall i :: 0 <= i < |s| ==> '0' <= s[i] <= '9'
  {
    if n < 10 then [DigitChar(n)] else Digits(n / 10) + [DigitChar(n % 10)]
  }

  /** Java's decimal rendering of an int: a minus sign before the digits of a negative number. */
  function DecimalString(n: int): (s: string)
    ensures |s| >= 1 && forall i :: 0 <= i < |s| ==> s[i] != ' '
  {
    if n < 0 then "-" + Digits(-n) else Digits(n)
  }

  /** `"X: " + x + " Y: " + y`; the filter value is not shown. */
  function ToString(p: FilteredPixel): string
  {
    "X: " + DecimalString(p.x) + " Y: " + DecimalString(p.y)
  }

  /** Reading back a string of digits, most significant first. */
  function DigitsValue(s: string): nat
    requires forall i :: 0 <= i < |s| ==> '0' <= s[i] <= '9'
  {
    if s == [] then 0 else 10 * DigitsValue(s[..|s| - 1]) + ((s[|s| - 1] as int) - ('0' as int))
  }

  lemma {:induction false} DigitsRoundTrip(n: nat)
    ensures DigitsValue(Digits(n)) == n
  {
    if n >= 10 {
      var s := Digits(n);
      DigitsRoundTrip(n / 10);
      assert s[..|s| - 1] == Digits(n / 10);
      assert (s[|s| - 1] as int) - ('0' as int) == n % 10;
    }
  }

  /** Reading back Java's decimal rendering of an int. */
  function DecimalValue(s: string): int
    requires |s| >= 1 && forall i :: 1 <= i < |s| ==> '0' <= s[i] <= '9'
    requires s[0] == '-' || '0' <= s[0] <= '9'
  {
    if s[0] == '-' then -(DigitsValue(s[1..]) as int) else DigitsValue(s)
  }

  /** The decimal rendering identifies the number. */
  lemma {:induction false} DecimalRoundTrip(n: int)
    ensures DecimalValue(DecimalString(n)) == n
  {
    if n < 0 {
      assert DecimalString(n)[1..] == Digits(-n);
      DigitsRoundTrip(-n);
    } else {
      DigitsRoundTrip(n);
    }
  }

  /**
   * Two pixels print the same exactly when they sit at the same position,
   * whatever their filter values.
   */
  lemma {:induction false} ToStringIdentifiesPosition(p: FilteredPixel, q: FilteredPixel)
    ensures ToString(p) == ToString(q) <==> p.x == q.x && p.y == q.y
  {
    if ToString(p) == ToString(q) {
      SameRendering(p, q);
    }
  }

  lemma {:induction false} SameRendering(p: FilteredPixel, q: FilteredPixel)
    requires ToString(p) == ToString(q)
    ensures p.x == q.x && p.y == q.y
  {
    var a, b := DecimalString(p.x), DecimalString(q.x);
    var c, d := DecimalString(p.y), DecimalString(q.y);
    AfterPrefix(a, c);
    AfterPrefix(b, d);
    SplitAtSeparator(a, c, b, d);
    DecimalInjective(p.x, q.x);
    DecimalInjective(p.y, q.y);
  }

  /** What follows "X: " in a rendering. */
  lemma {:induction false} AfterPrefix(a: string, c: string)
    ensures ("X: " + a + " Y: " + c)[3..] == a + " Y: " + c
  {
  }

  lemma {:induction false} DecimalInjective(m: int, n: int)
    requires DecimalString(m) == DecimalString(n)
    ensures m == n
  {
    DecimalRoundTrip(m);
    DecimalRoundTrip(n);
  }

  /** A rendering without spaces ends where the separator begins. */
  lemma {:induction false} SplitAtSeparator(a: string, c: string, b: string, d: string)
    requires forall i :: 0 <= i < |a| ==> a[i] != ' '
    requires forall i :: 0 <= i < |b| ==> b[i] != ' '
    requires a + " Y: " + c == b + " Y: " + d
    ensures a == b && c == d
  {
    var u, v := a + " Y: " + c, b + " Y: " + d;
    if |a| < |b| {
      SeparatorAt(a, c);
      assert false;
    } else if |b| < |a| {
      SeparatorAt(b, d);
      assert false;
    }
    assert a == u[..|a|] == v[..|a|] == b;
    assert c == u[|a| + 4..] == v[|a| + 4..] == d;
  }

  lemma {:induction false} SeparatorAt(a: string, c: string)
    ensures (a + " Y: " + c)[|a|] == ' '
  {
  }
}

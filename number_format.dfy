/**
  ECMAScript `Number.prototype.toFixed(6)` on a coordinate, and the vertex key
  `` `${lat.toFixed(6)},${lon.toFixed(6)}` `` built from two of them.

  A JavaScript number is a binary double, hence a rational number, and `toFixed`
  is defined on its exact mathematical value: so `real` models it without loss.
 */
module NumberFormat {

  /** Millionths in one unit. */
  const Scale: nat := 1000000

  /** The value `toFixed(6)` prints: a minus sign or none, and the magnitude in
      millionths (the `n` of the ECMAScript algorithm). */
  datatype Fixed = Fixed(negative: bool, micros: nat)

  function Abs(x: real): real {
    if x < 0.0 then -x else x
  }

  /** `x.toFixed(6)` for `|x| < 1e21`: the sign is kept whenever `x < 0`, even when
      the magnitude rounds to zero, and the magnitude is the nearest millionth,
      ties going to the larger one. */
  function ToFixed6(x: real): (f: Fixed)
    ensures f.negative <==> x < 0.0
    ensures (f.micros as real - 0.5) / 1000000.0 <= Abs(x) < (f.micros as real + 0.5) / 1000000.0
  {
    var m := (Abs(x) * 1000000.0 + 0.5).Floor;
    Fixed(x < 0.0, m)
  }

  /** The bound of `ToFixed6` picks exactly one magnitude: any `m` within half a
      millionth of `|x|` (ties to the larger) is the one `toFixed` prints. */
  lemma ToFixed6Unique(x: real, m: nat)
    requires (m as real - 0.5) / 1000000.0 <= Abs(x) < (m as real + 0.5) / 1000000.0
    ensures ToFixed6(x).micros == m
  {
    var n := ToFixed6(x).micros;
    assert m as real - 0.5 <= Abs(x) * 1000000.0 < m as real + 0.5;
    assert n as real - 0.5 <= Abs(x) * 1000000.0 < n as real + 0.5;
  }

  /** Two numbers printed alike by `toFixed(6)` lie less than a millionth apart. */
  lemma SameFixedNear(x: real, y: real)
    requires ToFixed6(x) == ToFixed6(y)
    ensures -0.000001 < x - y < 0.000001
  {
  }

  /** A tiny negative number keeps its sign: `(-1e-7).toFixed(6)` is not
      `(1e-7).toFixed(6)`, though both magnitudes round to zero; the tiny positive
      one prints as zero does. */
  lemma TinyNegativeKeepsSign()
    ensures ToFixed6(-0.0000001) == Fixed(true, 0)
    ensures ToFixed6(0.0000001) == Fixed(false, 0) == ToFixed6(0.0)
    ensures Render(ToFixed6(-0.0000001)) != Render(ToFixed6(0.0000001))
  {
    ToFixed6Unique(-0.0000001, 0);
    ToFixed6Unique(0.0000001, 0);
    ToFixed6Unique(0.0, 0);
    RenderInjective(Fixed(true, 0), Fixed(false, 0));
  }

  /** The two zeros print as `"0.000000"` and `"-0.000000"`. */
  lemma RenderZeros()
    ensures Render(Fixed(false, 0)) == "0.000000"
    ensures Render(Fixed(true, 0)) == "-0.000000"
  {
    ZeroDigits();
    var body := Decimal(0) + "." + PaddedDigits(0, 6);
    assert body == "0.000000";
    assert Render(Fixed(false, 0)) == body;
    assert Render(Fixed(true, 0)) == "-" + body;
  }

  lemma ZeroDigits()
    ensures Decimal(0) == "0"
    ensures PaddedDigits(0, 6) == "000000"
  {
    assert PaddedDigits(0, 1) == "0";
    assert PaddedDigits(0, 2) == "00";
    assert PaddedDigits(0, 3) == "000";
    assert PaddedDigits(0, 4) == "0000";
    assert PaddedDigits(0, 5) == "00000";
  }

  // ---------------------------------------------------------------------------
  // Rendering
  // ---------------------------------------------------------------------------

  predicate IsDigit(c: char) {
    '0' <= c <= '9'
  }

  function Digit(d: nat): (c: char)
    requires d < 10
    ensures IsDigit(c) && c as int - '0' as int == d
  {
    (d + '0' as int) as char
  }

  function Pow10(n: nat): (p: nat)
    ensures p >= 1
  {
    if n == 0 then 1 else 10 * Pow10(n - 1)
  }

  /** The value of a string of decimal digits, most significant first. */
  function DigitsValue(s: string): int {
    if s == [] then 0 else 10 * DigitsValue(s[..|s| - 1]) + (s[|s| - 1] as int - '0' as int)
  }

  /** The decimal digits of `n` with no leading zero (`"0"` for zero). */
  function Decimal(n: nat): (s: string)
    ensures |s| >= 1 && forall i :: 0 <= i < |s| ==> IsDigit(s[i])
    ensures s[0] != '0' || n == 0
    ensures DigitsValue(s) == n
  {
    if n < 10 then
      [Digit(n)]
    else
      var s := Decimal(n / 10) + [Digit(n % 10)];
      assert s[..|s| - 1] == Decimal(n / 10);
      s
  }

  /** The `width` lowest decimal digits of `n`, zero-padded on the left. */
  function PaddedDigits(n: nat, width: nat): (s: string)
    ensures |s| == width && forall i :: 0 <= i < |s| ==> IsDigit(s[i])
    ensures n < Pow10(width) ==> DigitsValue(s) == n
  {
    if width == 0 then
      []
    else
      var s := PaddedDigits(n / 10, width - 1) + [Digit(n % 10)];
      assert s[..|s| - 1] == PaddedDigits(n / 10, width - 1);
      s
  }

  /** The text `toFixed(6)` produces: an optional minus sign, the integer part
      without leading zeros, a point, and exactly six fraction digits. */
  function Render(f: Fixed): (s: string)
    ensures forall i :: 0 <= i < |s| ==> s[i] != ','
    ensures |s| >= 8
  {
    (if f.negative then "-" else "") + Decimal(f.micros / Scale) + "." + PaddedDigits(f.micros % Scale, 6)
  }

  /** Reads back what `Render` printed. */
  function Unrender(s: string): Fixed {
    var negative := |s| > 0 && s[0] == '-';
    var body := if negative then s[1..] else s;
    if |body| < 7 then Fixed(negative, 0)
    else
      var m := DigitsValue(body[..|body| - 7]) * Scale + DigitsValue(body[|body| - 6..]);
      Fixed(negative, if m < 0 then 0 else m)
  }

  lemma RenderRoundTrip(f: Fixed)
    ensures Unrender(Render(f)) == f
  {
    var s := Render(f);
    var intPart, fracPart := Decimal(f.micros / Scale), PaddedDigits(f.micros % Scale, 6);
    var body := intPart + "." + fracPart;
    assert s == (if f.negative then "-" else "") + body;
    if f.negative {
      assert s[1..] == body;
    } else {
      assert s[0] == intPart[0];
    }
    assert body[..|body| - 7] == intPart;
    assert body[|body| - 6..] == fracPart;
    assert Pow10(6) == Scale;
    assert DigitsValue(fracPart) == f.micros % Scale;
    assert DigitsValue(intPart) == f.micros / Scale;
    assert f.micros == (f.micros / Scale) * Scale + f.micros % Scale;
    assert Unrender(s).negative == f.negative;
    assert (if f.negative then s[1..] else s) == body;
    var m := DigitsValue(body[..|body| - 7]) * Scale + DigitsValue(body[|body| - 6..]);
    assert m == f.micros;
  }

  /** Different values never print alike. */
  lemma RenderInjective(f: Fixed, g: Fixed)
    ensures Render(f) == Render(g) <==> f == g
  {
    if Render(f) == Render(g) {
      RenderRoundTrip(f);
      RenderRoundTrip(g);
    }
  }

  // ---------------------------------------------------------------------------
  // The vertex key
  // ---------------------------------------------------------------------------

  /** The text of a vertex key, `` `${lat.toFixed(6)},${lon.toFixed(6)}` ``, from the
      two printed values. */
  function KeyText(lat: Fixed, lon: Fixed): string {
    Render(lat) + "," + Render(lon)
  }

  /** The index of the first comma of `s`, or `|s|` when there is none. */
  function CommaIndex(s: string): (i: nat)
    ensures i <= |s| && forall j :: 0 <= j < i ==> s[j] != ','
    ensures i < |s| ==> s[i] == ','
  {
    if s == [] || s[0] == ',' then 0 else 1 + CommaIndex(s[1..])
  }

  lemma CommaSplit(a: string, b: string)
    requires forall i :: 0 <= i < |a| ==> a[i] != ','
    ensures CommaIndex(a + "," + b) == |a|
  {
    var s := a + "," + b;
    assert s[..|a|] == a;
    assert s[|a|] == ',';
  }

  /** Since `toFixed` never prints a comma, two key texts are equal exactly when
      their latitudes and their longitudes print alike. */
  lemma KeyTextInjective(lat1: Fixed, lon1: Fixed, lat2: Fixed, lon2: Fixed)
    ensures KeyText(lat1, lon1) == KeyText(lat2, lon2) <==> lat1 == lat2 && lon1 == lon2
  {
    var a1, b1 := Render(lat1), Render(lon1);
    var a2, b2 := Render(lat2), Render(lon2);
    if KeyText(lat1, lon1) == KeyText(lat2, lon2) {
      var k := KeyText(lat1, lon1);
      CommaSplit(a1, b1);
      CommaSplit(a2, b2);
      assert a1 == k[..|a1|] == a2;
      assert b1 == k[|a1| + 1..] == b2;
      RenderInjective(lat1, lat2);
      RenderInjective(lon1, lon2);
    }
  }
}

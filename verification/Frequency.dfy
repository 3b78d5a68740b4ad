/** The decimal mantissa and exponent of `struct iw_freq`: both build variants of `iw_float2freq` and
    `iw_freq2float`, in exact arithmetic. */
module Frequency {

  datatype Freq = Freq(m: int, e: int)

  const GIGA: real := 1000000000.0

  function Pow10(n: nat): (r: real)
    ensures r >= 1.0
  {
    if n == 0 then 1.0 else 10.0 * Pow10(n - 1)
  }

  /** The C cast of a floating point number to an integer. */
  function Trunc(x: real): int {
    if x >= 0.0 then x.Floor else -((-x).Floor)
  }

  // ----- The variant without libm ---------------------------------------

  function LoopEncode(x: real): Freq
    decreases x.Floor
  {
    if x > GIGA then
      var r := LoopEncode(x / 10.0);
      Freq(r.m, r.e + 1)
    else Freq(Trunc(x), 0)
  }

  method Float2FreqLoop(input: real) returns (out: Freq)
    ensures out == LoopEncode(input)
  {
    var x, e: nat := input, 0;
    while x > GIGA
      invariant LoopEncode(input) == Freq(LoopEncode(x).m, LoopEncode(x).e + e)
      decreases x.Floor
    {
      x := x / 10.0;
      e := e + 1;
    }
    out := Freq(Trunc(x), e);
  }

  method Freq2FloatLoop(f: Freq) returns (res: real)
    ensures res == LoopDecode(f)
  {
    res := f.m as real;
    var i := 0;
    while i < f.e
      invariant 0 <= i && (i <= f.e || i == 0)
      invariant res == f.m as real * Pow10(i)
    {
      MulTen(f.m as real, i);
      res := res * 10.0;
      i := i + 1;
    }
  }

  lemma MulTen(x: real, n: nat)
    ensures x * Pow10(n + 1) == x * Pow10(n) * 10.0
  {
  }

  function LoopDecode(f: Freq): real {
    f.m as real * Pow10(if f.e >= 0 then f.e else 0)
  }

  // ----- The variant with libm ------------------------------------------

  /** `floor(log10(x))` from 1 on: the power of ten at or below x. */
  function FloorLog10(x: real): (k: nat)
    requires x >= 1.0
    ensures Pow10(k) <= x < Pow10(k + 1)
    decreases x.Floor
  {
    if x < 10.0 then 0 else 1 + FloorLog10(x / 10.0)
  }

  /** Below 1 the logarithm is negative; it is only compared with 8. */
  function LibmEncode(x: real): Freq
    requires x > 0.0
  {
    var e := if x >= 1.0 then FloorLog10(x) else -1;
    if e > 8 then Freq((x / Pow10(e - 6)).Floor * 100, e - 8) else Freq(Trunc(x), 0)
  }

  function LibmDecode(f: Freq): real {
    if f.e >= 0 then f.m as real * Pow10(f.e) else f.m as real / Pow10(-f.e)
  }

  /** The two decoders agree exactly where the exponent is not negative, or on zero. */
  lemma DecodersAgreeIff(f: Freq)
    ensures LoopDecode(f) == LibmDecode(f) <==> f.e >= 0 || f.m == 0
  {
    if f.e < 0 {
      assert Pow10(-f.e) >= 10.0;
      DivideShrinks(f.m as real, Pow10(-f.e));
    }
  }

  lemma DivideShrinks(m: real, d: real)
    requires d >= 10.0
    ensures m / d == m * 1.0 <==> m == 0.0
  {
    var q := m / d;
    assert q * d == m;
    if q == m {
      assert q * (d - 1.0) == 0.0;
    }
  }

  // ----- What the encodings keep ----------------------------------------

  /** Number of whole steps of size `unit` in x, times the step. */
  function Quantize(x: real, unit: real): real
    requires unit > 0.0
  {
    Times(Steps(x, unit), unit)
  }

  function Steps(x: real, unit: real): int
    requires unit > 0.0
  {
    (x / unit).Floor
  }

  function Times(n: int, unit: real): real {
    Product(n as real, unit)
  }

  /** The whole steps in x are determined by the multiples of the step around it. */
  lemma StepsAround(x: real, u: real, n: int)
    requires u > 0.0
    ensures Times(Steps(x, u), u) <= x < Times(Steps(x, u) + 1, u)
    ensures Times(n, u) <= x ==> n <= Steps(x, u)
    ensures x < Times(n, u) ==> Steps(x, u) < n
  {
    assert Product(x / u, u) == x;
    hide Product;
    var q := x / u;
    ProductOrder(Steps(x, u) as real, q, u);
    ProductOrder((Steps(x, u) + 1) as real, q, u);
    ProductOrder(n as real, q, u);
  }

  function Product(a: real, b: real): real {
    a * b
  }

  lemma ProductOrder(a: real, b: real, u: real)
    requires u > 0.0
    ensures a <= b <==> Product(a, u) <= Product(b, u)
  {
    if a <= b {
      ScaleOrder(a, b, u);
    } else {
      ScaleOrder(b, a, u);
    }
  }

  lemma TimesOrder(m: int, n: int, u: real)
    requires u > 0.0
    ensures m <= n <==> Times(m, u) <= Times(n, u)
    ensures Times(n + 1, u) == Times(n, u) + u
  {
    ProductOrder(m as real, n as real, u);
    assert (n + 1) as real * u == n as real * u + u;
  }

  lemma QuantizeError(x: real, unit: real)
    requires unit > 0.0
    ensures 0.0 <= x - Quantize(x, unit) < unit
  {
    hide Times, Steps;
    StepsAround(x, unit, 0);
    TimesOrder(0, Steps(x, unit), unit);
  }

  lemma ScaleOrder(a: real, b: real, u: real)
    requires a <= b && u > 0.0
    ensures a * u <= b * u && (a < b ==> a * u < b * u)
  {
  }

  lemma LoopTen(x: real)
    requires x > GIGA
    ensures LoopDecode(LoopEncode(x)) == 10.0 * LoopDecode(LoopEncode(x / 10.0))
    ensures LoopEncode(x).e == LoopEncode(x / 10.0).e + 1 >= 1
  {
    LoopExponent(x / 10.0);
    var r := LoopEncode(x / 10.0);
    MulTen(r.m as real, r.e);
  }

  lemma {:induction false} LoopExponent(x: real)
    ensures LoopEncode(x).e >= 0
    decreases x.Floor
  {
    if x > GIGA {
      LoopExponent(x / 10.0);
    }
  }

  /** The loop variant: the mantissa is at most 10^9, at least 10^8 once anything was scaled, and
      the number is short by less than one unit of the last digit. */
  lemma {:induction false} LoopBounds(x: real)
    requires x >= 0.0
    ensures var f := LoopEncode(x);
            && f.e >= 0 && 0 <= f.m <= 1_000_000_000 && (f.e > 0 ==> f.m >= 100_000_000)
            && 0.0 <= x - LoopDecode(f) < Pow10(f.e)
    decreases x.Floor
  {
    if x > GIGA {
      LoopBounds(x / 10.0);
      LoopTen(x);
      var f, g := LoopEncode(x), LoopEncode(x / 10.0);
      assert Pow10(f.e) == 10.0 * Pow10(g.e);
      if g.e == 0 {
        assert g.m == (x / 10.0).Floor >= 100_000_000;
      }
    }
  }

  /** Negative numbers are cut toward zero, and never scaled. */
  lemma LoopNegative(x: real)
    requires x >= 0.0
    ensures LoopEncode(-x) == Freq(-(x.Floor), 0)
  {
  }

  /** Once the exponent is positive the relative error is below 10^-8. */
  lemma LoopRelativeError(x: real)
    requires x >= 0.0 && LoopEncode(x).e > 0
    ensures (x - LoopDecode(LoopEncode(x))) * 100000000.0 < x
  {
    LoopBounds(x);
    var f := LoopEncode(x);
    var p := Pow10(f.e);
    ScaleOrder(100000000.0, f.m as real, p);
    assert (x - LoopDecode(f)) * 100000000.0 < p * 100000000.0;
  }

  /** From 10^9 on, decode after encode rounds down to nine digits: to a multiple of 10^(k-8) where
      10^k is the power of ten at or below the number. */
  lemma {:induction false} LoopValue(x: real, k: nat)
    requires k >= 9 && Pow10(k) <= x < Pow10(k + 1)
    ensures LoopDecode(LoopEncode(x)) == Quantize(x, Pow10(k - 8))
    decreases k
  {
    hide Pow10, LoopEncode, LoopDecode;
    if k == 9 {
      LoopValueAtNine(x);
    } else {
      PowerStep(k);
      PowerStep(k - 1);
      PowerStep(k - 9);
      Powers();
      PowerOrder(9, k - 1);
      LoopTen(x);
      LoopValue(x / 10.0, k - 1);
      QuantizeTen(x, Pow10(k - 9));
    }
  }

  lemma PowerStep(n: nat)
    ensures Pow10(n + 1) == 10.0 * Pow10(n)
    ensures n > 0 ==> Pow10(n) == 10.0 * Pow10(n - 1)
  {
  }

  lemma QuantizeTen(x: real, u: real)
    requires u > 0.0
    ensures 10.0 * Quantize(x / 10.0, u) == Quantize(x, 10.0 * u)
  {
    QuotientTen(x, u);
    var n := ((x / 10.0) / u).Floor as real;
    assert 10.0 * (n * u) == n * (10.0 * u);
  }

  lemma LoopValueAtNine(x: real)
    requires Pow10(9) <= x < Pow10(10)
    ensures LoopDecode(LoopEncode(x)) == Quantize(x, Pow10(1))
  {
    Powers();
    PowerStep(9);
    PowerStep(0);
    var n := (x / 10.0).Floor;
    if x > GIGA {
      LoopTen(x);
      assert LoopEncode(x / 10.0) == Freq(n, 0);
    } else {
      assert x == GIGA && LoopEncode(x) == Freq(1_000_000_000, 0);
      assert n == 100_000_000;
    }
  }

  lemma QuotientTen(x: real, u: real)
    requires u > 0.0
    ensures (x / 10.0) / u == x / (10.0 * u)
  {
    var q := (x / 10.0) / u;
    assert q * u == x / 10.0;
    assert q * (10.0 * u) == x;
  }

  lemma Powers()
    ensures Pow10(9) == GIGA
    ensures Pow10(2) == 100.0
  {
    assert Pow10(1) == 10.0;
    assert Pow10(2) == 100.0;
    assert Pow10(3) == 1000.0;
    assert Pow10(4) == 10000.0;
    assert Pow10(5) == 100000.0;
    assert Pow10(6) == 1000000.0;
    assert Pow10(7) == 10000000.0;
    assert Pow10(8) == 100000000.0;
  }

  lemma {:induction false} PowerOrder(a: nat, b: nat)
    requires a <= b
    ensures Pow10(a) <= Pow10(b)
    decreases b
  {
    if a < b {
      PowerOrder(a, b - 1);
    }
  }

  lemma {:induction false} PowerSum(a: nat, b: nat)
    ensures Pow10(a + b) == Pow10(a) * Pow10(b)
  {
    if a > 0 {
      PowerSum(a - 1, b);
      assert Pow10(a) * Pow10(b) == 10.0 * (Pow10(a - 1) * Pow10(b));
    }
  }

  /** The power of ten at or below a number is unique. */
  lemma LogUnique(x: real, j: nat, k: nat)
    requires Pow10(j) <= x < Pow10(j + 1) && Pow10(k) <= x < Pow10(k + 1)
    ensures j == k
  {
    if j < k {
      PowerOrder(j + 1, k);
    } else if k < j {
      PowerOrder(k + 1, j);
    }
  }

  /** From 10^9 on the libm variant keeps seven digits. */
  lemma LibmValue(x: real, k: nat)
    requires k >= 9 && Pow10(k) <= x < Pow10(k + 1)
    ensures LibmEncode(x).e == k - 8
    ensures 100_000_000 <= LibmEncode(x).m < 1_000_000_000 && LibmEncode(x).m % 100 == 0
    ensures LibmDecode(LibmEncode(x)) == Quantize(x, Pow10(k - 6))
  {
    assert Pow10(0) == 1.0;
    hide Pow10;
    PowerOrder(0, k);
    LogUnique(x, FloorLog10(x), k);
    SevenDigits(x, k);
    var n := (x / Pow10(k - 6)).Floor;
    assert LibmEncode(x) == Freq(n * 100, k - 8);
    Powers();
    PowerSum(2, k - 8);
    Reorder(n, Pow10(k - 8));
  }

  lemma Reorder(n: int, u: real)
    ensures (n * 100) as real * u == n as real * (100.0 * u)
  {
  }

  lemma SevenDigits(x: real, k: nat)
    requires k >= 9 && Pow10(k) <= x < Pow10(k + 1)
    ensures 1_000_000 <= (x / Pow10(k - 6)).Floor < 10_000_000
  {
    hide Pow10, Times, Product;
    SixSeven();
    PowerSum(6, k - 6);
    PowerSum(7, k - 6);
    var u := Pow10(k - 6);
    TimesIs(1_000_000, u);
    TimesIs(10_000_000, u);
    StepsAround(x, u, 1_000_000);
    StepsAround(x, u, 10_000_000);
  }

  lemma SixSeven()
    ensures Pow10(6) == 1000000.0 && Pow10(7) == 10000000.0
  {
    assert Pow10(1) == 10.0;
    assert Pow10(2) == 100.0;
    assert Pow10(3) == 1000.0;
    assert Pow10(4) == 10000.0;
    assert Pow10(5) == 100000.0;
  }

  lemma GigaLog(x: real)
    requires x >= GIGA
    ensures FloorLog10(x) >= 9
  {
    Powers();
    var k := FloorLog10(x);
    if k < 9 {
      PowerOrder(k + 1, 9);
    }
  }

  /** From 10^9 on the libm variant is short by less than a millionth. */
  lemma LibmRelativeError(x: real)
    requires x >= GIGA
    ensures 0.0 <= x - LibmDecode(LibmEncode(x))
    ensures (x - LibmDecode(LibmEncode(x))) * 1000000.0 < x
  {
    GigaLog(x);
    var k := FloorLog10(x);
    LibmValue(x, k);
    QuantizeError(x, Pow10(k - 6));
    PowerSum(6, k - 6);
    SixSeven();
  }

  /** Below 10^9 both variants keep the whole part, with no exponent. */
  lemma SmallAgree(x: real)
    requires 0.0 < x < GIGA
    ensures LoopEncode(x) == LibmEncode(x) == Freq(x.Floor, 0)
  {
    Powers();
    if x >= 1.0 {
      var k := FloorLog10(x);
      if k > 8 {
        PowerOrder(9, k);
      }
    }
  }

  /** From 10^9 on the two variants stay within a millionth of each other. They decode to the same
      number iff the last two of its nine leading digits are zero. */
  lemma VariantsAgreeIff(x: real, k: nat)
    requires k >= 9 && Pow10(k) <= x < Pow10(k + 1)
    ensures var a, b := LoopDecode(LoopEncode(x)), LibmDecode(LibmEncode(x));
            && b <= a && (a - b) * 1000000.0 < x
            && (a == b <==> Steps(x, Pow10(k - 8)) % 100 == 0)
  {
    hide Pow10, LoopEncode, LoopDecode, LibmEncode, LibmDecode;
    LoopValue(x, k);
    LibmValue(x, k);
    Powers();
    PowerOrder(9, k);
    LibmRelativeError(x);
    PowerSum(2, k - 8);
    QuantizeError(x, Pow10(k - 8));
    CoarserStep(x, Pow10(k - 8));
  }

  /** Rounding down to a hundredfold step. */
  lemma CoarserStep(x: real, u: real)
    requires u > 0.0
    ensures Quantize(x, 100.0 * u) <= Quantize(x, u)
    ensures Quantize(x, 100.0 * u) == Quantize(x, u) <==> Steps(x, u) % 100 == 0
  {
    var n := Steps(x, u);
    assert Steps(x, 100.0 * u) == n / 100 by {
      Hundredth(x, u);
      FloorHundredth(x / u);
    }
    assert Times(n / 100, 100.0 * u) == Times(100 * (n / 100), u) by { Reorder(n / 100, u); }
    hide Times, Steps;
    TimesOrder(100 * (n / 100), n, u);
    TimesOrder(n, 100 * (n / 100), u);
  }

  lemma Hundredth(x: real, u: real)
    requires u > 0.0
    ensures x / (100.0 * u) == (x / u) / 100.0
  {
    var q := (x / u) / 100.0;
    assert q * 100.0 == x / u;
    assert (x / u) * u == x;
    assert q * (100.0 * u) == x;
  }

  lemma FloorHundredth(q: real)
    ensures (q / 100.0).Floor == q.Floor / 100
  {
    var n := q.Floor;
    var h := n / 100;
    assert 100 * h <= n < 100 * h + 100;
    assert (100 * h) as real <= n as real <= q < (n + 1) as real <= (100 * h + 100) as real;
  }

  // ----- Encoding again changes nothing ---------------------------------

  /** Rounding down to a step again does nothing. */
  lemma QuantizeAgain(x: real, u: real)
    requires u > 0.0
    ensures Quantize(Quantize(x, u), u) == Quantize(x, u)
  {
    hide Times, Steps;
    var n := Steps(x, u);
    StepsAround(Times(n, u), u, n);
    StepsAround(Times(n, u), u, n + 1);
    TimesOrder(n, n, u);
  }

  /** Rounding down to a step that divides 10^k leaves the number between the same powers of ten. */
  lemma QuantizeStays(x: real, k: nat, s: nat)
    requires s <= k && Pow10(k) <= x < Pow10(k + 1)
    ensures Pow10(k) <= Quantize(x, Pow10(s)) < Pow10(k + 1)
  {
    hide Pow10, Times, Steps;
    var u := Pow10(s);
    QuantizeError(x, u);
    PowerSum(k - s, s);
    WholePower(k - s);
    var t := Trunc(Pow10(k - s));
    assert Times(t, u) == Pow10(k) by { TimesIs(t, u); }
    StepsAround(x, u, t);
    TimesOrder(t, Steps(x, u), u);
  }

  lemma TimesIs(n: int, u: real)
    ensures Times(n, u) == n as real * u
  {
  }

  lemma {:induction false} WholePower(n: nat)
    ensures Trunc(Pow10(n)) as real == Pow10(n)
  {
    if n > 0 {
      WholePower(n - 1);
      assert Pow10(n) == (10 * Trunc(Pow10(n - 1))) as real;
    }
  }

  lemma LoopIdempotent(x: real)
    requires x >= 0.0
    ensures var v := LoopDecode(LoopEncode(x)); LoopDecode(LoopEncode(v)) == v
  {
    var v := LoopDecode(LoopEncode(x));
    if x > GIGA {
      GigaLog(x);
      var k := FloorLog10(x);
      LoopValue(x, k);
      QuantizeStays(x, k, k - 8);
      LoopValue(v, k);
      QuantizeAgain(x, Pow10(k - 8));
    } else {
      assert v == x.Floor as real;
    }
  }

  lemma LibmIdempotent(x: real)
    requires x >= 1.0
    ensures var v := LibmDecode(LibmEncode(x)); v > 0.0 && LibmDecode(LibmEncode(v)) == v
  {
    var v := LibmDecode(LibmEncode(x));
    if x >= GIGA {
      GigaLog(x);
      var k := FloorLog10(x);
      LibmValue(x, k);
      QuantizeStays(x, k, k - 6);
      LibmValue(v, k);
      QuantizeAgain(x, Pow10(k - 6));
    } else {
      SmallAgree(x);
      assert v == x.Floor as real;
      SmallAgree(v);
    }
  }

  /** The two variants disagree on 1234567890 Hz, and their decoders on a tenth of a Hertz. */
  lemma VariantsDisagree()
    ensures LoopEncode(1234567890.0) == Freq(123456789, 1) && LibmEncode(1234567890.0) == Freq(123456700, 1)
    ensures LoopDecode(Freq(1, -1)) == 1.0 && LibmDecode(Freq(1, -1)) == 0.1
  {
    var x := 1234567890.0;
    Powers();
    PowerStep(9);
    SixSeven();
    assert LoopEncode(x / 10.0) == Freq(123456789, 0);
    LogUnique(x, FloorLog10(x), 9);
    assert Pow10(3) == 1000.0 && Pow10(1) == 10.0;
  }
}

/** `iw_dbm2mwatt` and `iw_mwatt2dbm` in exact arithmetic: n milliwatts are at most d dBm
    iff n^10 <= 10^d. */
module DbmPower {

  function Pow(b: nat, n: nat): nat {
    if n == 0 then 1 else b * Pow(b, n - 1)
  }

  /** The largest root not below `n` whose tenth power is within the limit. */
  function RootFrom(n: nat, limit: nat): (r: nat)
    requires Pow(n, 10) <= limit
    ensures Pow(r, 10) <= limit < Pow(r + 1, 10)
    decreases limit - n
  {
    if Pow(n + 1, 10) > limit then n
    else
      PowAtLeast(n + 1, 10);
      RootFrom(n + 1, limit)
  }

  /** `floor(pow(10, d / 10))` */
  function DbmToMwatt(d: int): (w: nat)
    ensures d < 0 ==> w == 0
    ensures d >= 0 ==> w >= 1 && Pow(w, 10) <= Pow(10, d) < Pow(w + 1, 10)
  {
    if d < 0 then 0
    else
      PowPositive(10, d);
      assert Pow(0, 10) == 0;
      PowOne(10);
      RootFrom(1, Pow(10, d))
  }

  /** The least exponent from `d` on that reaches the target. */
  function ExponentFrom(d: nat, target: nat): (r: nat)
    requires d == 0 || Pow(10, d - 1) < target
    ensures target <= Pow(10, r) && (r == 0 || Pow(10, r - 1) < target)
    decreases target - Pow(10, d)
  {
    if target <= Pow(10, d) then d
    else
      PowPositive(10, d);
      ExponentFrom(d + 1, target)
  }

  /** `ceil(10 * log10(w))` */
  function MwattToDbm(w: nat): (d: nat)
    requires w >= 1
    ensures Pow(w, 10) <= Pow(10, d) && (d == 0 || Pow(10, d - 1) < Pow(w, 10))
  {
    ExponentFrom(0, Pow(w, 10))
  }

  // ----- Powers ---------------------------------------------------------

  lemma {:induction false} PowPositive(b: nat, n: nat)
    requires b >= 1
    ensures Pow(b, n) >= 1
  {
    if n > 0 {
      PowPositive(b, n - 1);
    }
  }

  lemma {:induction false} PowOne(n: nat)
    ensures Pow(1, n) == 1
  {
    if n > 0 {
      PowOne(n - 1);
    }
  }

  lemma {:induction false} PowAtLeast(b: nat, n: nat)
    requires b >= 1 && n >= 1
    ensures Pow(b, n) >= b
  {
    PowPositive(b, n - 1);
    MulOrder(1, Pow(b, n - 1), b);
  }

  lemma MulOrder(a: nat, b: nat, c: nat)
    requires a <= b
    ensures c * a <= c * b && a * c <= b * c
  {
  }

  lemma {:induction false} PowBaseOrder(a: nat, b: nat, n: nat)
    requires a <= b
    ensures Pow(a, n) <= Pow(b, n)
  {
    if n > 0 {
      PowBaseOrder(a, b, n - 1);
      MulOrder(Pow(a, n - 1), Pow(b, n - 1), a);
      MulOrder(a, b, Pow(b, n - 1));
    }
  }

  lemma {:induction false} PowExponentOrder(b: nat, m: nat, n: nat)
    requires b >= 1 && m <= n
    ensures Pow(b, m) <= Pow(b, n)
    decreases n
  {
    if m < n {
      PowExponentOrder(b, m, n - 1);
      MulOrder(1, b, Pow(b, n - 1));
    }
  }

  lemma {:induction false} PowSum(b: nat, m: nat, n: nat)
    ensures Pow(b, m + n) == Pow(b, m) * Pow(b, n)
  {
    if m > 0 {
      PowSum(b, m - 1, n);
      assert Pow(b, m) * Pow(b, n) == b * (Pow(b, m - 1) * Pow(b, n));
    }
  }

  lemma {:induction false} PowProduct(a: nat, b: nat, n: nat)
    ensures Pow(a * b, n) == Pow(a, n) * Pow(b, n)
  {
    if n > 0 {
      PowProduct(a, b, n - 1);
      Regroup(a, b, Pow(a, n - 1), Pow(b, n - 1));
    }
  }

  lemma Regroup(a: nat, b: nat, x: nat, y: nat)
    ensures (a * b) * (x * y) == (a * x) * (b * y)
  {
    assert (a * b) * (x * y) == a * (b * (x * y));
    assert b * (x * y) == x * (b * y);
    assert a * (x * (b * y)) == (a * x) * (b * y);
  }

  /** Tenth powers of ten raised to k are powers of ten to 10 k. */
  lemma {:induction false} PowOfTen(k: nat)
    ensures Pow(Pow(10, k), 10) == Pow(10, 10 * k)
  {
    if k == 0 {
      PowOne(10);
    } else {
      PowOfTen(k - 1);
      PowProduct(10, Pow(10, k - 1), 10);
      PowSum(10, 10, 10 * (k - 1));
    }
  }

  // ----- The two conversions together -----------------------------------

  /** A power w is at most d dBm in both senses or in neither. */
  lemma Galois(w: nat, d: int)
    requires w >= 1
    ensures w <= DbmToMwatt(d) <==> MwattToDbm(w) <= d
  {
    var m := DbmToMwatt(d);
    var e := MwattToDbm(w);
    if d >= 0 {
      if w <= m {
        PowBaseOrder(w, m, 10);
        if d < e {
          PowExponentOrder(10, d, e - 1);
        }
      } else {
        PowBaseOrder(m + 1, w, 10);
        if e <= d {
          PowExponentOrder(10, e, d);
        }
      }
    }
  }

  lemma Monotone(v: nat, w: nat, c: int, d: int)
    requires 1 <= v <= w && c <= d
    ensures DbmToMwatt(c) <= DbmToMwatt(d)
    ensures MwattToDbm(v) <= MwattToDbm(w)
  {
    Galois(w, MwattToDbm(w));
    Galois(v, MwattToDbm(w));
    if c >= 0 {
      Galois(DbmToMwatt(c), c);
      Galois(DbmToMwatt(c), d);
    }
  }

  /** Going there and back never gains: not in dBm, and not in milliwatts the other way round. */
  lemma RoundTrips(w: nat, d: nat)
    requires w >= 1
    ensures w <= DbmToMwatt(MwattToDbm(w))
    ensures MwattToDbm(DbmToMwatt(d)) <= d
  {
    Galois(w, MwattToDbm(w));
    Galois(DbmToMwatt(d), d);
  }

  /** Tens of dBm are exact: 10 k dBm are 10^k mW, both ways. */
  lemma ExactTens(k: nat)
    ensures DbmToMwatt(10 * k) == Pow(10, k)
    ensures MwattToDbm(Pow(10, k)) == 10 * k
  {
    hide Pow, DbmToMwatt, MwattToDbm;
    PowPositive(10, k);
    PowOfTen(k);
    TenthPowerStrict(Pow(10, k), Pow(10, k) + 1);
    RootIs(10 * k, Pow(10, k));
    ExponentIs(Pow(10, k), 10 * k);
  }

  lemma ExponentIs(w: nat, d: nat)
    requires w >= 1 && Pow(w, 10) == Pow(10, d)
    ensures MwattToDbm(w) == d
  {
    hide Pow;
    var e := MwattToDbm(w);
    if e < d {
      TenPowerStrict(e, d);
    } else if e > d {
      PowExponentOrder(10, d, e - 1);
    }
  }

  lemma TenthPowerStrict(a: nat, b: nat)
    requires a < b
    ensures Pow(a, 10) < Pow(b, 10)
  {
    PowBaseOrder(a + 1, b, 10);
    PowStep(a, 10);
  }

  lemma {:induction false} PowStep(a: nat, n: nat)
    requires n >= 1
    ensures Pow(a, n) < Pow(a + 1, n)
  {
    if n > 1 {
      PowStep(a, n - 1);
      MulOrder(Pow(a, n - 1), Pow(a + 1, n - 1), a);
      PowPositive(a + 1, n - 1);
      assert (a + 1) * Pow(a + 1, n - 1) == a * Pow(a + 1, n - 1) + Pow(a + 1, n - 1);
    } else {
      assert Pow(a, 1) == a * Pow(a, 0) && Pow(a + 1, 1) == (a + 1) * Pow(a + 1, 0);
    }
  }

  lemma TenPowerStrict(m: nat, n: nat)
    requires m < n
    ensures Pow(10, m) < Pow(10, n)
  {
    PowExponentOrder(10, m + 1, n);
    PowPositive(10, m);
  }

  /** A dBm value survives the way to milliwatts and back iff one less gives fewer milliwatts. */
  lemma SurvivesIff(d: nat)
    ensures MwattToDbm(DbmToMwatt(d)) == d <==> DbmToMwatt(d - 1) < DbmToMwatt(d)
  {
    RoundTrips(1, d);
    Galois(DbmToMwatt(d), d - 1);
    Monotone(1, 1, d - 1, d);
  }

  /** Of all dBm values exactly the negative ones, which are no milliwatts at all, and 1, 2, 3 and 6 do
      not survive the way to milliwatts and back. */
  lemma LossyValues(d: int)
    ensures DbmToMwatt(d) >= 1 && MwattToDbm(DbmToMwatt(d)) == d
       <==> d >= 0 && d != 1 && d != 2 && d != 3 && d != 6
  {
    if d >= 0 {
      LossyFromZero(d);
      RoundTrips(1, d);
    }
  }

  lemma LossyFromZero(d: nat)
    ensures MwattToDbm(DbmToMwatt(d)) == d <==> d != 1 && d != 2 && d != 3 && d != 6
  {
    SurvivesIff(d);
    SmallPowers();
    if d <= 8 {
      SmallValues();
    } else {
      var n := DbmToMwatt(d - 1);
      SmallValues();
      Monotone(1, 1, 7, d - 1);
      RatioBelowTen(n);
      assert Pow(10, d) == 10 * Pow(10, d - 1);
      Reaches(n + 1, d);
    }
  }

  /** A tenth power within the limit is reached. */
  lemma Reaches(n: nat, d: nat)
    requires Pow(n, 10) <= Pow(10, d)
    ensures n <= DbmToMwatt(d)
  {
    var m := DbmToMwatt(d);
    if n > m {
      PowBaseOrder(m + 1, n, 10);
    }
  }

  /** From 4 on, the next integer's tenth power is less than ten times as large. */
  lemma RatioBelowTen(n: nat)
    requires n >= 4
    ensures Pow(n + 1, 10) <= 10 * Pow(n, 10)
  {
    SmallPowers();
    PowProduct(4, n + 1, 10);
    PowProduct(5, n, 10);
    PowBaseOrder(4 * (n + 1), 5 * n, 10);
    Cancel(Pow(n + 1, 10), Pow(n, 10));
  }

  lemma Cancel(x: nat, y: nat)
    requires 1048576 * x <= 9765625 * y
    ensures x <= 10 * y
  {
  }

  lemma SmallPowers()
    ensures Pow(1, 10) == 1 && Pow(2, 10) == 1024 && Pow(3, 10) == 59049
    ensures Pow(4, 10) == 1048576 && Pow(5, 10) == 9765625 && Pow(6, 10) == 60466176 && Pow(7, 10) == 282475249
    ensures Pow(10, 0) == 1 && Pow(10, 1) == 10 && Pow(10, 2) == 100 && Pow(10, 3) == 1000
    ensures Pow(10, 4) == 10000 && Pow(10, 5) == 100000 && Pow(10, 6) == 1000000
    ensures Pow(10, 7) == 10000000 && Pow(10, 8) == 100000000
  {
    TenthPower(1, 1, 1);
    TenthPower(2, 4, 32);
    TenthPower(3, 9, 243);
    TenthPower(4, 16, 1024);
    TenthPower(5, 25, 3125);
    TenthPower(6, 36, 7776);
    TenthPower(7, 49, 16807);
    assert Pow(10, 1) == 10 * Pow(10, 0);
    assert Pow(10, 2) == 10 * Pow(10, 1);
    assert Pow(10, 3) == 10 * Pow(10, 2);
    assert Pow(10, 4) == 10 * Pow(10, 3);
    assert Pow(10, 5) == 10 * Pow(10, 4);
    assert Pow(10, 6) == 10 * Pow(10, 5);
    assert Pow(10, 7) == 10 * Pow(10, 6);
    assert Pow(10, 8) == 10 * Pow(10, 7);
  }

  lemma TenthPower(b: nat, square: nat, fifth: nat)
    requires square == b * b && fifth == b * (square * square)
    ensures Pow(b, 10) == fifth * fifth
  {
    assert Pow(b, 1) == b;
    PowSum(b, 1, 1);
    PowSum(b, 2, 2);
    PowSum(b, 1, 4);
    PowSum(b, 5, 5);
  }

  lemma SmallValues()
    ensures DbmToMwatt(-1) == 0 && DbmToMwatt(0) == 1 && DbmToMwatt(1) == 1 && DbmToMwatt(2) == 1
    ensures DbmToMwatt(3) == 1 && DbmToMwatt(4) == 2 && DbmToMwatt(5) == 3 && DbmToMwatt(6) == 3
    ensures DbmToMwatt(7) == 5 && DbmToMwatt(8) == 6
  {
    SmallPowers();
    RootIs(0, 1);
    RootIs(1, 1);
    RootIs(2, 1);
    RootIs(3, 1);
    RootIs(4, 2);
    RootIs(5, 3);
    RootIs(6, 3);
    RootIs(7, 5);
    RootIs(8, 6);
  }

  lemma RootIs(d: nat, n: nat)
    requires Pow(n, 10) <= Pow(10, d) < Pow(n + 1, 10)
    ensures DbmToMwatt(d) == n
  {
    Reaches(n, d);
    var m := DbmToMwatt(d);
    if m > n {
      PowBaseOrder(n + 1, m, 10);
    }
  }
}

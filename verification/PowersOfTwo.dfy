/** Powers of two and the few facts about dividing by them that the address and wire-format proofs share. */
module PowersOfTwo {

  function Pow2(n: nat): (p: nat)
    ensures p >= 1
  {
    if n == 0 then 1 else 2 * Pow2(n - 1)
  }

  lemma {:induction false} Pow2Add(m: nat, n: nat)
    ensures Pow2(m + n) == Pow2(m) * Pow2(n)
  {
    if m == 0 {
    } else {
      Pow2Add(m - 1, n);
      assert Pow2(m + n) == 2 * Pow2(m - 1 + n);
      assert Pow2(m) * Pow2(n) == 2 * Pow2(m - 1) * Pow2(n) == 2 * (Pow2(m - 1) * Pow2(n));
    }
  }

  lemma {:induction false} Pow2Monotone(m: nat, n: nat)
    requires m <= n
    ensures Pow2(m) <= Pow2(n)
    ensures m < n ==> 2 * Pow2(m) <= Pow2(n)
    decreases n
  {
    if m < n {
      Pow2Monotone(m, n - 1);
    }
  }

  lemma Pow2Values()
    ensures Pow2(4) == 16 && Pow2(8) == 256 && Pow2(16) == 65536
  {
    assert Pow2(4) == 16;
    Pow2Add(4, 4);
    Pow2Add(8, 8);
  }

  lemma MulMonotone(s: int, p: int, q: int)
    requires s > 0
    ensures p <= q ==> s * p <= s * q
    ensures p < q ==> s * p + s <= s * q
  {
    var d := q - p;
    assert s * q == s * p + s * d;
    if d > 0 {
      assert s * d >= s;
    }
  }

  /** Quotient and remainder are the only pair that reproduces the dividend. */
  lemma DivModUnique(a: int, s: int, q: int, r: int)
    requires s > 0 && a == s * q + r && 0 <= r < s
    ensures a / s == q && a % s == r
  {
    assert a == s * (a / s) + a % s;
    MulMonotone(s, a / s, q);
    MulMonotone(s, q, a / s);
  }

  lemma ModOfProduct(q: int, s: int)
    requires s > 0
    ensures (s * q) % s == 0 && (s * q) / s == q
  {
    DivModUnique(s * q, s, q, 0);
  }

  lemma DivMod(a: int, s: int)
    requires s > 0
    ensures a == s * (a / s) + a % s && 0 <= a % s < s
  {
  }

  /** A multiple of `s` that lies below another multiple of `s` is at least `s` below it. */
  lemma MultiplesApart(a: int, b: int, s: int)
    requires s > 0 && a % s == 0 && b % s == 0 && a < b
    ensures a + s <= b
  {
    DivMod(a, s);
    DivMod(b, s);
    MulMonotone(s, a / s, b / s);
    MulMonotone(s, b / s, a / s);
  }

  lemma MultipleOfMultiple(a: int, s: int, t: int)
    requires s > 0 && t > 0 && s * t > 0 && a % (s * t) == 0
    ensures a % s == 0
  {
    DivMod(a, s * t);
    var q := a / (s * t);
    assert a == (s * t) * q;
    assert (s * t) * q == s * (t * q);
    ModOfProduct(t * q, s);
  }

  lemma MultiplesAdd(a: int, b: int, s: int)
    requires s > 0 && a % s == 0 && b % s == 0
    ensures (a + b) % s == 0 && (a - b) % s == 0
  {
    DivMod(a, s);
    DivMod(b, s);
    assert a + b == s * (a / s + b / s);
    assert a - b == s * (a / s - b / s);
    ModOfProduct(a / s + b / s, s);
    ModOfProduct(a / s - b / s, s);
  }

  /** The largest multiple of `s` that is at most `a`. */
  function RoundDown(a: nat, s: nat): (r: nat)
    requires s > 0
    ensures r <= a < r + s && r % s == 0
  {
    ModOfProduct(a / s, s);
    s * (a / s)
  }

  /** Rounding a multiple of `s` down to a multiple of `2 * s` takes off nothing or `s`. */
  lemma RoundDownToDouble(a: nat, s: nat)
    requires s > 0 && a % s == 0
    ensures RoundDown(a, 2 * s) == a || RoundDown(a, 2 * s) == a - s
  {
    var r := RoundDown(a, 2 * s);
    MultipleOfMultiple(r, s, 2);
    if r < a {
      MultiplesApart(r, a, s);
      MultiplesAdd(r, s, s);
      if r + s < a {
        MultiplesApart(r + s, a, s);
      }
    }
  }

  /** The quotient of a multiple of `s` is even exactly when it is a multiple of `2 * s`. */
  lemma EvenQuotient(a: nat, s: nat)
    requires s > 0 && a % s == 0
    ensures (a / s) % 2 == 0 <==> a % (2 * s) == 0
  {
    var q := a / s;
    DivMod(a, s);
    var h, b := q / 2, q % 2;
    assert s * q == s * (2 * h + b) == (2 * s) * h + s * b;
    DivModUnique(a, 2 * s, h, s * b);
  }

  /** A multiple of `s` is the only one within `s` below a number. */
  lemma RoundDownUnique(a: nat, s: nat, r: nat)
    requires s > 0 && r % s == 0 && r <= a < r + s
    ensures RoundDown(a, s) == r
  {
    var r' := RoundDown(a, s);
    if r' < r {
      MultiplesApart(r', r, s);
    } else if r < r' {
      MultiplesApart(r, r', s);
    }
  }

  /** Larger powers of two are multiples of smaller ones. */
  lemma Pow2Divides(m: nat, n: nat)
    requires m <= n
    ensures Pow2(n) % Pow2(m) == 0
  {
    Pow2Add(m, n - m);
    ModOfProduct(Pow2(n - m), Pow2(m));
  }

  /** Alignment to a power of two implies alignment to every smaller one. */
  lemma AlignedDown(a: int, m: nat, n: nat)
    requires m <= n && a % Pow2(n) == 0
    ensures a % Pow2(m) == 0
  {
    Pow2Add(m, n - m);
    MultipleOfMultiple(a, Pow2(m), Pow2(n - m));
  }
}

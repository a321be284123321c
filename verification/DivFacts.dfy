/** Division by a number that is not a constant, reduced to repeated addition. */
module DivFacts {
  /** `n * d`, by repeated addition. */
  function Times(n: nat, d: nat): nat {
    if n == 0 then 0 else Times(n - 1, d) + d
  }

  lemma {:induction false} NotPositive(d: int, x: int)
    requires d > 0 && x <= 0
    ensures d * x <= 0
  {
  }

  lemma {:induction false} AtLeastTwice(d: int, x: int)
    requires d > 0 && x >= 2
    ensures d * x >= 2 * d
  {
  }

  lemma {:induction false} OneTime(d: int, x: int)
    requires 0 < d * x < 2 * d && d > 0
    ensures x == 1
  {
    if x <= 0 { NotPositive(d, x); }
    if x >= 2 { AtLeastTwice(d, x); }
  }

  lemma {:induction false} DivMod(a: nat, d: nat)
    requires d > 0
    ensures a == d * (a / d) + a % d && 0 <= a % d < d
  {
  }

  lemma {:induction false} Distribute(d: int, x: int, y: int)
    ensures d * (x - y) == d * x - d * y
  {
  }

  lemma {:induction false} DivStep(a: nat, d: nat)
    requires 0 < d <= a
    ensures a / d == (a - d) / d + 1 && a % d == (a - d) % d
  {
    DivMod(a, d);
    DivMod(a - d, d);
    Distribute(d, a / d, (a - d) / d);
    OneTime(d, a / d - (a - d) / d);
  }

  lemma {:induction false} AtLeastOnce(d: int, x: int)
    requires d > 0 && x >= 1
    ensures d * x >= d
  {
  }

  lemma {:induction false} DivSmall(a: nat, d: nat)
    requires a < d
    ensures a / d == 0 && a % d == a
  {
    DivMod(a, d);
    var q := a / d;
    if q >= 1 { AtLeastOnce(d, q); }
  }

  /** A quotient and a remainder that fit are the quotient and the remainder. */
  lemma {:induction false} DivTimes(k: nat, d: nat, r: nat)
    requires r < d
    ensures (Times(k, d) + r) / d == k && (Times(k, d) + r) % d == r
  {
    if k == 0 {
      DivSmall(r, d);
    } else {
      DivTimes(k - 1, d, r);
      DivStep(Times(k, d) + r, d);
    }
  }

  /** Every number has such a quotient and remainder. */
  lemma {:induction false} Divide(a: nat, d: nat) returns (k: nat, r: nat)
    requires d > 0
    ensures a == Times(k, d) + r && r < d && a / d == k && a % d == r
  {
    k, r := 0, a;
    while r >= d
      invariant a == Times(k, d) + r
    {
      k, r := k + 1, r - d;
    }
    DivTimes(k, d, r);
  }

  lemma {:induction false} TimesMul(n: nat, d: nat)
    ensures Times(n, d) == n * d
  {
    if n > 0 {
      TimesMul(n - 1, d);
      assert n * d == (n - 1) * d + d;
    }
  }

  lemma {:induction false} TimesScale(n: nat, d: nat, c: nat)
    ensures Times(n, c * d) == c * Times(n, d)
  {
    if n > 0 {
      TimesScale(n - 1, d, c);
      assert c * (Times(n - 1, d) + d) == c * Times(n - 1, d) + c * d;
    }
  }

  lemma {:induction false} TimesMonotone(m: nat, n: nat, d: nat)
    ensures m <= n ==> Times(m, d) <= Times(n, d)
    ensures m < n ==> Times(m, d) + d <= Times(n, d)
  {
    if m < n {
      TimesMonotone(m, n - 1, d);
    }
  }

  /** Quotient and remainder, named so that a proof can leave division alone. */
  function Quot(a: nat, d: nat): nat
    requires d > 0
  {
    a / d
  }

  function Rem(a: nat, d: nat): (r: nat)
    requires d > 0
    ensures r < d
  {
    a % d
  }

  lemma {:induction false} QuotRem(a: nat, d: nat)
    requires d > 0
    ensures a == Times(Quot(a, d), d) + Rem(a, d)
  {
    var k, r := Divide(a, d);
  }

  lemma {:induction false} QuotRemOf(k: nat, d: nat, r: nat)
    requires r < d
    ensures Quot(Times(k, d) + r, d) == k && Rem(Times(k, d) + r, d) == r
  {
    DivTimes(k, d, r);
  }

  lemma {:induction false} QuotBound(a: nat, n: nat, d: nat)
    requires d > 0
    ensures Quot(a, d) < n <==> a < Times(n, d)
  {
    hide Quot, Rem;
    QuotRem(a, d);
    TimesMonotone(Quot(a, d), n, d);
    TimesMonotone(n, Quot(a, d), d);
  }

  lemma {:induction false} QuotMonotone(a: nat, b: nat, d: nat)
    requires a <= b && d > 0
    ensures Quot(a, d) <= Quot(b, d)
  {
    hide Quot, Rem;
    QuotRem(a, d);
    QuotRem(b, d);
    TimesMonotone(Quot(b, d), Quot(a, d), d);
  }

  /** One more: the quotient moves on exactly when the remainder wraps. */
  lemma {:induction false} QuotNext(a: nat, d: nat)
    requires d > 0
    ensures if Rem(a, d) + 1 < d
            then Quot(a + 1, d) == Quot(a, d) && Rem(a + 1, d) == Rem(a, d) + 1
            else Quot(a + 1, d) == Quot(a, d) + 1 && Rem(a + 1, d) == 0
  {
    hide Quot, Rem;
    QuotRem(a, d);
    if Rem(a, d) + 1 < d {
      QuotRemOf(Quot(a, d), d, Rem(a, d) + 1);
    } else {
      QuotRemOf(Quot(a, d) + 1, d, 0);
    }
  }

  /** Dividing by `512 * d` is dividing by 512 and then by `d`. */
  lemma {:induction false} QuotScaled(a: nat, d: nat)
    requires d > 0
    ensures Quot(a, 512 * d) == Quot(a / 512, d)
    ensures Rem(a, 512 * d) == 512 * Rem(a / 512, d) + a % 512
  {
    hide Quot, Rem;
    var q := a / 512;
    QuotRem(q, d);
    TimesScale(Quot(q, d), d, 512);
    QuotRemOf(Quot(q, d), 512 * d, 512 * Rem(q, d) + a % 512);
  }

  // Ring indices.

  lemma {:induction false} RemApart(j: nat, k: nat, d: nat)
    requires j < k < j + d
    ensures Rem(j, d) != Rem(k, d)
  {
    hide Quot, Rem;
    QuotRem(j, d);
    QuotRem(k, d);
    TimesMonotone(Quot(j, d), Quot(k, d), d);
    TimesMonotone(Quot(k, d), Quot(j, d), d);
  }

  lemma {:induction false} RemEqual(j: nat, k: nat, d: nat)
    requires j <= k < j + d
    ensures Rem(j, d) == Rem(k, d) <==> j == k
  {
    hide Rem;
    if j < k { RemApart(j, k, d); }
  }

  lemma {:induction false} RemLap(k: nat, d: nat)
    requires d > 0
    ensures Rem(k + d, d) == Rem(k, d) && Quot(k + d, d) == Quot(k, d) + 1
  {
    hide Quot, Rem;
    QuotRem(k, d);
    QuotRemOf(Quot(k, d) + 1, d, Rem(k, d));
  }

  /** Stepping a ring index: back to 0 exactly when a lap is complete. */
  lemma {:induction false} RemStep(k: nat, d: nat)
    requires d > 1
    ensures (Rem(k, d) + 1) % d == Rem(k + 1, d)
    ensures Quot(k + 1, d) == Quot(k, d) + if Rem(k + 1, d) == 0 then 1 else 0
  {
    QuotNext(k, d);
    if Rem(k, d) + 1 < d {
      DivSmall(Rem(k, d) + 1, d);
    } else {
      DivTimes(1, d, 0);
    }
  }

  lemma {:induction false} RemSmall(k: nat, d: nat)
    requires k < d
    ensures Rem(k, d) == k && Quot(k, d) == 0
  {
    DivSmall(k, d);
  }
}

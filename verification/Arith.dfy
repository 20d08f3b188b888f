/** Products and quotients by a number that is not a constant (sectors per cluster,
    sectors per table), built from addition and subtraction so that the proofs about
    them stay linear. Times, Quot and Rem are *, / and %. */
module Arith {
  function Times(a: nat, d: nat): nat {
    if a == 0 then 0 else Times(a - 1, d) + d
  }

  function Quot(k: nat, d: nat): nat
    requires d > 0
  {
    if k < d then 0 else 1 + Quot(k - d, d)
  }

  function Rem(k: nat, d: nat): (r: nat)
    requires d > 0
    ensures r < d
  {
    if k < d then k else Rem(k - d, d)
  }

  lemma {:induction false} TimesIsProduct(a: nat, d: nat)
    ensures Times(a, d) == a * d
  {
    if a > 0 {
      TimesIsProduct(a - 1, d);
      assert a * d == (a - 1) * d + d;
    }
  }

  lemma {:induction false} TimesMonotone(a: nat, b: nat, d: nat)
    requires a <= b
    ensures Times(a, d) <= Times(b, d)
    ensures a < b ==> Times(a, d) + d <= Times(b, d)
  {
    if a < b {
      TimesMonotone(a, b - 1, d);
    }
  }

  lemma {:induction false} Division(k: nat, d: nat)
    requires d > 0
    ensures k == Times(Quot(k, d), d) + Rem(k, d)
  {
    if k >= d {
      Division(k - d, d);
    }
  }

  lemma {:induction false} QuotOf(a: nat, d: nat, r: nat)
    requires r < d
    ensures Quot(Times(a, d) + r, d) == a && Rem(Times(a, d) + r, d) == r
  {
    if a > 0 {
      QuotOf(a - 1, d, r);
      assert Times(a, d) + r - d == Times(a - 1, d) + r;
    }
  }

  /** Quot and Rem are the quotient and the remainder. */
  lemma QuotIsQuotient(k: nat, d: nat)
    requires d > 0
    ensures k == Quot(k, d) * d + Rem(k, d)
  {
    Division(k, d);
    TimesIsProduct(Quot(k, d), d);
  }

  lemma {:induction false} QuotMonotone(j: nat, k: nat, d: nat)
    requires d > 0 && j <= k
    ensures Quot(j, d) <= Quot(k, d)
  {
    if j >= d {
      QuotMonotone(j - d, k - d, d);
    }
  }

  /** Within a group of d the quotient stays. */
  lemma QuotStay(k: nat, d: nat, i: nat)
    requires d > 0 && Rem(k, d) + i < d
    ensures Quot(k + i, d) == Quot(k, d) && Rem(k + i, d) == Rem(k, d) + i
  {
    Division(k, d);
    QuotOf(Quot(k, d), d, Rem(k, d) + i);
  }

  /** After the last of a group comes the first of the next. */
  lemma QuotNext(k: nat, d: nat)
    requires d > 0 && Rem(k, d) + 1 == d
    ensures Quot(k + 1, d) == Quot(k, d) + 1 && Rem(k + 1, d) == 0
  {
    Division(k, d);
    QuotOf(Quot(k, d) + 1, d, 0);
  }

  // ----- division by the constants that occur, one lemma each

  lemma DivMod16(n: nat, q: nat, r: nat)
    requires r < 16 && n == 16 * q + r
    ensures n / 16 == q && n % 16 == r
  {
  }

  lemma DivMod256(n: nat, q: nat, r: nat)
    requires r < 256 && n == 256 * q + r
    ensures n / 256 == q && n % 256 == r
  {
  }

  lemma DivMod512(n: nat, q: nat, r: nat)
    requires r < 512 && n == 512 * q + r
    ensures n / 512 == q && n % 512 == r
  {
  }

  lemma DivMod4096(n: nat, q: nat, r: nat)
    requires r < 4096 && n == 4096 * q + r
    ensures n / 4096 == q && n % 4096 == r
  {
  }
}

/** Machine widths, powers of two and set bits. */
module Numbers {
  const U32: nat := 0x1_0000_0000
  const U64: nat := 0x1_0000_0000_0000_0000

  function Pow2(k: nat): nat {
    if k == 0 then 1 else 2 * Pow2(k - 1)
  }

  function SetBits(n: nat): nat {
    if n == 0 then 0 else n % 2 + SetBits(n / 2)
  }

  lemma {:induction false} OddAfterEven(k: nat)
    requires k % 2 == 0
    ensures (k + 1) % 2 == 1
  {
  }

  /** Doubling keeps the number of set bits; an odd number has one more. */
  lemma {:induction false} SetBitsOfParity(half: nat)
    requires half > 0
    ensures SetBits(2 * half) == SetBits(half) && SetBits(2 * half + 1) == SetBits(half) + 1
    decreases half
  {
    assert 2 * half / 2 == half && (2 * half + 1) / 2 == half;
  }

  lemma {:induction false} DivTwice(n: nat, a: nat, b: nat)
    requires a > 0 && b > 0
    ensures b * a > 0 && n / a / b == n / (b * a)
  {
    QuotientOfQuotient(n, a, b, n / a, n % a, n / a / b, n / a % b);
  }

  lemma {:induction false} QuotientOfQuotient(n: nat, a: nat, b: nat, m: nat, s: nat, q: nat, r: nat)
    requires a > 0 && b > 0 && n == m * a + s && s < a && m == q * b + r && r < b
    ensures b * a > 0 && n / (b * a) == q
  {
    Regroup(q, b, r, a);
    MulMonotone(1, b, a);
    MulMonotone(r, b - 1, a);
    LessOne(b, a);
    UniqueQuotient(n, b * a, q, r * a + s);
  }

  lemma {:induction false} Regroup(q: nat, b: nat, r: nat, a: nat)
    ensures (q * b + r) * a == q * (b * a) + r * a
  {
  }

  lemma {:induction false} LessOne(b: nat, a: nat)
    requires b > 0
    ensures (b - 1) * a == b * a - a
  {
  }

  lemma {:induction false} UniqueQuotient(n: nat, d: nat, q: nat, r: nat)
    requires d > 0 && n == q * d + r && r < d
    ensures n / d == q
  {
    var p := n / d;
    assert n == p * d + n % d && n % d < d;
    assert (p + 1) * d == p * d + d && (q + 1) * d == q * d + d;
    if p < q {
      MulMonotone(p + 1, q, d);
      assert false;
    } else if q < p {
      MulMonotone(q + 1, p, d);
      assert false;
    }
  }

  lemma {:induction false} MulMonotone(a: nat, b: nat, d: nat)
    requires a <= b
    ensures a * d <= b * d
  {
    assert (b - a) * d >= 0;
  }
}

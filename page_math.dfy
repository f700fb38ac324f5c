// Facts about division by the page size that the solver does not find alone.

module PageMath {

  /** Multiplying by a natural number keeps order. */
  lemma {:induction false} MulMono(x: nat, y: nat, d: nat)
    requires x <= y
    ensures x * d <= y * d
  {
    if d > 0 {
      MulMono(x, y, d - 1);
      assert x * d == x * (d - 1) + x;
      assert y * d == y * (d - 1) + y;
    }
  }

  /** `a / d` is the page number of `a`: its page starts at or below `a`, the next above. */
  lemma DivBounds(a: nat, d: nat)
    requires 0 < d
    ensures (a / d) * d <= a < (a / d) * d + d
  {
    assert a == (a / d) * d + a % d;
  }

  /** For a multiple `n` of `d`, `a < n` exactly when the page number of `a` is below `n / d`. */
  lemma DivBelow(a: nat, n: nat, d: nat)
    requires 0 < d && n % d == 0
    ensures a < n <==> a / d < n / d
  {
    DivBounds(a, d);
    assert n == (n / d) * d;
    if a / d < n / d {
      MulMono(a / d + 1, n / d, d);
      assert (a / d + 1) * d == (a / d) * d + d;
    } else {
      MulMono(n / d, a / d, d);
    }
  }

  /** Two multiples of `d` with the same page number are equal. */
  lemma AlignedByIndex(a: nat, b: nat, d: nat)
    requires 0 < d && a % d == 0 && b % d == 0 && a / d == b / d
    ensures a == b
  {
    assert a == (a / d) * d + a % d;
    assert b == (b / d) * d + b % d;
  }

  /** A multiple `k * d` is aligned and has page number `k`. */
  lemma MulDiv(k: nat, d: nat)
    requires 0 < d
    ensures (k * d) % d == 0 && (k * d) / d == k
  {
    var q, r := (k * d) / d, (k * d) % d;
    assert k * d == q * d + r;
    if q < k {
      MulMono(q + 1, k, d);
    } else if k < q {
      MulMono(k + 1, q, d);
    }
  }

  /** Of two distinct multiples of `d`, the larger is at least `d` above the smaller. */
  lemma AlignedGap(a: nat, b: nat, d: nat)
    requires 0 < d && a % d == 0 && b % d == 0 && a < b
    ensures a + d <= b
  {
    DivBounds(a, d);
    DivBounds(b, d);
    if b / d <= a / d {
      MulMono(b / d, a / d, d);
    } else {
      MulMono(a / d + 1, b / d, d);
      assert (a / d + 1) * d == (a / d) * d + d;
    }
  }

  /** Adding `d` to a multiple of `d` gives a multiple of `d`. */
  lemma AlignedNext(a: nat, d: nat)
    requires 0 < d && a % d == 0
    ensures (a + d) % d == 0
  {
    DivBounds(a, d);
    assert a + d == (a / d + 1) * d;
    MulDiv(a / d + 1, d);
  }

  /** Removing one `d` from `y` removes one from its quotient. */
  lemma DivStep(y: nat, d: nat)
    requires 0 < d <= y
    ensures (y - d) / d + 1 == y / d
  {
    DivBounds(y - d, d);
    var k := (y - d) / d + 1;
    assert k * d == ((y - d) / d) * d + d;
    assert k * d <= y < k * d + d;
    DivBounds(y, d);
    if y / d < k {
      MulMono(y / d + 1, k, d);
    } else if k < y / d {
      MulMono(k + 1, y / d, d);
    }
  }
}

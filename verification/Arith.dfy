/** Integer facts shared by the page-index, window and page-table models. */
module Arith {

  /** `a` rounded down to a multiple of `g`. */
  function AlignDown(a: nat, g: nat): (r: nat)
    requires g > 0
    ensures r <= a < r + g
    ensures r % g == 0
  {
    DivBounds(a, g);
    MulMod(a / g, g);
    (a / g) * g
  }

  lemma DivBounds(a: int, g: nat)
    requires g > 0
    ensures (a / g) * g <= a < (a / g) * g + g
    ensures a == (a / g) * g + a % g
  {
  }

  /** The quotient is the only `q` with `q*g <= a < q*g + g`. */
  lemma DivUnique(a: int, g: nat, q: int)
    requires g > 0
    requires q * g <= a < q * g + g
    ensures a / g == q
  {
    DivBounds(a, g);
    var d := a / g;
    if d < q {
      MulMono(d + 1, q, g);
    } else if q < d {
      MulMono(q + 1, d, g);
    }
  }

  lemma MulMono(a: int, b: int, g: nat)
    requires a <= b
    ensures a * g <= b * g
  {
  }

  lemma MulMod(q: int, g: nat)
    requires g > 0
    ensures (q * g) % g == 0
    ensures (q * g) / g == q
  {
    DivUnique(q * g, g, q);
    DivBounds(q * g, g);
  }

  lemma DivAddMul(q: int, x: int, g: nat)
    requires g > 0
    ensures (q * g + x) / g == q + x / g
    ensures (q * g + x) % g == x % g
  {
    DivBounds(x, g);
    assert (q + x / g) * g == q * g + (x / g) * g;
    DivUnique(q * g + x, g, q + x / g);
    DivBounds(q * g + x, g);
  }

  lemma DivMono(a: int, b: int, g: nat)
    requires g > 0 && a <= b
    ensures a / g <= b / g
  {
    DivBounds(a, g);
    DivBounds(b, g);
    if b / g < a / g {
      MulMono(b / g + 1, a / g, g);
    }
  }

  /** A multiple of `g` is its quotient times `g`. */
  lemma MultipleIs(a: int, g: nat)
    requires g > 0 && a % g == 0
    ensures a == (a / g) * g
  {
    DivBounds(a, g);
  }

  lemma AddMultiples(a: int, b: int, g: nat)
    requires g > 0 && a % g == 0 && b % g == 0
    ensures (a + b) % g == 0
    ensures (a + b) / g == a / g + b / g
  {
    MultipleIs(a, g);
    DivAddMul(a / g, b, g);
  }

  /** Rounding down after adding a multiple. */
  lemma AlignSplit(base: int, x: int, g: nat)
    requires g > 0 && base % g == 0
    ensures ((base + x) / g) * g == base + (x / g) * g
  {
    MultipleIs(base, g);
    var q := base / g;
    DivAddMul(q, x, g);
    assert (q + x / g) * g == q * g + (x / g) * g;
  }

  /** Numbers at least `g` apart have different quotients. */
  lemma DivGap(a: int, b: int, g: nat)
    requires g > 0 && a + g <= b
    ensures a / g < b / g
  {
    DivMono(a + g, b, g);
    DivAddMul(1, a, g);
  }

  lemma PositiveMultiple(a: int, g: nat)
    requires g > 0 && a > 0 && a % g == 0
    ensures a >= g
  {
    MultipleIs(a, g);
  }

  lemma MulAdd(a: int, b: int, g: int)
    ensures (a + b) * g == a * g + b * g
  {
  }

  /** Dividing after adding a multiple. */
  lemma DivSplit(base: int, x: int, g: nat)
    requires g > 0 && base % g == 0
    ensures (base + x) / g == base / g + x / g
  {
    MultipleIs(base, g);
    DivAddMul(base / g, x, g);
  }

  /** Numbers less than `w` apart have different remainders. */
  lemma ModApart(s: int, n: int, w: nat)
    requires w > 0 && s < n < s + w
    ensures s % w != n % w
  {
    DivBounds(s, w);
    DivBounds(n, w);
    if s % w == n % w {
      if n / w <= s / w {
        MulMono(n / w, s / w, w);
      } else {
        MulMono(s / w + 1, n / w, w);
      }
      assert false;
    }
  }

  /** The remainder by repeated subtraction, for proofs that go through its lemmas alone. */
  function Rem(x: nat, m: nat): (r: nat)
    requires m > 0
    ensures r < m
  {
    if x < m then x else Rem(x - m, m)
  }

  lemma {:induction false} RemIs(x: nat, m: nat)
    requires m > 0
    ensures Rem(x, m) == x % m
  {
    if x < m {
      DivUnique(x, m, 0);
    } else {
      RemIs(x - m, m);
      DivAddMul(1, x - m, m);
    }
    DivBounds(x, m);
  }

  lemma {:induction false} RemAdd(x: nat, d: nat, m: nat)
    requires d < m
    ensures Rem(x + d, m) == if Rem(x, m) + d < m then Rem(x, m) + d else Rem(x, m) + d - m
  {
    if x >= m {
      RemAdd(x - m, d, m);
    }
  }

  lemma {:induction false} RemDistinct(a: nat, b: nat, m: nat)
    requires a < b < a + m
    ensures Rem(a, m) != Rem(b, m)
  {
    RemAdd(a, b - a, m);
  }
}

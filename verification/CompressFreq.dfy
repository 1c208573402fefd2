/** Compression of a raw 16-bit count into 8 bits (drv_common.h). */
module CompressFreq {
  import opened Arith
  import opened Common
  import opened HistPlan

  /** The integer square root. */
  function ISqrt(n: nat): (r: nat)
    ensures r * r <= n < (r + 1) * (r + 1)
  {
    if n == 0 then 0
    else
      var r := ISqrt(n - 1);
      if (r + 1) * (r + 1) <= n then r + 1 else r
  }

  lemma SquareMono(a: nat, b: nat)
    requires a <= b
    ensures a * a <= b * b
  {
  }

  lemma ISqrtUnique(n: nat, r: nat)
    requires r * r <= n < (r + 1) * (r + 1)
    ensures r == ISqrt(n)
  {
    var s := ISqrt(n);
    if r < s {
      SquareMono(r + 1, s);
    } else if s < r {
      SquareMono(s + 1, r);
    }
  }

  /**
   Tries the bits from high to low and keeps those whose square still fits.  The bits of `r` below
   `bit` are clear, so setting the bit is adding it.
   */
  method Compress(raw: nat) returns (r: nat)
    requires raw < U16
    ensures r == ISqrt(raw) && r <= 255
  {
    r := 0;
    var bit := 0x8000;
    ghost var k := 16;
    assert Pow2(5) == 32 && Pow2(10) == 1024 && Pow2(15) == 0x8000;
    while bit != 0
      invariant 0 <= k <= 16
      invariant bit == if k == 0 then 0 else Pow2(k - 1)
      invariant r % Pow2(k) == 0 && Pow2(k) > 0
      invariant r * r <= raw < (r + Pow2(k)) * (r + Pow2(k))
      decreases k
    {
      ghost var p := Pow2(k - 1);
      assert Pow2(k) == 2 * p && p > 0;
      HalfMultiple(r, p);
      var t := (r + bit) * (r + bit);
      if t <= raw {
        r := r + bit;
      }
      bit := bit / 2;
      k := k - 1;
    }
    ISqrtUnique(raw, r);
    if r > 255 {
      SquareMono(256, r);
      assert false;
    }
  }

  lemma HalfMultiple(r: nat, p: nat)
    requires p > 0 && r % (2 * p) == 0
    ensures r % p == 0 && (r + p) % p == 0
  {
    var q := r / (2 * p);
    DivBounds(r, 2 * p);
    assert r == (2 * q) * p;
    MulAdd(2 * q, 1, p);
    MulMod(2 * q, p);
    MulMod(2 * q + 1, p);
  }
}

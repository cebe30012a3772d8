/** Offsets on the block grid. Defined by recursion so that proofs stay linear in the block size. */
module Grid {

  predicate Aligned(x: nat, bs: nat)
    requires bs > 0
  {
    x == 0 || (x >= bs && Aligned(x - bs, bs))
  }

  function RoundDown(x: nat, bs: nat): (r: nat)
    requires bs > 0
    ensures r <= x < r + bs
    ensures Aligned(r, bs)
  {
    if x < bs then 0 else RoundDown(x - bs, bs) + bs
  }

  function RoundUp(x: nat, bs: nat): (r: nat)
    requires bs > 0
    ensures x <= r < x + bs
    ensures Aligned(r, bs)
  {
    var d := RoundDown(x, bs);
    if d == x then x else d + bs
  }

  /** Two grid points closer than one block are the same point. */
  lemma {:induction false} GridGap(a: nat, b: nat, bs: nat)
    requires bs > 0 && Aligned(a, bs) && Aligned(b, bs) && a < b
    ensures a + bs <= b
  {
    if a > 0 {
      GridGap(a - bs, b - bs, bs);
    }
  }

  lemma {:induction false} GridAdd(a: nat, b: nat, bs: nat)
    requires bs > 0 && Aligned(a, bs) && Aligned(b, bs)
    ensures Aligned(a + b, bs)
  {
    if a > 0 {
      GridAdd(a - bs, b, bs);
    }
  }

  lemma {:induction false} GridSub(a: nat, b: nat, bs: nat)
    requires bs > 0 && Aligned(a, bs) && Aligned(b, bs) && b <= a
    ensures Aligned(a - b, bs)
  {
    if b > 0 {
      GridSub(a - bs, b - bs, bs);
    }
  }

  lemma OneBlock(bs: nat)
    requires bs > 0
    ensures Aligned(bs, bs)
  {
  }

  /** The quotient forms the program writes are the rounding functions. */
  lemma {:induction false} RoundDownIsDivision(x: nat, bs: nat)
    requires bs > 0
    ensures (x / bs) * bs == RoundDown(x, bs)
    ensures x - x % bs == RoundDown(x, bs)
  {
    if x >= bs {
      RoundDownIsDivision(x - bs, bs);
      DivisionStep(x, bs);
    } else {
      assert x / bs == 0;
    }
  }

  lemma DivisionStep(x: nat, bs: nat)
    requires 0 < bs <= x
    ensures x / bs == (x - bs) / bs + 1
    ensures (x / bs) * bs == ((x - bs) / bs) * bs + bs
    ensures x % bs == (x - bs) % bs
  {
    var q := (x - bs) / bs;
    assert (q + 1) * bs == q * bs + bs;
    DivisionUnique(x / bs, x % bs, q + 1, (x - bs) % bs, bs);
  }

  lemma DivisionUnique(q: int, r: int, q': int, r': int, bs: nat)
    requires 0 <= r < bs && 0 <= r' < bs && q * bs + r == q' * bs + r'
    ensures q == q' && r == r'
  {
    var d := q - q';
    assert d * bs == q * bs - q' * bs == r' - r;
    MulBig(d, bs);
    MulBig(-d, bs);
    assert -d * bs == -(d * bs);
  }

  lemma MulBig(d: int, bs: nat)
    ensures d >= 1 ==> d * bs >= bs
  {
  }

  lemma RoundUpIsDivision(x: nat, bs: nat)
    requires bs > 0
    ensures ((x + bs - 1) / bs) * bs == RoundUp(x, bs)
  {
    RoundDownIsDivision(x + bs - 1, bs);
    var a, b := RoundDown(x + bs - 1, bs), RoundUp(x, bs);
    if a < b {
      GridGap(a, b, bs);
    } else if b < a {
      GridGap(b, a, bs);
    }
  }
}

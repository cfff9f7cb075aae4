/** Residues of a variable modulus, the few facts the slots rely on. */
module Residues {

  lemma ModUnique(a: int, q: int, r: int, w: int)
    requires 0 <= r < w && a == q * w + r
    ensures a % w == r
  {
    var q', r' := a / w, a % w;
    assert a == q' * w + r';
    assert (q - q') * w == r' - r;
    if q > q' {
      assert (q - q') * w >= w by { MulAtLeast(q - q', w); }
    } else if q < q' {
      assert (q' - q) * w >= w by { MulAtLeast(q' - q, w); }
    }
  }

  lemma MulAtLeast(d: int, w: int)
    requires d >= 1 && w > 0
    ensures d * w >= w
  {
    assert d * w == (d - 1) * w + w;
    assert (d - 1) * w >= 0;
  }

  /** Stepping d on from a lands on a's residue moved by d. */
  lemma ModAdd(a: int, d: int, w: int)
    requires w > 0
    ensures (a % w + d) % w == (a + d) % w
  {
    var q, r := (a + d) / w, (a + d) % w;
    assert a == a / w * w + a % w;
    assert a % w + d == (q - a / w) * w + r;
    ModUnique(a % w + d, q - a / w, r, w);
  }

  /** Distinct numbers less than w apart have distinct residues. */
  lemma ModDistinct(a: int, b: int, w: int)
    requires w > 0 && a < b < a + w
    ensures a % w != b % w
  {
    if a % w == b % w {
      ModUnique(b - a, b / w - a / w, 0, w);
    }
  }

  lemma ModSmall(d: int, w: int)
    requires 0 <= d < w
    ensures d % w == d
  {
  }
}

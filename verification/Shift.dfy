/** Whole-byte shifts of unbounded integers. ShiftRight floors, like Go's big.Int.Rsh. */
module Shift {
  function ShiftLeft(n: int, bytes: nat): int {
    if bytes == 0 then n else 256 * ShiftLeft(n, bytes - 1)
  }

  function ShiftRight(n: int, bytes: nat): int {
    if bytes == 0 then n else ShiftRight(n, bytes - 1) / 256
  }

  /** 256 to the power k. */
  function Pow256(k: nat): (p: int)
    ensures p >= 1
  {
    LeftSign(1, k);
    ShiftLeft(1, k)
  }

  lemma PowerOf256(k: nat)
    ensures Pow256(0) == 1 && Pow256(k + 1) == 0x100 * Pow256(k)
  {
  }

  lemma {:induction false} LeftAdd(a: int, b: int, k: nat)
    ensures ShiftLeft(a + b, k) == ShiftLeft(a, k) + ShiftLeft(b, k)
  {
    if k > 0 {
      LeftAdd(a, b, k - 1);
    }
  }

  lemma {:induction false} LeftNeg(a: int, k: nat)
    ensures ShiftLeft(-a, k) == -ShiftLeft(a, k)
  {
    if k > 0 {
      LeftNeg(a, k - 1);
    }
  }

  lemma {:induction false} LeftOrder(a: int, b: int, k: nat)
    ensures a < b <==> ShiftLeft(a, k) < ShiftLeft(b, k)
    ensures a == b <==> ShiftLeft(a, k) == ShiftLeft(b, k)
  {
    if k > 0 {
      LeftOrder(a, b, k - 1);
    }
  }

  lemma {:induction false} LeftSign(a: int, k: nat)
    ensures a > 0 <==> ShiftLeft(a, k) > 0
    ensures a >= 0 <==> ShiftLeft(a, k) >= 0
  {
    if k > 0 {
      LeftSign(a, k - 1);
    }
  }

  lemma {:induction false} LeftTwice(a: int, j: nat, k: nat)
    ensures ShiftLeft(ShiftLeft(a, j), k) == ShiftLeft(a, j + k)
  {
    if k > 0 {
      LeftTwice(a, j, k - 1);
    }
  }

  /** A longer shift of a positive number is larger. */
  lemma LeftGrows(a: int, j: nat, k: nat)
    requires a > 0 && j <= k
    ensures ShiftLeft(a, j) <= ShiftLeft(a, k)
    decreases k
  {
    if j < k {
      LeftSign(a, k - 1);
      LeftGrows(a, j, k - 1);
    }
  }

  /** ShiftRight is the upper adjoint of ShiftLeft. */
  lemma {:induction false} Adjoint(m: int, n: int, k: nat)
    ensures m <= ShiftRight(n, k) <==> ShiftLeft(m, k) <= n
    decreases k
  {
    if k > 0 {
      Adjoint(256 * m, n, k - 1);
      LeftTwice(m, 1, k - 1);
      assert ShiftLeft(m, 1) == 256 * ShiftLeft(m, 0);
    }
  }

  lemma RightOfLeft(m: int, k: nat)
    ensures ShiftRight(ShiftLeft(m, k), k) == m
  {
    var n := ShiftLeft(m, k);
    Adjoint(m, n, k);
    Adjoint(m + 1, n, k);
    LeftOrder(m, m + 1, k);
  }

  /** The enclosure that characterises the floor of a right shift. */
  lemma RightEnclosure(n: int, k: nat)
    ensures ShiftLeft(ShiftRight(n, k), k) <= n < ShiftLeft(ShiftRight(n, k) + 1, k)
    ensures n - ShiftLeft(ShiftRight(n, k), k) < Pow256(k)
  {
    var m := ShiftRight(n, k);
    Adjoint(m, n, k);
    Adjoint(m + 1, n, k);
    LeftAdd(m, 1, k);
  }

  lemma RightUnique(n: int, m: int, k: nat)
    requires ShiftLeft(m, k) <= n < ShiftLeft(m + 1, k)
    ensures ShiftRight(n, k) == m
  {
    Adjoint(m, n, k);
    Adjoint(m + 1, n, k);
  }

  lemma SmallPowers()
    ensures Pow256(0) == 1 && Pow256(1) == 0x100 && Pow256(2) == 0x1_0000 && Pow256(3) == 0x100_0000
  {
    assert Pow256(1) == 256 * ShiftLeft(1, 0);
    assert Pow256(2) == 256 * ShiftLeft(1, 1);
    assert Pow256(3) == 256 * ShiftLeft(1, 2);
  }
}

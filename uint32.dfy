/** Arithmetic on C's 32-bit `uint`, used for the console's cursors.
    A cursor only ever grows by one or shrinks by one, and the physical slot
    it names is the cursor modulo the buffer size; since 128 divides 2^32,
    that slot survives the wrap-around from 2^32 - 1 to 0. */
module Uint32 {

  const MOD: int := 0x1_0000_0000

  type u32 = x: int | 0 <= x < MOD

  /** `x++` on a `uint`: wraps from 2^32 - 1 back to 0. */
  function Inc(x: u32): (y: u32)
    ensures y == if x < MOD - 1 then x + 1 else 0
  {
    (x + 1) % MOD
  }

  /** `x--` on a `uint`: wraps from 0 to 2^32 - 1. */
  function Dec(x: u32): (y: u32)
    ensures y == if x > 0 then x - 1 else MOD - 1
  {
    (x - 1) % MOD
  }

  /** `a - b` on `uint`s: how far `a` lies ahead of `b` around the 2^32 circle. */
  function Sub(a: u32, b: u32): (d: u32)
    ensures d == if a >= b then a - b else a - b + MOD
  {
    (a - b) % MOD
  }

  /** `a + k` on a `uint`. */
  function Add(a: u32, k: nat): (y: u32)
    ensures k < MOD ==> y == if a + k < MOD then a + k else a + k - MOD
  {
    AddWraps(a, k);
    (a + k) % MOD
  }

  lemma AddWraps(a: u32, k: nat)
    ensures k < MOD ==> (a + k) % MOD == if a + k < MOD then a + k else a + k - MOD
  {
    if k < MOD && a + k >= MOD {
      assert a + k == MOD + (a + k - MOD);
    }
  }

  /** Incrementing and then decrementing a cursor gives it back (the `r++`
      then `r--` of an end-of-file that is left in place). */
  lemma DecInc(x: u32)
    ensures Dec(Inc(x)) == x && Inc(Dec(x)) == x
  {
  }

  /** Moving the leading cursor forward lengthens the distance by one. */
  lemma SubInc(a: u32, b: u32)
    requires Sub(a, b) < MOD - 1
    ensures Sub(Inc(a), b) == Sub(a, b) + 1
  {
  }

  /** Moving the leading cursor back shortens the distance by one. */
  lemma SubDec(a: u32, b: u32)
    requires a != b
    ensures Sub(Dec(a), b) == Sub(a, b) - 1
  {
  }

  /** Distances add up along three cursors in circular order. */
  lemma SubSplit(a: u32, m: u32, b: u32)
    requires Sub(m, b) <= Sub(a, b)
    ensures Sub(a, m) == Sub(a, b) - Sub(m, b)
  {
  }

  /** Advancing `b` by the distance to `a` lands on `a`'s slot, for any
      buffer size dividing 2^32; here the console's 128. */
  lemma SlotOfDistance(a: u32, b: u32)
    ensures (b + Sub(a, b)) % 128 == a % 128
  {
    if a < b {
      assert b + Sub(a, b) == a + 128 * 33554432;
    }
  }

  /** Two offsets from the same cursor less than 128 apart name different slots. */
  lemma SlotsDistinct(x: int, i: int, j: int)
    requires 0 <= x && 0 <= i < j < i + 128
    ensures (x + i) % 128 != (x + j) % 128
  {
    var p, q := x + i, x + j;
    assert p == 128 * (p / 128) + p % 128;
    assert q == 128 * (q / 128) + q % 128;
  }

  /** The slot `i` past `Add(a, k)` is the slot `k + i` past `a`. */
  lemma SlotOfAdd(a: u32, k: nat, i: nat)
    requires k < MOD
    ensures (Add(a, k) + i) % 128 == (a + k + i) % 128
  {
    if a + k >= MOD {
      assert a + k + i == (Add(a, k) + i) + 128 * 33554432;
    }
  }

  /** Advancing a cursor by none leaves it; by one is `Inc`; advancing the
      successor by `k` is advancing by `k + 1`. */
  lemma AddSteps(a: u32, k: nat)
    requires k + 1 < MOD
    ensures Add(a, 0) == a && Add(a, 1) == Inc(a)
    ensures Add(Inc(a), k) == Add(a, k + 1)
  {
  }

  /** Two advances in a row are one advance by their sum. */
  lemma AddAdd(a: u32, j: nat, k: nat)
    requires j + k < MOD
    ensures Add(Add(a, j), k) == Add(a, j + k)
  {
  }

  /** Advancing the trailing cursor by `k` shortens the distance by `k`. */
  lemma SubAdd(a: u32, b: u32, k: nat)
    requires k <= Sub(a, b)
    ensures Sub(a, Add(b, k)) == Sub(a, b) - k
  {
  }

  /** A cursor advanced by `k` lies `k` ahead. */
  lemma SubAddSelf(a: u32, k: nat)
    requires k < MOD
    ensures Sub(Add(a, k), a) == k
  {
  }
}

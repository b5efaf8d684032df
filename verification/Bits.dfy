/** Bitwise operators on natural numbers, 32-bit wrap-around, and the facts about powers of two they need. */
module Bits {

  const WRAP: nat := 0x1_0000_0000

  type u32 = x: nat | x < WRAP

  function Add32(a: u32, b: nat): u32 {
    (a + b) % WRAP
  }

  function Sub32(a: u32, b: u32): u32 {
    (a - b) % WRAP
  }

  /** Bitwise and. */
  function And(x: nat, y: nat): nat {
    if x == 0 || y == 0 then 0 else 2 * And(x / 2, y / 2) + if x % 2 == 1 && y % 2 == 1 then 1 else 0
  }

  /** Bitwise or. */
  function Or(x: nat, y: nat): nat
    decreases x + y
  {
    if x == 0 && y == 0 then 0 else 2 * Or(x / 2, y / 2) + if x % 2 == 1 || y % 2 == 1 then 1 else 0
  }

  /** Shift right by `j`. */
  function Shr(x: nat, j: nat): nat
    decreases j
  {
    if j == 0 then x else Shr(x / 2, j - 1)
  }

  /** Bit `i` of `x`. */
  predicate Bit(x: nat, i: nat)
    decreases i
  {
    if i == 0 then x % 2 == 1 else Bit(x / 2, i - 1)
  }

  function Pow2(k: nat): nat
    ensures Pow2(k) > 0
  {
    if k == 0 then 1 else 2 * Pow2(k - 1)
  }

  // ---------------------------------------------------------------------------------------------
  // Remainders
  // ---------------------------------------------------------------------------------------------

  lemma MulSign(d: int, m: nat)
    ensures d >= 1 ==> d * m >= m
    ensures d <= -1 ==> d * m <= -(m as int)
  {
  }

  lemma ModUnique(x: int, m: nat, q: int, r: nat)
    requires m > 0 && r < m && x == q * m + r
    ensures x % m == r && x / m == q
  {
    MulSign(x / m - q, m);
    assert (x / m - q) * m == r - x % m;
  }

  /** Positions less than `m` apart occupy different slots. */
  lemma SlotsDiffer(a: nat, b: nat, m: nat)
    requires m > 0 && a < b < a + m
    ensures a % m != b % m
  {
    MulSign(b / m - a / m, m);
    assert (b / m - a / m) * m == (b - b % m) - (a - a % m);
  }

  lemma ModAdd(a: int, m: nat, q: int)
    requires m > 0
    ensures (a + q * m) % m == a % m
  {
    assert a + q * m == (a / m + q) * m + a % m;
    ModUnique(a + q * m, m, a / m + q, a % m);
  }

  lemma {:induction false} Pow2Sum(j: nat, k: nat)
    ensures Pow2(j + k) == Pow2(j) * Pow2(k)
  {
    if j > 0 {
      Pow2Sum(j - 1, k);
      assert 2 * (Pow2(j - 1) * Pow2(k)) == (2 * Pow2(j - 1)) * Pow2(k);
    }
  }

  lemma {:induction false} Pow2Monotone(j: nat, k: nat)
    requires j <= k
    ensures Pow2(j) <= Pow2(k)
  {
    if j < k {
      Pow2Monotone(j, k - 1);
    }
  }

  lemma WrapIsPow2()
    ensures Pow2(32) == WRAP && Pow2(31) == 0x8000_0000
  {
    assert Pow2(8) == 256;
    Pow2Sum(8, 8);
    Pow2Sum(16, 16);
  }

  lemma ModMod(a: int, c: nat, m: nat)
    requires c > 0 && m > 0
    ensures c * m > 0 && (a % (c * m)) % m == a % m
  {
    var n := c * m;
    assert n > 0 by {
      MulSign(c, m);
    }
    var q, r := a / n, a % n;
    assert a == r + (q * c) * m;
    ModAdd(r, m, q * c);
  }

  /** Wrapping at 32 bits does not disturb a remainder by a smaller power of two. */
  lemma WrapKeepsSlot(a: int, k: nat)
    requires k <= 32
    ensures (a % WRAP) % Pow2(k) == a % Pow2(k)
  {
    WrapIsPow2();
    Pow2Sum(32 - k, k);
    ModMod(a, Pow2(32 - k), Pow2(k));
  }

  lemma HalfMod(x: nat, y: nat)
    requires y > 0
    ensures x % (2 * y) == 2 * ((x / 2) % y) + x % 2
  {
    var q, r := (x / 2) / y, (x / 2) % y;
    assert x == 2 * (q * y + r) + x % 2;
    assert q * (2 * y) == 2 * (q * y);
    ModUnique(x, 2 * y, q, 2 * r + x % 2);
  }

  /** Masking with 2^k - 1 is taking the remainder by 2^k. */
  lemma {:induction false} AndMask(x: nat, k: nat)
    ensures And(x, Pow2(k) - 1) == x % Pow2(k)
  {
    if k > 0 {
      AndMask(x / 2, k - 1);
      assert (Pow2(k) - 1) / 2 == Pow2(k - 1) - 1 && (Pow2(k) - 1) % 2 == 1;
      HalfMod(x, Pow2(k - 1));
    }
  }

  // ---------------------------------------------------------------------------------------------
  // Rounding up to a power of two
  // ---------------------------------------------------------------------------------------------

  lemma {:induction false} BitOr(x: nat, y: nat, i: nat)
    ensures Bit(Or(x, y), i) <==> Bit(x, i) || Bit(y, i)
    decreases i
  {
    if i == 0 {
    } else if x == 0 && y == 0 {
      BitZero(i);
    } else {
      assert Or(x, y) / 2 == Or(x / 2, y / 2);
      BitOr(x / 2, y / 2, i - 1);
    }
  }

  lemma {:induction false} BitZero(i: nat)
    ensures !Bit(0, i)
  {
    if i > 0 {
      BitZero(i - 1);
    }
  }

  lemma {:induction false} BitShr(x: nat, j: nat, i: nat)
    ensures Bit(Shr(x, j), i) <==> Bit(x, i + j)
    decreases j
  {
    if j > 0 {
      BitShr(x / 2, j - 1, i);
    }
  }

  /** Bits `k` down to `lo` are set, and none above `k`. */
  ghost predicate Ones(x: nat, lo: int, k: nat) {
    forall i: nat :: (lo <= i <= k ==> Bit(x, i)) && (i > k ==> !Bit(x, i))
  }

  /** One smearing step doubles the number of leading ones. */
  lemma Smear(x: nat, k: nat, w: nat)
    requires w > 0 && Ones(x, k + 1 - w, k)
    ensures Ones(Or(x, Shr(x, w)), k + 1 - 2 * w, k)
  {
    forall i: nat
      ensures k + 1 - 2 * w <= i <= k ==> Bit(Or(x, Shr(x, w)), i)
      ensures i > k ==> !Bit(Or(x, Shr(x, w)), i)
    {
      BitOr(x, Shr(x, w), i);
      BitShr(x, w, i);
    }
  }

  lemma {:induction false} OnesValue(x: nat, k: nat)
    requires Ones(x, 0, k)
    ensures x == Pow2(k + 1) - 1
    decreases k
  {
    assert Bit(x, 0);
    if k == 0 {
      NoBitsAbove(x, 0);
    } else {
      forall i: nat
        ensures i <= k - 1 ==> Bit(x / 2, i)
        ensures i > k - 1 ==> !Bit(x / 2, i)
      {
        assert Bit(x, i + 1) == Bit(x / 2, i);
      }
      OnesValue(x / 2, k - 1);
    }
  }

  lemma {:induction false} NoBitsAbove(x: nat, k: nat)
    requires forall i: nat :: i > k ==> !Bit(x, i)
    ensures x < Pow2(k + 1)
    decreases x
  {
    if x >= 2 {
      var j := Log2(x);
      Log2Top(x);
      assert Bit(x, j);
      assert j <= k;
      Pow2Monotone(j + 1, k + 1);
    }
  }

  /** The position of the highest set bit. */
  function Log2(x: nat): nat
    requires x > 0
  {
    if x == 1 then 0 else 1 + Log2(x / 2)
  }

  lemma {:induction false} Log2Top(x: nat)
    requires x > 0
    ensures Pow2(Log2(x)) <= x < Pow2(Log2(x) + 1)
    ensures Ones(x, Log2(x), Log2(x))
  {
    if x == 1 {
      forall i: nat | i > 0
        ensures !Bit(x, i)
      {
        BitZero(i - 1);
      }
    } else {
      Log2Top(x / 2);
      forall i: nat
        ensures i == Log2(x) ==> Bit(x, i)
        ensures i > Log2(x) ==> !Bit(x, i)
      {
        if i > 0 {
          assert Bit(x, i) == Bit(x / 2, i - 1);
        }
      }
    }
  }

  function SmearBy(n: nat, w: nat): nat {
    Or(n, Shr(n, w))
  }

  function Smeared(n: nat): nat {
    SmearBy(SmearBy(SmearBy(SmearBy(SmearBy(n, 1), 2), 4), 8), 16)
  }

  /** Smearing fills every bit below the highest one. */
  lemma SmearedValue(n: nat)
    requires 0 < n < WRAP
    ensures Smeared(n) + 1 == Pow2(Log2(n) + 1)
  {
    var k := Log2(n);
    assert k < 32 by { TopBelow32(n); }
    assert Ones(n, k, k) by { Log2Top(n); }
    SmearedOnes(n, k);
    OnesValue(Smeared(n), k);
  }

  lemma SmearedOnes(n: nat, k: nat)
    requires k < 32 && Ones(n, k, k)
    ensures Ones(Smeared(n), 0, k)
  {
    var n1 := SmearBy(n, 1);
    var n2 := SmearBy(n1, 2);
    var n3 := SmearBy(n2, 4);
    var n4 := SmearBy(n3, 8);
    SmearStep(n, k, k, 1);
    SmearStep(n1, k, k as int - 1, 2);
    SmearStep(n2, k, k as int - 3, 4);
    SmearStep(n3, k, k as int - 7, 8);
    SmearStep(n4, k, k as int - 15, 16);
  }

  lemma SmearStep(x: nat, k: nat, lo: int, w: nat)
    requires w > 0 && lo == k + 1 - w && Ones(x, lo, k)
    ensures Ones(SmearBy(x, w), lo - w, k)
  {
    Smear(x, k, w);
  }

  /** `r` is the least power of two that is at least `size`. */
  ghost predicate LeastPowerAtLeast(r: nat, size: nat) {
    && r >= size
    && (exists k :: k <= 32 && r == Pow2(k))
    && forall j :: Pow2(j) >= size ==> Pow2(j) >= r
  }

  lemma PowerIsLeast(r: nat, size: nat, k: nat)
    requires 0 < k <= 32 && r == Pow2(k) && Pow2(k - 1) < size <= Pow2(k)
    ensures LeastPowerAtLeast(r, size)
  {
    forall j: nat | Pow2(j) >= size
      ensures Pow2(j) >= r
    {
      if j < k {
        Pow2Monotone(j, k - 1);
      } else {
        Pow2Monotone(k, j);
      }
    }
  }

  lemma SmearedRoundsUp(size: nat)
    requires 0 < size <= WRAP
    ensures LeastPowerAtLeast(Smeared(size - 1) + 1, size)
  {
    if size == 1 {
      assert Smeared(0) == 0 by { OrZero(); }
      assert Pow2(0) == 1;
    } else {
      var k := Log2(size - 1) + 1;
      assert k <= 32 by { TopBelow32(size - 1); }
      assert Pow2(k - 1) < size <= Pow2(k) by { Log2Top(size - 1); }
      var r := Smeared(size - 1) + 1;
      assert r == Pow2(k) by { SmearedValue(size - 1); }
      PowerIsLeast(r, size, k);
    }
  }

  /** The bit-smearing computation of NewRing, for a positive size. */
  method RoundUp(size: nat) returns (r: nat)
    requires 0 < size <= WRAP
    ensures LeastPowerAtLeast(r, size)
  {
    var n := size - 1;
    n := Or(n, Shr(n, 1));
    n := Or(n, Shr(n, 2));
    n := Or(n, Shr(n, 4));
    n := Or(n, Shr(n, 8));
    n := Or(n, Shr(n, 16));
    assert n == Smeared(size - 1);
    SmearedRoundsUp(size);
    return n + 1;
  }

  lemma OrZero()
    ensures Or(0, Shr(0, 1)) == Or(0, Shr(0, 2)) == Or(0, Shr(0, 4)) == Or(0, Shr(0, 8)) == Or(0, Shr(0, 16)) == 0
  {
    ShrZero(1);
    ShrZero(2);
    ShrZero(4);
    ShrZero(8);
    ShrZero(16);
  }

  lemma {:induction false} ShrZero(j: nat)
    ensures Shr(0, j) == 0
  {
    if j > 0 {
      ShrZero(j - 1);
    }
  }

  lemma TopBelow32(n: nat)
    requires 0 < n < WRAP
    ensures Log2(n) < 32
  {
    Log2Top(n);
    WrapIsPow2();
    if Log2(n) >= 32 {
      Pow2Monotone(32, Log2(n));
    }
  }
}

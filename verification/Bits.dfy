/** Bitwise operators on natural numbers of a given width, and their arithmetic meaning on masks. */
module Bits {

  function Pow2(n: nat): (r: nat)
    ensures r > 0
  {
    if n == 0 then 1 else 2 * Pow2(n - 1)
  }

  function BitAnd(x: nat, y: nat, width: nat): nat {
    if width == 0 then 0
    else (if x % 2 == 1 && y % 2 == 1 then 1 else 0) + 2 * BitAnd(x / 2, y / 2, width - 1)
  }

  function BitOr(x: nat, y: nat, width: nat): nat {
    if width == 0 then 0
    else (if x % 2 == 1 || y % 2 == 1 then 1 else 0) + 2 * BitOr(x / 2, y / 2, width - 1)
  }

  function BitNot(x: nat, width: nat): nat {
    if width == 0 then 0 else (if x % 2 == 1 then 0 else 1) + 2 * BitNot(x / 2, width - 1)
  }

  lemma ModRange(x: nat, m: nat)
    requires m > 0
    ensures 0 <= x % m < m
  {}

  /** `x` with its lowest `h` bits cleared. */
  function Floor(x: nat, h: nat): (r: nat)
    ensures r <= x < r + Pow2(h)
  {
    if h == 0 then x else 2 * Floor(x / 2, h - 1)
  }

  /** Clearing `h` bits first does not matter when more are cleared afterwards. */
  lemma {:induction false} FloorTwice(x: nat, h: nat, k: nat)
    requires h <= k
    ensures Floor(Floor(x, h), k) == Floor(x, k)
  {
    if h > 0 {
      FloorTwice(x / 2, h - 1, k - 1);
      assert Floor(x, h) / 2 == Floor(x / 2, h - 1);
    }
  }

  /** The numbers with the same high bits as `y` are the 2^h numbers from `y` on. */
  lemma {:induction false} FloorIs(x: nat, y: nat, h: nat)
    requires Floor(y, h) == y && y <= x < y + Pow2(h)
    ensures Floor(x, h) == y
  {
    if h > 0 {
      assert Floor(y / 2, h - 1) == y / 2;
      FloorIs(x / 2, y / 2, h - 1);
    }
  }

  lemma {:induction false} Pow2Grows(h: nat, k: nat)
    requires h <= k
    ensures Pow2(h) <= Pow2(k)
  {
    if h > 0 {
      Pow2Grows(h - 1, k - 1);
    }
  }

  /** The number whose bits from `h` up to `width` are set. */
  function HighOnes(h: nat, width: nat): nat
    requires h <= width
  {
    Pow2Grows(h, width);
    Pow2(width) - Pow2(h)
  }

  lemma {:induction false} NotHigh(h: nat, width: nat)
    requires h <= width
    ensures BitNot(HighOnes(h, width), width) == Pow2(h) - 1
  {
    if h > 0 {
      assert (HighOnes(h, width)) % 2 == 0 && (HighOnes(h, width)) / 2 == HighOnes(h - 1, width - 1);
      NotHigh(h - 1, width - 1);
    } else if width > 0 {
      assert (Pow2(width) - 1) % 2 == 1 && (Pow2(width) - 1) / 2 == Pow2(width - 1) - 1;
      NotHigh(0, width - 1);
    }
  }

  lemma HighOnesHalves(h: nat, width: nat)
    requires h <= width && width > 0
    ensures HighOnes(h, width) % 2 == (if h == 0 then 1 else 0)
    ensures HighOnes(h, width) / 2 == HighOnes(if h == 0 then 0 else h - 1, width - 1)
  {}

  /** Masking keeps the high bits. */
  lemma {:induction false} AndHigh(x: nat, h: nat, width: nat)
    requires h <= width && x < Pow2(width)
    ensures BitAnd(x, HighOnes(h, width), width) == Floor(x, h)
  {
    if h > 0 {
      HighOnesHalves(h, width);
      AndHigh(x / 2, h - 1, width - 1);
    } else if width > 0 {
      HighOnesHalves(0, width);
      AndHigh(x / 2, 0, width - 1);
    }
  }

  /** Setting the low bits fills the block. */
  lemma {:induction false} OrLow(x: nat, h: nat, width: nat)
    requires h <= width && x < Pow2(width)
    ensures BitOr(x, Pow2(h) - 1, width) == Floor(x, h) + Pow2(h) - 1
  {
    if h > 0 {
      assert (Pow2(h) - 1) % 2 == 1 && (Pow2(h) - 1) / 2 == Pow2(h - 1) - 1;
      OrLow(x / 2, h - 1, width - 1);
    } else if width > 0 {
      OrLow(x / 2, 0, width - 1);
    }
  }

  lemma {:induction false} FloorBounded(x: nat, h: nat, width: nat)
    requires h <= width && x < Pow2(width)
    ensures Floor(x, h) + Pow2(h) <= Pow2(width)
  {
    if h > 0 {
      FloorBounded(x / 2, h - 1, width - 1);
    }
  }

  /** Numbers without a common bit: or is addition. */
  lemma {:induction false} OrDisjoint(high: nat, low: nat, h: nat, width: nat)
    requires low < Pow2(h) && h <= width && high * Pow2(h) < Pow2(width)
    ensures BitOr(high * Pow2(h), low, width) == high * Pow2(h) + low
    decreases width
  {
    if h > 0 {
      assert high * Pow2(h) == 2 * (high * Pow2(h - 1));
      assert (high * Pow2(h)) / 2 == high * Pow2(h - 1);
      OrDisjoint(high, low / 2, h - 1, width - 1);
    } else {
      OrZero(high, width);
    }
  }

  lemma {:induction false} OrZero(x: nat, width: nat)
    requires x < Pow2(width)
    ensures BitOr(x, 0, width) == x
  {
    if width > 0 {
      OrZero(x / 2, width - 1);
    }
  }
}

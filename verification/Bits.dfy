/** Bit operations on non-negative big integers (math/big) and on bytes, and their arithmetic meaning. */
module Bits {

  function Pow2(n: nat): (r: nat)
    ensures r >= 1
  {
    if n == 0 then 1 else 2 * Pow2(n - 1)
  }

  /** v with its low h bits cleared. */
  function High(v: nat, h: nat): nat
  {
    if h == 0 then v else 2 * High(v / 2, h - 1)
  }

  /** The number in the low h bits of v. */
  function Low(v: nat, h: nat): nat
  {
    if h == 0 then 0 else v % 2 + 2 * Low(v / 2, h - 1)
  }

  /** big.Int.Lsh: v shifted left by k bits. */
  function Shl(v: nat, k: nat): nat
  {
    if k == 0 then v else 2 * Shl(v, k - 1)
  }

  function BitOr(x: nat, y: nat): nat
  {
    if x == 0 then y
    else if y == 0 then x
    else (if x % 2 == 1 || y % 2 == 1 then 1 else 0) + 2 * BitOr(x / 2, y / 2)
  }

  function BitAnd(x: nat, y: nat): nat
  {
    if x == 0 || y == 0 then 0
    else (if x % 2 == 1 && y % 2 == 1 then 1 else 0) + 2 * BitAnd(x / 2, y / 2)
  }

  function BitXor(x: nat, y: nat): nat
  {
    if x == 0 then y
    else if y == 0 then x
    else (if x % 2 != y % 2 then 1 else 0) + 2 * BitXor(x / 2, y / 2)
  }

  // ---------- powers of two ----------

  lemma {:induction false} Pow2Byte(n: nat)
    ensures Pow2(n + 8) == 256 * Pow2(n)
  {
    assert Pow2(n + 2) == 4 * Pow2(n);
    assert Pow2(n + 4) == 4 * Pow2(n + 2);
    assert Pow2(n + 6) == 4 * Pow2(n + 4);
  }

  lemma {:induction false} SmallPowers()
    ensures Pow2(16) == 0x1_0000 && Pow2(24) == 0x100_0000 && Pow2(32) == 0x1_0000_0000 && Pow2(31) == 0x8000_0000
  {
    Pow2Byte(0);
    Pow2Byte(8);
    Pow2Byte(16);
    Pow2Byte(24);
    assert Pow2(0) == 1;
    assert Pow2(32) == 2 * Pow2(31);
  }

  lemma {:induction false} ShlByte(v: nat)
    ensures Shl(v, 8) == 256 * v
  {
    assert Shl(v, 2) == 2 * Shl(v, 1);
    assert Shl(v, 4) == 4 * Shl(v, 2);
    assert Shl(v, 6) == 4 * Shl(v, 4);
    assert Shl(v, 8) == 4 * Shl(v, 6);
  }

  lemma {:induction false} ShlAdd(a: nat, b: nat, k: nat)
    ensures Shl(a + b, k) == Shl(a, k) + Shl(b, k)
  {
    if k > 0 {
      ShlAdd(a, b, k - 1);
    }
  }

  lemma {:induction false} ShlShl(v: nat, i: nat, k: nat)
    ensures Shl(Shl(v, i), k) == Shl(v, i + k)
  {
    if k > 0 {
      ShlShl(v, i, k - 1);
    }
  }

  lemma {:induction false} ShlBound(v: nat, w: nat, k: nat)
    requires v < Pow2(w)
    ensures Shl(v, k) < Pow2(w + k)
  {
    if k > 0 {
      ShlBound(v, w, k - 1);
    }
  }

  lemma {:induction false} Pow2Monotone(a: nat, b: nat)
    requires a <= b
    ensures Pow2(a) <= Pow2(b)
  {
    if a < b {
      Pow2Monotone(a, b - 1);
    }
  }

  // ---------- splitting a number into high and low bits ----------

  lemma {:induction false} HighLow(v: nat, h: nat)
    ensures High(v, h) + Low(v, h) == v
    ensures Low(v, h) < Pow2(h)
  {
    if h > 0 {
      HighLow(v / 2, h - 1);
    }
  }

  lemma {:induction false} LowSmall(v: nat, h: nat)
    ensures v < Pow2(h) <==> Low(v, h) == v
    ensures v < Pow2(h) <==> High(v, h) == 0
  {
    if h > 0 {
      LowSmall(v / 2, h - 1);
    }
    HighLow(v, h);
  }

  /** Clearing fewer low bits first changes nothing. */
  lemma {:induction false} HighOfHigh(v: nat, h: nat, g: nat)
    requires h <= g
    ensures High(High(v, h), g) == High(v, g)
  {
    if h > 0 {
      assert High(v, h) / 2 == High(v / 2, h - 1);
      HighOfHigh(v / 2, h - 1, g - 1);
    }
  }

  /** The low bits are the remainder modulo the power of two. */
  lemma {:induction false} LowIsMod(v: nat, h: nat)
    ensures Low(v, h) == v % Pow2(h)
  {
    HighLow(v, h);
    var q := HighQuotient(v, h);
    var d, r := Pow2(h), Low(v, h);
    assert v == q * d + r;
    assert v / d == q && v % d == r by {
      RemainderUnique(v, d, q, r);
    }
  }

  lemma {:induction false} HighQuotient(v: nat, h: nat) returns (q: nat)
    ensures High(v, h) == q * Pow2(h)
  {
    if h == 0 {
      q := v;
    } else {
      q := HighQuotient(v / 2, h - 1);
    }
  }

  lemma {:induction false} RemainderUnique(v: nat, d: nat, q: nat, r: nat)
    requires r < d && v == q * d + r
    ensures v / d == q && v % d == r
  {
    var e := q - v / d;
    assert e * d == v % d - r;
    if e != 0 {
      assert false;
    }
  }

  /** Splitting off a k-bit digit commutes with clearing low bits. */
  lemma {:induction false} HighDigit(v: nat, b: nat, k: nat, h: nat)
    requires b < Pow2(k)
    ensures h <= k ==> High(Shl(v, k) + b, h) == Shl(v, k) + High(b, h)
    ensures h >= k ==> High(Shl(v, k) + b, h) == Shl(High(v, h - k), k)
  {
    if h > 0 && k > 0 {
      assert (Shl(v, k) + b) / 2 == Shl(v, k - 1) + b / 2;
      HighDigit(v, b / 2, k - 1, h - 1);
    }
  }

  lemma {:induction false} HighByte(v: nat, b: nat, h: nat)
    requires b < 256
    ensures h <= 8 ==> High(v * 256 + b, h) == v * 256 + High(b, h)
    ensures h >= 8 ==> High(v * 256 + b, h) == 256 * High(v, h - 8)
  {
    Pow2Byte(0);
    ShlByte(v);
    HighDigit(v, b, 8, h);
    if h >= 8 {
      ShlByte(High(v, h - 8));
    }
  }

  /** Adding one to a w-bit counter: its low h bits count cyclically; its high bits move only when they wrap. */
  lemma {:induction false} Increment(v: nat, w: nat, h: nat)
    requires v < Pow2(w) && h <= w
    ensures var s := Low(v + 1, w);
            if Low(v, h) == Pow2(h) - 1
            then Low(s, h) == 0 && (High(s, h) == High(v, h) <==> h == w)
            else Low(s, h) == Low(v, h) + 1 && High(s, h) == High(v, h)
  {
    var s := Low(v + 1, w);
    if h == 0 {
      LowSmall(v, w);
      IncrementMoves(v, w);
    } else {
      var t := Low(v / 2 + v % 2, w - 1);
      assert s == (v + 1) % 2 + 2 * t;
      assert s / 2 == t;
      if v % 2 == 1 {
        Increment(v / 2, w - 1, h - 1);
      } else {
        LowSmall(v / 2, w - 1);
      }
    }
  }

  lemma {:induction false} IncrementMoves(v: nat, w: nat)
    requires v < Pow2(w)
    ensures Low(v + 1, w) == v <==> w == 0
  {
    LowSmall(v + 1, w);
    if w > 0 {
      assert Low(v + 1, w) % 2 == (v + 1) % 2;
    }
  }

  // ---------- bit operations as arithmetic ----------

  /** Or-ing in a number below every set bit of the accumulator is addition. */
  lemma {:induction false} OrDisjoint(a: nat, b: nat, k: nat)
    requires b < Pow2(k)
    ensures BitOr(Shl(a, k), b) == Shl(a, k) + b
  {
    if k > 0 && Shl(a, k) != 0 && b != 0 {
      OrDisjoint(a, b / 2, k - 1);
    }
  }

  lemma {:induction false} AndHigh(b: nat, w: nat, h: nat)
    requires b < Pow2(w) && h <= w
    ensures Pow2(w) >= Pow2(h)
    ensures BitAnd(b, Pow2(w) - Pow2(h)) == High(b, h)
  {
    Pow2Monotone(h, w);
    if b == 0 {
      LowSmall(0, h);
    } else if h == w {
      LowSmall(b, h);
    } else if h == 0 {
      AndLow(b, w);
      LowSmall(b, w);
    } else {
      AndHigh(b / 2, w - 1, h - 1);
      assert (Pow2(w) - Pow2(h)) / 2 == Pow2(w - 1) - Pow2(h - 1);
    }
  }

  lemma {:induction false} AndLow(b: nat, h: nat)
    ensures BitAnd(b, Pow2(h) - 1) == Low(b, h)
  {
    if b == 0 {
      LowSmall(0, h);
    } else if h > 0 {
      AndLow(b / 2, h - 1);
      assert (Pow2(h) - 1) / 2 == Pow2(h - 1) - 1;
    }
  }

  /** Flipping all w bits is subtraction from all ones. */
  lemma {:induction false} XorOnes(x: nat, w: nat)
    requires x < Pow2(w)
    ensures BitXor(x, Pow2(w) - 1) == Pow2(w) - 1 - x
  {
    if w > 0 && x > 0 {
      var y := Pow2(w) - 1;
      assert y % 2 == 1 && y / 2 == Pow2(w - 1) - 1;
      XorOnes(x / 2, w - 1);
      assert BitXor(x, y) == (1 - x % 2) + 2 * BitXor(x / 2, y / 2);
    }
  }

  lemma {:induction false} AndBound(x: nat, y: nat)
    ensures BitAnd(x, y) <= x
  {
    if x != 0 && y != 0 {
      AndBound(x / 2, y / 2);
    }
  }

  lemma {:induction false} XorBound(x: nat, y: nat, w: nat)
    requires x < Pow2(w) && y < Pow2(w)
    ensures BitXor(x, y) < Pow2(w)
  {
    if x != 0 && y != 0 {
      XorBound(x / 2, y / 2, w - 1);
    }
  }
}

/**
 Unsigned machine words as natural numbers: bits, shifts and masks as C defines them,
 each with the one lemma that says what it does to every bit.
 */
module Words {

  type byte = x: int | 0 <= x < 256
  type uint32 = x: int | 0 <= x < 0x1_0000_0000
  type uint64 = x: int | 0 <= x < 0x1_0000_0000_0000_0000
  type int32 = x: int | -0x8000_0000 <= x < 0x8000_0000

  /** Bit `i` of `x`, counted from the least significant one. */
  predicate Bit(x: nat, i: nat) {
    if i == 0 then x % 2 == 1 else Bit(x / 2, i - 1)
  }

  function B2N(b: bool): nat {
    if b then 1 else 0
  }

  function Pow2(n: nat): nat {
    if n == 0 then 1 else 2 * Pow2(n - 1)
  }

  lemma {:induction false} PowPos(n: nat)
    ensures Pow2(n) >= 1
  {
    if n > 0 { PowPos(n - 1); }
  }

  /** `x << n`, before truncation. */
  function Shl(x: nat, n: nat): nat {
    if n == 0 then x else 2 * Shl(x, n - 1)
  }

  /** `x >> n`. */
  function Shr(x: nat, n: nat): nat
    decreases x
  {
    if n == 0 || x == 0 then x else Shr(x / 2, n - 1)
  }

  /** The lowest `w` bits of `x`: truncation to a `w`-bit word. */
  function Low(x: nat, w: nat): nat
    decreases x
  {
    if w == 0 || x == 0 then 0 else x % 2 + 2 * Low(x / 2, w - 1)
  }

  /** `x & y`. */
  function And(x: nat, y: nat): nat {
    if x == 0 || y == 0 then 0
    else B2N(x % 2 == 1 && y % 2 == 1) + 2 * And(x / 2, y / 2)
  }

  /** `x | y`. */
  function Or(x: nat, y: nat): nat {
    if x == 0 then y
    else if y == 0 then x
    else B2N(x % 2 == 1 || y % 2 == 1) + 2 * Or(x / 2, y / 2)
  }

  /** `x ^ y`. */
  function Xor(x: nat, y: nat): nat {
    if x == 0 then y
    else if y == 0 then x
    else B2N(x % 2 != y % 2) + 2 * Xor(x / 2, y / 2)
  }

  /** `~x` in a byte. */
  function Not8(x: byte): byte {
    255 - x
  }

  // ----- What each operation does to every bit -----

  lemma {:induction false} BitZero(i: nat)
    ensures !Bit(0, i)
  {
    if i > 0 { BitZero(i - 1); }
  }

  lemma {:induction false} BitAnd(x: nat, y: nat, i: nat)
    ensures Bit(And(x, y), i) == (Bit(x, i) && Bit(y, i))
    decreases i
  {
    BitZero(i);
    if x != 0 && y != 0 && i > 0 {
      BitAnd(x / 2, y / 2, i - 1);
    }
  }

  lemma {:induction false} BitOr(x: nat, y: nat, i: nat)
    ensures Bit(Or(x, y), i) == (Bit(x, i) || Bit(y, i))
    decreases i
  {
    BitZero(i);
    if x != 0 && y != 0 && i > 0 {
      BitOr(x / 2, y / 2, i - 1);
    }
  }

  lemma {:induction false} BitXor(x: nat, y: nat, i: nat)
    ensures Bit(Xor(x, y), i) == (Bit(x, i) != Bit(y, i))
    decreases i
  {
    BitZero(i);
    if x != 0 && y != 0 && i > 0 {
      BitXor(x / 2, y / 2, i - 1);
    }
  }

  lemma {:induction false} BitShl(x: nat, n: nat, i: nat)
    ensures Bit(Shl(x, n), i) == (i >= n && Bit(x, i - n))
    decreases n
  {
    if n > 0 && i > 0 {
      BitShl(x, n - 1, i - 1);
    }
  }

  lemma {:induction false} BitShr(x: nat, n: nat, i: nat)
    ensures Bit(Shr(x, n), i) == Bit(x, i + n)
    decreases n
  {
    if x == 0 {
      BitZero(i);
      BitZero(i + n);
    } else if n > 0 {
      BitShr(x / 2, n - 1, i);
    }
  }

  lemma {:induction false} BitLow(x: nat, w: nat, i: nat)
    ensures Bit(Low(x, w), i) == (i < w && Bit(x, i))
    decreases w
  {
    BitZero(i);
    if x > 0 && w > 0 && i > 0 {
      BitLow(x / 2, w - 1, i - 1);
    }
  }

  /** The mask `(1 << n) - 1`. */
  lemma {:induction false} BitMask(n: nat, i: nat)
    ensures Pow2(n) >= 1 && Bit(Pow2(n) - 1, i) == (i < n)
    decreases n
  {
    PowPos(n);
    if n == 0 {
      BitZero(i);
    } else {
      PowPos(n - 1);
      if i > 0 { BitMask(n - 1, i - 1); }
    }
  }

  lemma {:induction false} ShlOne(n: nat)
    ensures Shl(1, n) == Pow2(n)
  {
    if n > 0 { ShlOne(n - 1); }
  }

  lemma {:induction false} BitNot8(x: byte, i: nat)
    requires i < 8
    ensures Bit(Not8(x), i) == !Bit(x, i)
  {
    BitComplement(x, 8, i);
  }

  lemma {:induction false} BitComplement(x: nat, w: nat, i: nat)
    requires i < w && x < Pow2(w)
    ensures Bit(Pow2(w) - 1 - x, i) == !Bit(x, i)
  {
    if i > 0 {
      assert (Pow2(w) - 1 - x) / 2 == Pow2(w - 1) - 1 - x / 2;
      BitComplement(x / 2, w - 1, i - 1);
    }
  }

  // ----- Widths, and equality bit by bit -----

  lemma {:induction false} LowBound(x: nat, w: nat)
    ensures Low(x, w) < Pow2(w)
    decreases w
  {
    PowPos(w);
    if x > 0 && w > 0 { LowBound(x / 2, w - 1); }
  }

  lemma {:induction false} LowFits(x: nat, w: nat)
    requires x < Pow2(w)
    ensures Low(x, w) == x
    decreases w
  {
    if x > 0 && w > 0 { LowFits(x / 2, w - 1); }
  }

  /** `Low` is the remainder modulo a power of two, and `Shr` the quotient. */
  lemma {:induction false} LowIsMod(x: nat, w: nat)
    ensures x == Shr(x, w) * Pow2(w) + Low(x, w)
    decreases w
  {
    if x > 0 && w > 0 {
      LowIsMod(x / 2, w - 1);
      MulDouble(Shr(x / 2, w - 1), Pow2(w - 1));
    }
  }

  lemma MulDouble(x: nat, y: nat)
    ensures x * (2 * y) == 2 * (x * y)
  {
  }

  lemma {:induction false} ShrBounds(x: nat, n: nat)
    ensures Shr(x, n) == 0 <==> x < Pow2(n)
    decreases n
  {
    PowPos(n);
    if x > 0 && n > 0 { ShrBounds(x / 2, n - 1); }
  }

  lemma {:induction false} ShrStep(x: nat, n: nat)
    ensures Shr(x, n + 1) == Shr(x, n) / 2
    decreases n
  {
    if x > 0 && n > 0 { ShrStep(x / 2, n - 1); }
  }

  lemma {:induction false} SameBits(x: nat, y: nat, w: nat)
    requires x < Pow2(w) && y < Pow2(w)
    requires forall i: nat | i < w :: Bit(x, i) == Bit(y, i)
    ensures x == y
  {
    if w > 0 {
      assert Bit(x, 0) == Bit(y, 0);
      forall i: nat | i < w - 1 ensures Bit(x / 2, i) == Bit(y / 2, i) {
        assert Bit(x, i + 1) == Bit(y, i + 1);
      }
      SameBits(x / 2, y / 2, w - 1);
    }
  }

  /** A number without bits at `w` and above is below `2^w`. */
  lemma {:induction false} HighBit(x: nat, w: nat) returns (i: nat)
    requires x >= Pow2(w)
    ensures i >= w && Bit(x, i)
    decreases x
  {
    PowPos(w);
    if w == 0 {
      if x % 2 == 1 {
        i := 0;
      } else {
        var j := HighBit(x / 2, 0);
        i := j + 1;
      }
    } else {
      var j := HighBit(x / 2, w - 1);
      i := j + 1;
    }
  }

  lemma BelowPow2(x: nat, w: nat)
    requires forall i: nat | i >= w :: !Bit(x, i)
    ensures x < Pow2(w)
  {
    if x >= Pow2(w) {
      var i := HighBit(x, w);
    }
  }

  lemma {:induction false} BitBelow(x: nat, w: nat, i: nat)
    requires x < Pow2(w) && i >= w
    ensures !Bit(x, i)
  {
    if w == 0 { BitZero(i); } else { BitBelow(x / 2, w - 1, i - 1); }
  }

  lemma {:induction false} PowSum(a: nat, b: nat)
    ensures Pow2(a + b) == Pow2(a) * Pow2(b)
  {
    if a > 0 { PowSum(a - 1, b); }
  }

  lemma {:induction false} PowMono(a: nat, b: nat)
    requires a <= b
    ensures Pow2(a) <= Pow2(b)
  {
    if a < b { PowMono(a, b - 1); }
  }

  lemma PowValues()
    ensures Pow2(8) == 0x100 && Pow2(31) == 0x8000_0000
    ensures Pow2(32) == 0x1_0000_0000 && Pow2(64) == 0x1_0000_0000_0000_0000
  {
    PowSum(8, 8);
    PowSum(16, 16);
    PowSum(32, 32);
  }

  lemma ByteBelow(b: byte, i: nat)
    requires i >= 8
    ensures !Bit(b, i)
  {
    PowValues();
    BitBelow(b, 8, i);
  }

  lemma AllOnes(i: nat)
    ensures Bit(0xFF, i) == (i < 8)
  {
    PowValues();
    BitMask(8, i);
  }

  lemma ByteBits(x: nat)
    requires forall i: nat | i >= 8 :: !Bit(x, i)
    ensures x < 256
  {
    PowValues();
    BelowPow2(x, 8);
  }

  // ----- Exclusive or -----

  lemma XorHalf(x: nat, y: nat)
    ensures Xor(x, y) % 2 == B2N(x % 2 != y % 2) && Xor(x, y) / 2 == Xor(x / 2, y / 2)
  {
  }

  lemma {:induction false} XorSelf(x: nat)
    ensures Xor(x, x) == 0
  {
    if x > 0 { XorSelf(x / 2); }
  }

  lemma {:induction false} XorComm(x: nat, y: nat)
    ensures Xor(x, y) == Xor(y, x)
  {
    if x > 0 && y > 0 { XorComm(x / 2, y / 2); }
  }

  lemma {:induction false} XorAssoc(x: nat, y: nat, z: nat)
    ensures Xor(Xor(x, y), z) == Xor(x, Xor(y, z))
    decreases x + y + z
  {
    if x > 0 && y > 0 && z > 0 {
      XorHalf(x, y);
      XorHalf(y, z);
      XorHalf(Xor(x, y), z);
      XorHalf(x, Xor(y, z));
      XorAssoc(x / 2, y / 2, z / 2);
    }
  }

  /** `x ^ y ^ x == y`. */
  lemma XorCancel(x: nat, y: nat)
    ensures Xor(x, Xor(x, y)) == y
  {
    XorAssoc(x, x, y);
    XorSelf(x);
  }

  lemma {:induction false} XorBound(x: nat, y: nat, w: nat)
    requires x < Pow2(w) && y < Pow2(w)
    ensures Xor(x, y) < Pow2(w)
    decreases w
  {
    if x > 0 && y > 0 { XorBound(x / 2, y / 2, w - 1); }
  }
}

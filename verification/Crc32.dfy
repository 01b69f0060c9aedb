/**
 crc32.cc: the table-driven CRC-32 of section 8 of RFC 1952, against two definitions that
 do not use a table: a shift register that takes one bit at a time, and long division of
 the message polynomial by the generator polynomial.
 */
module Crc32 {
  import opened Words

  const POLYNOMIAL: uint32 := 0xEDB88320
  const ONES: uint32 := 0xFFFF_FFFF

  // ----- The inner loop of the table: one step of the register -----

  function Step(c: nat): nat {
    if c % 2 == 1 then Xor(POLYNOMIAL, Shr(c, 1)) else Shr(c, 1)
  }

  function Steps(c: nat, n: nat): nat
    decreases n
  {
    if n == 0 then c else Steps(Step(c), n - 1)
  }

  lemma Half(c: nat)
    ensures Shr(c, 1) == c / 2
  {
    if c > 0 { assert Shr(c / 2, 0) == c / 2; }
  }

  lemma StepRange(c: nat)
    requires c < Pow2(32)
    ensures Step(c) < Pow2(32)
  {
    hide Pow2, Xor;
    PowValues();
    Half(c);
    XorBound(POLYNOMIAL, c / 2, 32);
  }

  lemma {:induction false} StepsRange(c: nat, n: nat)
    requires c < Pow2(32)
    ensures Steps(c, n) < Pow2(32)
    decreases n
  {
    if n > 0 {
      StepRange(c);
      StepsRange(Step(c), n - 1);
    }
  }

  /** A step is linear over exclusive or. */
  lemma StepXor(c: nat, d: nat)
    ensures Step(Xor(c, d)) == Xor(Step(c), Step(d))
  {
    hide Shr, Xor;
    XorHalf(c, d);
    Half(c);
    Half(d);
    Half(Xor(c, d));
    var p, x, y: nat := POLYNOMIAL, c / 2, d / 2;
    XorAssoc(p, x, y);
    XorComm(x, Xor(p, y));
    XorAssoc(p, y, x);
    XorComm(x, y);
    XorAssoc(Xor(p, x), p, y);
    XorComm(Xor(p, x), p);
    XorCancel(p, x);
  }

  lemma {:induction false} StepsXor(c: nat, d: nat, n: nat)
    ensures Steps(Xor(c, d), n) == Xor(Steps(c, n), Steps(d, n))
    decreases n
  {
    hide Step, Xor;
    if n > 0 {
      StepXor(c, d);
      StepsXor(Step(c), Step(d), n - 1);
    }
  }

  lemma {:induction false} StepsAdd(c: nat, m: nat, n: nat)
    ensures Steps(c, m + n) == Steps(Steps(c, m), n)
    decreases m
  {
    hide Step;
    if m > 0 { StepsAdd(Step(c), m - 1, n); }
  }

  /** Steps only shift down what is above the bits they consume. */
  lemma {:induction false} StepsShl(y: nat, n: nat)
    ensures Steps(Shl(y, n), n) == y
    decreases n
  {
    hide Xor;
    if n > 0 {
      Half(Shl(y, n));
      StepsShl(y, n - 1);
    }
  }

  /** A number is its low `n` bits and the rest, put together by exclusive or. */
  lemma LowXorRest(x: nat, n: nat)
    ensures x == Xor(Low(x, n), Shl(Shr(x, n), n))
  {
    hide *;
    var r := Xor(Low(x, n), Shl(Shr(x, n), n));
    forall i: nat ensures Bit(x, i) == Bit(r, i) {
      BitXor(Low(x, n), Shl(Shr(x, n), n), i);
      BitLow(x, n, i);
      BitShl(Shr(x, n), n, i);
      if i >= n { BitShr(x, n, i - n); }
    }
    AllBits(x, r);
  }

  lemma {:induction false} AllBits(x: nat, y: nat)
    requires forall i: nat :: Bit(x, i) == Bit(y, i)
    ensures x == y
  {
    if x != 0 || y != 0 {
      assert Bit(x, 0) == Bit(y, 0);
      forall i: nat ensures Bit(x / 2, i) == Bit(y / 2, i) {
        assert Bit(x, i + 1) == Bit(y, i + 1);
      }
      AllBits(x / 2, y / 2);
    }
  }

  /** The table identity: `n` steps are a table entry for the low bits, and a shift. */
  lemma StepsSplit(x: nat, n: nat)
    ensures Steps(x, n) == Xor(Steps(Low(x, n), n), Shr(x, n))
  {
    hide *;
    LowXorRest(x, n);
    StepsXor(Low(x, n), Shl(Shr(x, n), n), n);
    StepsShl(Shr(x, n), n);
  }

  // ----- Different registers stay different -----

  lemma StepInjective(c: nat, d: nat)
    requires c < Pow2(32) && d < Pow2(32) && Step(c) == Step(d)
    ensures c == d
  {
    PowValues();
    hide Xor, Shr, Pow2;
    Half(c);
    Half(d);
    XorCancel(POLYNOMIAL, c / 2);
    XorCancel(POLYNOMIAL, d / 2);
    if c % 2 == 1 && d % 2 == 0 { PolynomialTop(c / 2); }
    if c % 2 == 0 && d % 2 == 1 { PolynomialTop(d / 2); }
  }

  /** The polynomial's top bit cannot be cancelled by a shifted register. */
  lemma PolynomialTop(x: nat)
    requires x < 0x8000_0000
    ensures Xor(POLYNOMIAL, x) >= 0x8000_0000
  {
    hide Xor, Pow2, Bit;
    PowValues();
    if Xor(POLYNOMIAL, x) < Pow2(31) {
      XorBound(x, Xor(POLYNOMIAL, x), 31);
      XorComm(POLYNOMIAL, x);
      XorCancel(x, POLYNOMIAL);
    }
  }

  lemma {:induction false} StepsInjective(c: nat, d: nat, n: nat)
    requires c < Pow2(32) && d < Pow2(32) && Steps(c, n) == Steps(d, n)
    ensures c == d
    decreases n
  {
    hide Step;
    if n > 0 {
      StepRange(c);
      StepRange(d);
      StepsInjective(Step(c), Step(d), n - 1);
      StepInjective(c, d);
    }
  }

  // ----- Reference: one message bit at a time -----

  /** The register after one more message bit. */
  function BitStep(c: nat, bit: bool): nat {
    if (c % 2 == 1) != bit then Xor(POLYNOMIAL, Shr(c, 1)) else Shr(c, 1)
  }

  function Register(c: nat, bits: seq<bool>): nat
    decreases |bits|
  {
    if bits == [] then c else Register(BitStep(c, bits[0]), bits[1..])
  }

  /** The lowest `n` bits of `x`, least significant first. */
  function BitsOf(x: nat, n: nat): (bits: seq<bool>)
    ensures |bits| == n
    ensures forall i | 0 <= i < n :: bits[i] == Bit(x, i)
    decreases n
  {
    if n == 0 then [] else [x % 2 == 1] + BitsOf(x / 2, n - 1)
  }

  /** The message as bits, each byte least significant bit first. */
  function MessageBits(data: seq<byte>): seq<bool> {
    if data == [] then [] else BitsOf(data[0], 8) + MessageBits(data[1..])
  }

  lemma {:induction false} RegisterConcat(c: nat, a: seq<bool>, b: seq<bool>)
    ensures Register(c, a + b) == Register(Register(c, a), b)
    decreases |a|
  {
    hide BitStep;
    if a == [] {
      assert a + b == b;
    } else {
      assert (a + b)[1..] == a[1..] + b;
      RegisterConcat(BitStep(c, a[0]), a[1..], b);
    }
  }

  lemma {:induction false} MessageBitsConcat(a: seq<byte>, b: seq<byte>)
    ensures MessageBits(a + b) == MessageBits(a) + MessageBits(b)
  {
    if a == [] {
      assert a + b == b;
    } else {
      assert (a + b)[1..] == a[1..] + b;
      MessageBitsConcat(a[1..], b);
    }
  }

  /** Taking `n` bits one at a time is or-ing them in at once, then `n` steps. */
  lemma {:induction false} BitsAtOnce(c: nat, x: nat, n: nat)
    requires x < Pow2(n)
    ensures Register(c, BitsOf(x, n)) == Steps(Xor(c, x), n)
    decreases n
  {
    if n == 0 {
      assert Xor(c, 0) == c;
    } else {
      FirstBit(c, x);
      assert BitsOf(x, n)[1..] == BitsOf(x / 2, n - 1);
      BitsAtOnce(BitStep(c, x % 2 == 1), x / 2, n - 1);
    }
  }

  lemma FirstBit(c: nat, x: nat)
    ensures Step(Xor(c, x)) == Xor(BitStep(c, x % 2 == 1), x / 2)
  {
    hide Xor, Shr;
    XorHalf(c, x);
    Half(c);
    Half(Xor(c, x));
    XorAssoc(POLYNOMIAL, c / 2, x / 2);
  }

  lemma {:induction false} RegisterRange(c: nat, bits: seq<bool>)
    requires c < Pow2(32)
    ensures Register(c, bits) < Pow2(32)
    decreases |bits|
  {
    hide Pow2, Xor;
    if bits != [] {
      PowValues();
      Half(c);
      XorBound(POLYNOMIAL, c / 2, 32);
      RegisterRange(BitStep(c, bits[0]), bits[1..]);
    }
  }

  // ----- The implementation -----

  function TableEntry(i: nat): nat {
    Steps(i, 8)
  }

  /** One byte through the table is eight bits through the register. */
  lemma TableStep(c: nat, u: byte)
    ensures And(Xor(c, u), 0xFF) < 256
    ensures Xor(TableEntry(And(Xor(c, u), 0xFF)), Shr(c, 8)) == Register(c, BitsOf(u, 8))
  {
    hide And, Xor, Shr, Low, Steps, Register, BitsOf, Pow2;
    var x := Xor(c, u);
    PowValues();
    MaskIsLow(x);
    LowBound(x, 8);
    BitsAtOnce(c, u, 8);
    StepsSplit(x, 8);
    ShrXorByte(c, u);
  }

  lemma MaskIsLow(x: nat)
    ensures And(x, 0xFF) == Low(x, 8)
  {
    hide *;
    forall i: nat ensures Bit(And(x, 0xFF), i) == Bit(Low(x, 8), i) {
      BitAnd(x, 0xFF, i);
      AllOnes(i);
      BitLow(x, 8, i);
    }
    AllBits(And(x, 0xFF), Low(x, 8));
  }

  lemma ShrXorByte(c: nat, u: byte)
    ensures Shr(Xor(c, u), 8) == Shr(c, 8)
  {
    hide *;
    forall i: nat ensures Bit(Shr(Xor(c, u), 8), i) == Bit(Shr(c, 8), i) {
      BitShr(Xor(c, u), 8, i);
      BitShr(c, 8, i);
      BitXor(c, u, i + 8);
      ByteBelow(u, i + 8);
    }
    AllBits(Shr(Xor(c, u), 8), Shr(c, 8));
  }

  /** What UpdateCrc32 computes: complement, feed the message bits, complement. */
  function Crc(start: uint32, data: seq<byte>): uint32 {
    CrcRange(start, data);
    Xor(Register(Xor(start, ONES), MessageBits(data)), ONES)
  }

  lemma ComplementRange(c: nat)
    requires c < 0x1_0000_0000
    ensures Xor(c, ONES) < 0x1_0000_0000
  {
    hide Xor, Pow2;
    PowValues();
    XorBound(c, ONES, 32);
  }

  lemma CrcRange(start: uint32, data: seq<byte>)
    ensures Xor(Register(Xor(start, ONES), MessageBits(data)), ONES) < 0x1_0000_0000
  {
    hide Xor, Register, MessageBits, Pow2;
    PowValues();
    ComplementRange(start);
    RegisterRange(Xor(start, ONES), MessageBits(data));
    ComplementRange(Register(Xor(start, ONES), MessageBits(data)));
  }

  lemma EntryStart(i: nat)
    ensures Steps(i, 0) == i && TableEntry(i) == Steps(i, 8)
  {
  }

  lemma NoBytes(c: nat, buf: seq<byte>)
    ensures Register(c, MessageBits(buf[..0])) == c
  {
  }

  lemma StepsNext(c: nat, n: nat)
    ensures Steps(c, n + 1) == Step(Steps(c, n))
  {
    StepsAdd(c, n, 1);
    assert Steps(Steps(c, n), 1) == Steps(Step(Steps(c, n)), 0);
  }

  lemma NextByte(c: nat, buf: seq<byte>, i: nat)
    requires i < |buf|
    ensures Register(c, MessageBits(buf[..i + 1])) == Register(Register(c, MessageBits(buf[..i])), BitsOf(buf[i], 8))
  {
    hide Register;
    assert buf[..i + 1] == buf[..i] + [buf[i]];
    MessageBitsConcat(buf[..i], [buf[i]]);
    OneByte(buf[i]);
    RegisterConcat(c, MessageBits(buf[..i]), BitsOf(buf[i], 8));
  }

  lemma OneByte(u: byte)
    ensures MessageBits([u]) == BitsOf(u, 8)
  {
    hide BitsOf;
    assert [u][1..] == [];
  }

  class Crc32Table {
    var table: array<uint32>

    /** Filled, if its last entry says so. */
    ghost predicate Valid()
      reads this, table
    {
      table.Length == 256 && (table[255] != 0 ==> Filled())
    }

    ghost predicate Filled()
      requires table.Length == 256
      reads this, table
    {
      forall i | 0 <= i < 256 :: table[i] == TableEntry(i)
    }

    constructor ()
      ensures Valid() && fresh(table)
    {
      table := new uint32[256](_ => 0);
    }

    method EnsureCrc32TableInited()
      requires Valid()
      modifies table
      ensures Valid() && Filled()
    {
      hide TableEntry, Xor, Shr, Pow2, Steps;
      if table[table.Length - 1] != 0 {
        return;
      }
      for i := 0 to 256
        invariant forall k | 0 <= k < i :: table[k] == TableEntry(k)
      {
        var c: uint32 := i;
        PowValues();
        EntryStart(i);
        for j := 0 to 8
          invariant c == Steps(i, j)
          invariant forall k | 0 <= k < i :: table[k] == TableEntry(k)
        {
          StepRange(c);
          StepsNext(i, j);
          if c % 2 == 1 {
            c := Xor(POLYNOMIAL, Shr(c, 1));
          } else {
            c := Shr(c, 1);
          }
        }
        table[i] := c;
      }
    }

    /** Continues the CRC `start` over the bytes of `buf`. */
    method UpdateCrc32(start: uint32, buf: seq<byte>) returns (crc: uint32)
      requires Valid()
      modifies table
      ensures Valid() && Filled()
      ensures crc == Crc(start, buf)
    {
      hide Xor, And, Shr, Register, BitsOf, Pow2, Steps;
      EnsureCrc32TableInited();
      PowValues();
      ComplementRange(start);
      var c: uint32 := Xor(start, ONES);
      ghost var c0 := c;
      NoBytes(c0, buf);
      for i := 0 to |buf|
        invariant Filled()
        invariant c == Register(c0, MessageBits(buf[..i]))
      {
        TableStep(c, buf[i]);
        NextByte(c0, buf, i);
        RegisterRange(c, BitsOf(buf[i], 8));
        c := Xor(table[And(Xor(c, buf[i]), 0xFF)], Shr(c, 8));
      }
      assert buf[..|buf|] == buf;
      ComplementRange(c);
      crc := Xor(c, ONES);
    }
  }

  // ----- Laws of the checksum -----

  /** A CRC can be taken in pieces. */
  lemma CrcOfPieces(start: uint32, a: seq<byte>, b: seq<byte>)
    ensures Crc(Crc(start, a), b) == Crc(start, a + b)
  {
    hide Xor, Register, MessageBits;
    var r := Register(Xor(start, ONES), MessageBits(a));
    XorComm(ONES, Xor(r, ONES));
    XorComm(ONES, r);
    XorCancel(ONES, r);
    MessageBitsConcat(a, b);
    RegisterConcat(Xor(start, ONES), MessageBits(a), MessageBits(b));
  }

  lemma {:induction false} ValueOf(bits: seq<bool>) returns (x: nat)
    ensures x < Pow2(|bits|) && BitsOf(x, |bits|) == bits
  {
    if bits == [] {
      x := 0;
    } else {
      var y := ValueOf(bits[1..]);
      x := B2N(bits[0]) + 2 * y;
    }
  }

  lemma {:induction false} RegisterInjective(c: nat, d: nat, bits: seq<bool>)
    requires c < Pow2(32) && d < Pow2(32) && Register(c, bits) == Register(d, bits)
    ensures c == d
    decreases |bits|
  {
    hide Register, Xor, Steps, BitsOf, Pow2;
    if |bits| > 32 {
      assert bits == bits[..32] + bits[32..];
      RegisterConcat(c, bits[..32], bits[32..]);
      RegisterConcat(d, bits[..32], bits[32..]);
      RegisterRange(c, bits[..32]);
      RegisterRange(d, bits[..32]);
      RegisterInjective(Register(c, bits[..32]), Register(d, bits[..32]), bits[32..]);
      RegisterInjective(c, d, bits[..32]);
    } else {
      var x := ValueOf(bits);
      BurstDiffers(c, d, x, x, |bits|);
      XorComm(c, x);
      XorComm(d, x);
      XorCancel(x, c);
      XorCancel(x, d);
    }
  }

  /** Equal registers after at most 32 bits: the registers and bits agreed under exclusive or. */
  lemma BurstDiffers(c: nat, d: nat, x: nat, y: nat, n: nat)
    requires c < Pow2(32) && d < Pow2(32) && n <= 32 && x < Pow2(n) && y < Pow2(n)
    requires Register(c, BitsOf(x, n)) == Register(d, BitsOf(y, n))
    ensures Xor(c, x) == Xor(d, y)
  {
    hide Register, Xor, Steps, BitsOf, Pow2;
    PowMono(n, 32);
    BitsAtOnce(c, x, n);
    BitsAtOnce(d, y, n);
    XorBound(c, x, 32);
    XorBound(d, y, 32);
    StepsInjective(Xor(c, x), Xor(d, y), n);
  }

  /** Two messages that differ in a burst of at most 32 bits, and nowhere else, have different CRCs. */
  lemma BurstDetected(start: uint32, a: seq<byte>, b: seq<byte>,
                      before: seq<bool>, burst: seq<bool>, other: seq<bool>, after: seq<bool>)
    requires MessageBits(a) == before + burst + after
    requires MessageBits(b) == before + other + after
    requires |burst| == |other| <= 32 && burst != other
    ensures Crc(start, a) != Crc(start, b)
  {
    hide Register, Xor, Pow2, MessageBits, BitsOf;
    var s := Xor(start, ONES);
    PowValues();
    ComplementRange(start);
    if Crc(start, a) == Crc(start, b) {
      XorComm(Register(s, MessageBits(a)), ONES);
      XorComm(Register(s, MessageBits(b)), ONES);
      XorCancel(ONES, Register(s, MessageBits(a)));
      XorCancel(ONES, Register(s, MessageBits(b)));
      BurstCancels(s, before, burst, other, after);
    }
  }

  lemma BurstCancels(s: nat, before: seq<bool>, burst: seq<bool>, other: seq<bool>, after: seq<bool>)
    requires s < Pow2(32) && |burst| == |other| <= 32
    requires Register(s, before + burst + after) == Register(s, before + other + after)
    ensures burst == other
  {
    hide Register, Xor, Pow2, BitsOf;
    RegisterConcat(s, before + burst, after);
    RegisterConcat(s, before + other, after);
    RegisterConcat(s, before, burst);
    RegisterConcat(s, before, other);
    RegisterRange(s, before);
    var c := Register(s, before);
    RegisterRange(c, burst);
    RegisterRange(c, other);
    RegisterInjective(Register(c, burst), Register(c, other), after);
    var x := ValueOf(burst);
    var y := ValueOf(other);
    BurstDiffers(c, c, x, y, |burst|);
    XorCancel(c, x);
    XorCancel(c, y);
  }

  /** In particular, two buffers that differ in exactly one byte have different CRCs. */
  lemma OneByteDetected(start: uint32, a: seq<byte>, k: nat, u: byte)
    requires k < |a| && u != a[k]
    ensures Crc(start, a) != Crc(start, a[k := u])
  {
    hide Register, Crc, Pow2;
    var b := a[k := u];
    AroundByte(a, k);
    AroundByte(b, k);
    assert a[..k] == b[..k] && a[k + 1..] == b[k + 1..];
    if BitsOf(a[k], 8) == BitsOf(u, 8) {
      forall i: nat | i < 8 ensures Bit(a[k], i) == Bit(u, i) {
        assert BitsOf(a[k], 8)[i] == BitsOf(u, 8)[i];
      }
      PowValues();
      SameBits(a[k], u, 8);
    }
    BurstDetected(start, a, b, MessageBits(a[..k]), BitsOf(a[k], 8), BitsOf(u, 8), MessageBits(a[k + 1..]));
  }

  lemma SplitAt(a: seq<byte>, k: nat)
    requires k < |a|
    ensures a == (a[..k] + [a[k]]) + a[k + 1..]
  {
  }

  lemma AroundByte(a: seq<byte>, k: nat)
    requires k < |a|
    ensures MessageBits(a) == MessageBits(a[..k]) + BitsOf(a[k], 8) + MessageBits(a[k + 1..])
  {
    hide BitsOf, Bit, MessageBits;
    SplitAt(a, k);
    MessageBitsConcat(a[..k] + [a[k]], a[k + 1..]);
    MessageBitsConcat(a[..k], [a[k]]);
    OneByte(a[k]);
  }

  // ----- The CRC is a remainder of polynomial division -----

  /** Coefficients of the generator, from the highest power down. */
  function Generator(): (g: seq<bool>)
    ensures |g| == 33
  {
    [true] + BitsOf(POLYNOMIAL, 32)
  }

  /** The powers with a coefficient in the generator: section 8 of RFC 1952. */
  const POWERS: set<nat> := {32, 26, 23, 22, 16, 12, 11, 10, 8, 7, 5, 4, 2, 1, 0}

  /** The bits of a byte are those of its place in a word. */
  lemma ByteOf(x: nat, i: nat)
    ensures Bit(x, i + 8) == Bit(x / 256, i)
  {
    assert Bit(x, i + 8) == Bit(x / 2, i + 7) == Bit(x / 4, i + 6) == Bit(x / 8, i + 5) == Bit(x / 16, i + 4);
    assert Bit(x / 16, i + 4) == Bit(x / 32, i + 3) == Bit(x / 64, i + 2) == Bit(x / 128, i + 1) == Bit(x / 256, i);
  }

  lemma LowByte(i: nat)
    requires 0 <= i < 8
    ensures Bit(0xEDB88320, i) <==> 31 - i in POWERS
  {
    assert !Bit(0xEDB88320, 0);
    assert !Bit(0xEDB88320, 1);
    assert !Bit(0xEDB88320, 2);
    assert !Bit(0xEDB88320, 3);
    assert !Bit(0xEDB88320, 4);
    assert Bit(0xEDB88320, 5);
    assert !Bit(0xEDB88320, 6);
    assert !Bit(0xEDB88320, 7);
    hide Bit;
  }

  lemma SecondByte(i: nat)
    requires 8 <= i < 16
    ensures Bit(0xEDB88320, i) <==> 31 - i in POWERS
  {
    ByteOf(0xEDB88320, i - 8);
    assert Bit(0xEDB883, 0);
    assert Bit(0xEDB883, 1);
    assert !Bit(0xEDB883, 2);
    assert !Bit(0xEDB883, 3);
    assert !Bit(0xEDB883, 4);
    assert !Bit(0xEDB883, 5);
    assert !Bit(0xEDB883, 6);
    assert Bit(0xEDB883, 7);
    hide Bit;
  }

  lemma ThirdByte(i: nat)
    requires 16 <= i < 24
    ensures Bit(0xEDB88320, i) <==> 31 - i in POWERS
  {
    ByteOf(0xEDB88320, i - 8);
    ByteOf(0xEDB883, i - 16);
    assert !Bit(0xEDB8, 0);
    assert !Bit(0xEDB8, 1);
    assert !Bit(0xEDB8, 2);
    assert Bit(0xEDB8, 3);
    assert Bit(0xEDB8, 4);
    assert Bit(0xEDB8, 5);
    assert !Bit(0xEDB8, 6);
    assert Bit(0xEDB8, 7);
    hide Bit;
  }

  lemma HighByte(i: nat)
    requires 24 <= i < 32
    ensures Bit(0xEDB88320, i) <==> 31 - i in POWERS
  {
    ByteOf(0xEDB88320, i - 8);
    ByteOf(0xEDB883, i - 16);
    ByteOf(0xEDB8, i - 24);
    assert Bit(0xED, 0);
    assert !Bit(0xED, 1);
    assert Bit(0xED, 2);
    assert Bit(0xED, 3);
    assert !Bit(0xED, 4);
    assert Bit(0xED, 5);
    assert Bit(0xED, 6);
    assert Bit(0xED, 7);
    hide Bit;
  }

  lemma GeneratorIs(power: nat)
    requires power <= 32
    ensures Generator()[32 - power] <==> power in POWERS
  {
    if power < 32 {
      var i := 31 - power;
      assert Generator()[32 - power] == Bit(0xEDB88320, i);
      hide Bit, BitsOf, Generator, POWERS;
      if i < 8 { LowByte(i); } else if i < 16 { SecondByte(i); } else if i < 24 { ThirdByte(i); } else { HighByte(i); }
    }
  }

  function Zeros(n: nat): (z: seq<bool>)
    ensures |z| == n
  {
    seq(n, _ => false)
  }

  /** Adds `g` to the leading coefficients of `d`. */
  function AddFront(d: seq<bool>, g: seq<bool>): (r: seq<bool>)
    requires |g| <= |d|
    ensures |r| == |d|
  {
    seq(|d|, i requires 0 <= i < |d| => d[i] != (i < |g| && g[i]))
  }

  /** Long division of a polynomial over the two-element field: what is left below degree 32. */
  function Remainder(d: seq<bool>): seq<bool>
    requires |d| >= 32
    decreases |d|
  {
    if |d| == 32 then d
    else if d[0] then Remainder(AddFront(d, Generator())[1..])
    else Remainder(d[1..])
  }

  /** Feeding bits to the register is dividing; the register sits in front of the undivided rest. */
  lemma {:induction false} RegisterDivides(c: nat, bits: seq<bool>)
    requires c < Pow2(32)
    ensures Remainder(AddFront(bits + Zeros(32), BitsOf(c, 32))) == BitsOf(Register(c, bits), 32)
    decreases |bits|
  {
    hide Pow2, Xor, Generator;
    var d := AddFront(bits + Zeros(32), BitsOf(c, 32));
    if bits == [] {
      assert d == BitsOf(c, 32);
    } else {
      var c' := BitStep(c, bits[0]);
      RegisterRange(c, bits[..1]);
      assert bits[..1][1..] == [];
      assert Register(c, bits[..1]) == c';
      DivisionStep(c, bits);
      RegisterDivides(c', bits[1..]);
    }
  }

  lemma DivisionStep(c: nat, bits: seq<bool>)
    requires c < Pow2(32) && bits != []
    ensures var d := AddFront(bits + Zeros(32), BitsOf(c, 32));
            var next := AddFront(bits[1..] + Zeros(32), BitsOf(BitStep(c, bits[0]), 32));
            && d[0] == (bits[0] != (c % 2 == 1))
            && (if d[0] then AddFront(d, Generator())[1..] else d[1..]) == next
  {
    hide Pow2, Xor, Shr, BitStep, Bit, BitsOf;
    var d := AddFront(bits + Zeros(32), BitsOf(c, 32));
    var next := AddFront(bits[1..] + Zeros(32), BitsOf(BitStep(c, bits[0]), 32));
    var g := Generator();
    LowestIs(c);
    assert d[0] == (bits[0] != (c % 2 == 1));
    forall j | 0 <= j < |next| ensures next[j] == (d[j + 1] != (d[0] && j + 1 < 33 && g[j + 1])) {
      NextBit(c, bits[0], j);
      assert d[j + 1] == ((bits + Zeros(32))[j + 1] != (j + 1 < 32 && Bit(c, j + 1)));
      assert (bits + Zeros(32))[j + 1] == (bits[1..] + Zeros(32))[j];
    }
    if d[0] {
      assert AddFront(d, g)[1..] == next;
    } else {
      assert d[1..] == next;
    }
  }

  lemma LowestIs(c: nat)
    ensures Bit(c, 0) == (c % 2 == 1)
  {
  }

  lemma NextBit(c: nat, bit: bool, j: nat)
    requires c < Pow2(32)
    ensures Bit(BitStep(c, bit), j) == (Bit(c, j + 1) != ((bit != (c % 2 == 1)) && Bit(POLYNOMIAL, j)))
    ensures j >= 31 ==> !Bit(c, j + 1)
  {
    hide Pow2, Xor, Shr, Bit;
    Half(c);
    BitXor(POLYNOMIAL, Shr(c, 1), j);
    BitShr(c, 1, j);
    if j >= 31 { BitBelow(c, 32, j + 1); }
  }

  /**
   The checksum, complemented, is the remainder of message * x^32 divided by the generator,
   with the complemented start value added to the leading 32 coefficients.
   */
  lemma CrcIsRemainder(start: uint32, data: seq<byte>)
    ensures BitsOf(Xor(Crc(start, data), ONES), 32)
            == Remainder(AddFront(MessageBits(data) + Zeros(32), BitsOf(Xor(start, ONES), 32)))
  {
    hide Pow2, Xor, Register, MessageBits, Remainder, BitsOf;
    PowValues();
    ComplementRange(start);
    var r := Register(Xor(start, ONES), MessageBits(data));
    RegisterDivides(Xor(start, ONES), MessageBits(data));
    XorComm(r, ONES);
    XorComm(Xor(r, ONES), ONES);
    XorCancel(ONES, r);
  }

  /** The mask before and after complements each bit. */
  lemma Complements(x: uint32, i: nat)
    requires i < 32
    ensures BitsOf(Xor(x, ONES), 32)[i] == !BitsOf(x, 32)[i]
  {
    PowValues();
    BitMask(32, i);
    BitXor(x, ONES, i);
  }

  /**
   Section 8 of RFC 1952: a checksum from 0 is the complement of the remainder of the message whose
   first 32 bits are complemented.
   */
  lemma ChecksumFromZero(data: seq<byte>)
    ensures seq(32, i requires 0 <= i < 32 => !BitsOf(Crc(0, data), 32)[i])
            == Remainder(AddFront(MessageBits(data) + Zeros(32), seq(32, _ => true)))
  {
    CrcIsRemainder(0, data);
    forall i: nat | i < 32
      ensures BitsOf(Xor(Crc(0, data), ONES), 32)[i] == !BitsOf(Crc(0, data), 32)[i]
      ensures BitsOf(Xor(0, ONES), 32)[i]
    {
      Complements(Crc(0, data), i);
      Complements(0, i);
      BitZero(i);
    }
    hide BitsOf, Xor, Crc, Remainder, MessageBits;
    assert BitsOf(Xor(0, ONES), 32) == seq(32, _ => true);
  }
}

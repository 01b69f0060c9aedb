/**
 bitbuffer.cc: bit fields at unaligned positions and Exp-Golomb codes (sections 9.1 and
 9.1.1 of ITU-T H.264), read and written through one cursor.  The bytes are a plain
 array that WriteBits changes in place; the specification looks at it bit by bit.
 */
module BitBuffer {
  import opened Common
  import opened Words

  // ----- The specification: a byte string as a string of bits, first bit first -----

  /** Bit `k` of a byte, counted from the most significant one. */
  predicate Top(b: byte, k: nat)
    requires k < 8
  {
    Bit(b, 7 - k)
  }

  predicate At(bytes: seq<byte>, p: nat)
    requires p < 8 * |bytes|
  {
    Top(bytes[p / 8], p % 8)
  }

  /** The big-endian value of the `n` bits that start at bit `p`. */
  function Field(bytes: seq<byte>, p: nat, n: nat): nat
    requires p + n <= 8 * |bytes|
  {
    if n == 0 then 0 else 2 * Field(bytes, p, n - 1) + B2N(At(bytes, p + n - 1))
  }

  lemma {:induction false} FieldBit(bytes: seq<byte>, p: nat, n: nat, i: nat)
    requires p + n <= 8 * |bytes|
    ensures Bit(Field(bytes, p, n), i) == (i < n && At(bytes, p + n - 1 - i))
    decreases n
  {
    if n == 0 {
      BitZero(i);
    } else if i > 0 {
      FieldBit(bytes, p, n - 1, i - 1);
    }
  }

  lemma {:induction false} FieldBound(bytes: seq<byte>, p: nat, n: nat)
    requires p + n <= 8 * |bytes|
    ensures Field(bytes, p, n) < Pow2(n)
  {
    if n > 0 { FieldBound(bytes, p, n - 1); }
  }

  /** A number with the right bits is the field. */
  lemma FieldIs(bytes: seq<byte>, p: nat, n: nat, x: nat)
    requires p + n <= 8 * |bytes|
    requires forall i: nat :: Bit(x, i) == (i < n && At(bytes, p + n - 1 - i))
    ensures x == Field(bytes, p, n)
  {
    BelowPow2(x, n);
    FieldBound(bytes, p, n);
    forall i: nat | i < n ensures Bit(x, i) == Bit(Field(bytes, p, n), i) {
      FieldBit(bytes, p, n, i);
    }
    SameBits(x, Field(bytes, p, n), n);
  }

  // ----- Byte helpers, each with what it does to one bit -----

  function LowestBits(b: byte, count: nat): byte
    requires count <= 8
  {
    LowestRange(b, count);
    And(b, Shl(1, count) - 1)
  }

  lemma LowestBit(b: byte, count: nat, i: nat)
    ensures Shl(1, count) >= 1 && Bit(And(b, Shl(1, count) - 1), i) == (i < count && Bit(b, i))
  {
    hide *;
    PowPos(count);
    ShlOne(count);
    BitAnd(b, Pow2(count) - 1, i);
    BitMask(count, i);
  }

  lemma LowestRange(b: byte, count: nat)
    ensures Shl(1, count) >= 1 && And(b, Shl(1, count) - 1) < 256
  {
    hide Bit, And, Or, Low, Shl, Shr;
    LowestBit(b, count, 0);
    var r := And(b, Shl(1, count) - 1);
    forall i: nat | i >= 8 ensures !Bit(r, i) {
      LowestBit(b, count, i);
      ByteBelow(b, i);
    }
    ByteBits(r);
  }

  function HighestBits(b: byte, count: nat): byte
    requires count <= 8
  {
    HighestRange(b, 8 - count);
    Shr(And(b, Low(Shl(0xFF, 8 - count), 8)), 8 - count)
  }

  lemma HighestBit(b: byte, shift: nat, i: nat)
    ensures Bit(Shr(And(b, Low(Shl(0xFF, shift), 8)), shift), i) == Bit(b, i + shift)
  {
    hide *;
    var mask := Low(Shl(0xFF, shift), 8);
    BitShr(And(b, mask), shift, i);
    BitAnd(b, mask, i + shift);
    BitLow(Shl(0xFF, shift), 8, i + shift);
    BitShl(0xFF, shift, i + shift);
    AllOnes(i);
    if i + shift >= 8 { ByteBelow(b, i + shift); }
  }

  lemma HighestRange(b: byte, shift: nat)
    ensures Shr(And(b, Low(Shl(0xFF, shift), 8)), shift) < 256
  {
    hide Bit, And, Or, Low, Shl, Shr;
    var r := Shr(And(b, Low(Shl(0xFF, shift), 8)), shift);
    forall i: nat | i >= 8 ensures !Bit(r, i) {
      HighestBit(b, shift, i);
      ByteBelow(b, i + shift);
    }
    ByteBits(r);
  }

  function HighestByte(val: uint64): byte {
    HighestByteRange(val);
    Shr(val, 56)
  }

  lemma HighestByteRange(val: uint64)
    ensures Shr(val, 56) < 256
  {
    hide Bit, And, Or, Low, Shl, Shr;
    PowValues();
    forall i: nat | i >= 8 ensures !Bit(Shr(val, 56), i) {
      BitShr(val, 56, i);
      BitBelow(val, 64, i + 56);
    }
    ByteBits(Shr(val, 56));
  }

  lemma HighestByteTop(val: uint64, k: nat)
    requires k < 8
    ensures Top(HighestByte(val), k) == Bit(val, 63 - k)
  {
    hide Bit, And, Or, Low, Shl, Shr, Field;
    BitShr(val, 56, 7 - k);
  }

  /**
   Overwrites `count` bits of `target`, `offset` bits from the top, with the top bits of
   `source`; source bits past `count` are or'ed in, as the code does.
   */
  function WritePartialByte(source: byte, count: nat, target: byte, offset: nat): byte
    requires offset < 8 && count <= 8 - offset
  {
    PartialRange(source, count, target, offset);
    Or(And(target, Not8(PartialMask(count, offset))), Shr(source, offset))
  }

  function PartialMask(count: nat, offset: nat): byte
    requires offset < 8 && count <= 8 - offset
  {
    PartialMaskRange(count, offset);
    Shr(Low(Shl(0xFF, 8 - count), 8), offset)
  }

  lemma PartialMaskBit(count: nat, offset: nat, i: nat)
    requires offset < 8 && count <= 8 - offset
    ensures Bit(Shr(Low(Shl(0xFF, 8 - count), 8), offset), i) == (8 - count <= i + offset < 8)
  {
    hide *;
    var full := Low(Shl(0xFF, 8 - count), 8);
    BitShr(full, offset, i);
    BitLow(Shl(0xFF, 8 - count), 8, i + offset);
    BitShl(0xFF, 8 - count, i + offset);
    if i + offset >= 8 - count { AllOnes(i + offset - (8 - count)); }
  }

  lemma PartialMaskRange(count: nat, offset: nat)
    requires offset < 8 && count <= 8 - offset
    ensures Shr(Low(Shl(0xFF, 8 - count), 8), offset) < 256
  {
    hide Bit, And, Or, Low, Shl, Shr;
    var mask := Shr(Low(Shl(0xFF, 8 - count), 8), offset);
    forall i: nat | i >= 8 ensures !Bit(mask, i) { PartialMaskBit(count, offset, i); }
    ByteBits(mask);
  }

  lemma PartialBit(source: byte, count: nat, target: byte, offset: nat, i: nat)
    requires offset < 8 && count <= 8 - offset
    ensures Bit(Or(And(target, Not8(PartialMask(count, offset))), Shr(source, offset)), i)
            == ((Bit(target, i) && !(8 - count <= i + offset < 8)) || Bit(source, i + offset))
  {
    hide Bit, And, Or, Low, Shl, Shr;
    var mask := PartialMask(count, offset);
    BitOr(And(target, Not8(mask)), Shr(source, offset), i);
    BitAnd(target, Not8(mask), i);
    BitShr(source, offset, i);
    PartialMaskBit(count, offset, i);
    if i < 8 { BitNot8(mask, i); } else { ByteBelow(target, i); }
  }

  lemma PartialRange(source: byte, count: nat, target: byte, offset: nat)
    requires offset < 8 && count <= 8 - offset
    ensures Or(And(target, Not8(PartialMask(count, offset))), Shr(source, offset)) < 256
  {
    hide Bit, And, Or, Low, Shl, Shr;
    var r := Or(And(target, Not8(PartialMask(count, offset))), Shr(source, offset));
    forall i: nat | i >= 8 ensures !Bit(r, i) {
      PartialBit(source, count, target, offset, i);
      ByteBelow(target, i);
      ByteBelow(source, i + offset);
    }
    ByteBits(r);
  }

  /** What WritePartialByte leaves in bit `k` from the top. */
  lemma PartialTop(source: byte, count: nat, target: byte, offset: nat, k: nat)
    requires offset < 8 && count <= 8 - offset && k < 8
    ensures Top(WritePartialByte(source, count, target, offset), k) ==
            if k < offset then Top(target, k)
            else if k < offset + count then Top(source, k - offset)
            else Top(target, k) || Top(source, k - offset)
  {
    hide Bit, And, Or, Low, Shl, Shr, Field;
    PartialBit(source, count, target, offset, 7 - k);
    if k < offset { ByteBelow(source, 7 - k + offset); }
  }

  // ----- CountBits -----

  method CountBits(val: uint64) returns (count: nat)
    ensures val == 0 <==> count == 0
    ensures val < Pow2(count)
    ensures val > 0 ==> Pow2(count - 1) <= val
    ensures count <= 64
  {
    count := 0;
    var v: nat := val;
    while v != 0
      invariant v == Shr(val, count)
      invariant v == 0 && count > 0 ==> Shr(val, count - 1) == 1
      decreases v
    {
      ShrStep(val, count);
      count := count + 1;
      v := v / 2;
    }
    ShrBounds(val, count);
    if count > 0 {
      ShrBounds(val, count - 1);
      PowValues();
      if count > 64 { PowMono(64, count - 1); }
    }
  }

  /** A number made of `count` bits of one byte is the field of those bits. */
  lemma PieceIs(bytes: seq<byte>, q: nat, offset: nat, count: nat, x: nat)
    requires q < |bytes| && offset + count <= 8
    requires forall i: nat :: Bit(x, i) == (i < count && Bit(bytes[q], i + (8 - offset - count)))
    ensures x == Field(bytes, 8 * q + offset, count)
  {
    forall i: nat
      ensures Bit(x, i) == (i < count && At(bytes, 8 * q + offset + count - 1 - i))
    {
      if i < count {
        var k := offset + count - 1 - i;
        assert (8 * q + k) / 8 == q && (8 * q + k) % 8 == k;
        assert 7 - k == i + (8 - offset - count);
      }
    }
    FieldIs(bytes, 8 * q + offset, count, x);
  }

  lemma LowestBitsIs(bytes: seq<byte>, q: nat, offset: nat)
    requires q < |bytes| && offset < 8
    ensures LowestBits(bytes[q], 8 - offset) == Field(bytes, 8 * q + offset, 8 - offset)
  {
    hide Bit, And, Or, Low, Shl, Shr, Field;
    var x := LowestBits(bytes[q], 8 - offset);
    forall i: nat ensures Bit(x, i) == (i < 8 - offset && Bit(bytes[q], i + 0)) {
      LowestBit(bytes[q], 8 - offset, i);
    }
    PieceIs(bytes, q, offset, 8 - offset, x);
  }

  lemma HighestBitsIs(bytes: seq<byte>, q: nat, count: nat)
    requires q < |bytes| && count <= 8
    ensures HighestBits(bytes[q], count) == Field(bytes, 8 * q, count)
  {
    hide Bit, And, Or, Low, Shl, Shr, Field;
    var x := HighestBits(bytes[q], count);
    forall i: nat ensures Bit(x, i) == (i < count && Bit(bytes[q], i + (8 - count))) {
      HighestBit(bytes[q], 8 - count, i);
      if i >= count { ByteBelow(bytes[q], i + (8 - count)); }
    }
    PieceIs(bytes, q, 0, count, x);
  }

  lemma MiddleBitsIs(bytes: seq<byte>, q: nat, offset: nat, count: nat)
    requires q < |bytes| && offset + count <= 8
    ensures HighestBits(LowestBits(bytes[q], 8 - offset), offset + count) == Field(bytes, 8 * q + offset, count)
  {
    hide Bit, And, Or, Low, Shl, Shr, Field;
    var low := LowestBits(bytes[q], 8 - offset);
    var x := HighestBits(low, offset + count);
    forall i: nat ensures Bit(x, i) == (i < count && Bit(bytes[q], i + (8 - offset - count))) {
      HighestBit(low, 8 - (offset + count), i);
      LowestBit(bytes[q], 8 - offset, i + (8 - offset - count));
    }
    PieceIs(bytes, q, offset, count, x);
  }

  /** Shifting a field up and or-ing the next piece in extends the field. */
  lemma ShiftIn(bytes: seq<byte>, p: nat, n: nat, k: nat, piece: nat)
    requires p + n + k <= 8 * |bytes| && n + k <= 32
    requires piece == Field(bytes, p + n, k)
    ensures Or(Low(Shl(Field(bytes, p, n), k), 32), piece) == Field(bytes, p, n + k)
  {
    hide *;
    var r := Or(Low(Shl(Field(bytes, p, n), k), 32), piece);
    forall i: nat
      ensures Bit(r, i) == (i < n + k && At(bytes, p + (n + k) - 1 - i))
    {
      BitOr(Low(Shl(Field(bytes, p, n), k), 32), piece, i);
      BitLow(Shl(Field(bytes, p, n), k), 32, i);
      BitShl(Field(bytes, p, n), k, i);
      if i >= k { FieldBit(bytes, p, n, i - k); }
      FieldBit(bytes, p + n, k, i);
    }
    FieldIs(bytes, p, n + k, r);
  }

  /** `(bits << count) | piece` in 32 bits. */
  function ShiftOr(bits: uint32, count: nat, piece: byte): uint32 {
    ShiftOrRange(bits, count, piece);
    Or(Low(Shl(bits, count), 32), piece)
  }

  lemma ShiftOrRange(bits: uint32, count: nat, piece: byte)
    ensures Or(Low(Shl(bits, count), 32), piece) < 0x1_0000_0000
  {
    hide Bit, And, Or, Low, Shl, Shr;
    var r := Or(Low(Shl(bits, count), 32), piece);
    forall i: nat | i >= 32 ensures !Bit(r, i) {
      BitOr(Low(Shl(bits, count), 32), piece, i);
      BitLow(Shl(bits, count), 32, i);
      ByteBelow(piece, i);
    }
    BelowPow2(r, 32);
    PowValues();
  }

  lemma NextPiece(bytes: seq<byte>, p: nat, n: nat, q: nat, k: nat)
    requires k <= 8 && p + n == 8 * q && 8 * q + k <= 8 * |bytes| && 0 < k && n + k <= 32
    ensures q < |bytes| && Field(bytes, p, n) < 0x1_0000_0000
    ensures ShiftOr(Field(bytes, p, n), k, HighestBits(bytes[q], k)) == Field(bytes, p, n + k)
  {
    HighestBitsIs(bytes, q, k);
    FieldFits32(bytes, p, n);
    ShiftIn(bytes, p, n, k, HighestBits(bytes[q], k));
  }

  lemma FieldFits32(bytes: seq<byte>, p: nat, n: nat)
    requires p + n <= 8 * |bytes| && n <= 32
    ensures Field(bytes, p, n) < 0x1_0000_0000
  {
    FieldBound(bytes, p, n);
    PowMono(n, 32);
    PowValues();
  }

  /** `bits` holds the `got` bits from bit `p` up to the start of byte `q`. */
  ghost predicate PeekedTo(s: seq<byte>, p: nat, got: nat, q: nat, bits: uint32) {
    p + got == 8 * q && q <= |s| && got <= 32 && bits == Field(s, p, got)
  }

  lemma PeekFirst(s: seq<byte>, q: nat, offset: nat)
    requires q < |s| && offset < 8
    ensures PeekedTo(s, 8 * q + offset, 8 - offset, q + 1, LowestBits(s[q], 8 - offset))
  {
    LowestBitsIs(s, q, offset);
  }

  lemma PeekByte(s: seq<byte>, p: nat, got: nat, q: nat, bits: uint32)
    requires PeekedTo(s, p, got, q, bits) && got + 8 <= 32 && q < |s|
    ensures PeekedTo(s, p, got + 8, q + 1, ShiftOr(bits, 8, s[q]))
  {
    NextPiece(s, p, got, q, 8);
    WholeByte(s[q]);
  }

  lemma PeekLast(s: seq<byte>, p: nat, got: nat, q: nat, bits: uint32, left: nat)
    requires PeekedTo(s, p, got, q, bits) && got + left <= 32 && left < 8 && p + got + left <= 8 * |s|
    ensures Field(s, p, got + left) == if left > 0 then ShiftOr(bits, left, HighestBits(s[q], left)) else bits
  {
    if left > 0 { NextPiece(s, p, got, q, left); }
  }

  // ----- Writing: which bits a write changes -----

  /** `now` is `before` with the `n` bits from bit `p` on replaced by the lowest `n` bits of `v`. */
  ghost predicate Written(before: seq<byte>, now: seq<byte>, p: nat, n: nat, v: nat) {
    && |now| == |before| && p + n <= 8 * |now|
    && forall j: nat | j < 8 * |now| ::
         At(now, j) == if p <= j < p + n then Bit(v, p + n - 1 - j) else At(before, j)
  }

  /** A write is read back as the value modulo 2^n. */
  lemma WrittenField(before: seq<byte>, now: seq<byte>, p: nat, n: nat, v: nat)
    requires Written(before, now, p, n, v)
    ensures Field(now, p, n) == Low(v, n)
    ensures v < Pow2(n) ==> Field(now, p, n) == v
  {
    forall i: nat ensures Bit(Low(v, n), i) == (i < n && At(now, p + n - 1 - i)) {
      BitLow(v, n, i);
    }
    FieldIs(now, p, n, Low(v, n));
    if v < Pow2(n) { LowFits(v, n); }
  }

  /** A write does not disturb a field beside it. */
  lemma {:induction false} WrittenFrame(before: seq<byte>, now: seq<byte>, p: nat, n: nat, v: nat, q: nat, m: nat)
    requires Written(before, now, p, n, v)
    requires q + m <= p || p + n <= q
    requires q + m <= 8 * |now|
    ensures Field(now, q, m) == Field(before, q, m)
    decreases m
  {
    if m > 0 { WrittenFrame(before, now, p, n, v, q, m - 1); }
  }

  // ----- Exp-Golomb on the bit string -----

  /** How many 0 bits there are from `p` on, up to the next 1 bit or the end. */
  function LeadingZeros(bytes: seq<byte>, p: nat): (z: nat)
    requires p <= 8 * |bytes|
    ensures p + z <= 8 * |bytes|
    ensures forall j: nat | p <= j < p + z :: !At(bytes, j)
    ensures p + z < 8 * |bytes| ==> At(bytes, p + z)
    decreases 8 * |bytes| - p
  {
    if p < 8 * |bytes| && !At(bytes, p) then 1 + LeadingZeros(bytes, p + 1) else 0
  }

  /** A field that starts with a 1 bit has its full length. */
  lemma {:induction false} FieldLead(bytes: seq<byte>, p: nat, n: nat)
    requires 0 < n && p + n <= 8 * |bytes| && At(bytes, p)
    ensures Field(bytes, p, n) >= Pow2(n - 1) >= 1
  {
    if n > 1 { FieldLead(bytes, p, n - 1); }
  }

  /** The unsigned code at `p`: its value and the position after it. */
  function GolombAt(bytes: seq<byte>, p: nat): Option<(nat, nat)>
    requires p <= 8 * |bytes|
  {
    var z := LeadingZeros(bytes, p);
    if z + 1 > 32 || p + z + (z + 1) > 8 * |bytes| then None
    else
      FieldLead(bytes, p + z, z + 1);
      Some((Field(bytes, p + z, z + 1) - 1, p + z + (z + 1)))
  }

  function ToSigned(u: nat): int {
    if u % 2 == 0 then -(u / 2) else (u + 1) / 2
  }

  /** Clause 9.1 of ITU-T H.264: behind z zeros and a 1 bit come z bits more, counted from 2^z - 1 on. */
  lemma GolombValue(bytes: seq<byte>, p: nat)
    requires p <= 8 * |bytes|
    ensures var z := LeadingZeros(bytes, p);
            if z <= 31 && p + 2 * z + 1 <= 8 * |bytes|
            then GolombAt(bytes, p) == Some((Pow2(z) - 1 + Field(bytes, p + z + 1, z), p + 2 * z + 1))
            else GolombAt(bytes, p) == None
  {
    var z := LeadingZeros(bytes, p);
    if p + 2 * z + 1 <= 8 * |bytes| { FieldFirst(bytes, p + z, z); }
  }

  lemma {:induction false} FieldFirst(bytes: seq<byte>, p: nat, n: nat)
    requires p + n + 1 <= 8 * |bytes| && At(bytes, p)
    ensures Field(bytes, p, n + 1) == Pow2(n) + Field(bytes, p + 1, n)
  {
    if n > 0 {
      FieldFirst(bytes, p, n - 1);
    } else {
      assert Field(bytes, p, 0) == 0;
    }
  }

  /** Clause 9.1.1: odd codes are the positive values and even codes the others, in order of absolute value. */
  lemma SignedValue(u: nat)
    ensures ToSigned(u) > 0 <==> u % 2 == 1
    ensures (if ToSigned(u) > 0 then ToSigned(u) else -ToSigned(u)) == (u + 1) / 2
  {
  }

  // ----- Lemmas about one write -----

  lemma WholeByte(b: byte)
    ensures HighestBits(b, 8) == b
  {
    PowValues();
    var x := HighestBits(b, 8);
    forall i: nat | i < 8 ensures Bit(x, i) == Bit(b, i) {
      HighestBit(b, 0, i);
    }
    SameBits(x, b, 8);
  }

  lemma PeekOne(bytes: seq<byte>, p: nat)
    requires p < 8 * |bytes|
    ensures Field(bytes, p, 1) == B2N(At(bytes, p))
  {
    assert Field(bytes, p, 0) == 0;
  }

  /** The first `z` bits from `p` on are 0. */
  ghost predicate ZerosSoFar(s: seq<byte>, p: nat, z: nat) {
    p + z <= 8 * |s| && LeadingZeros(s, p) == z + LeadingZeros(s, p + z)
  }

  lemma ZerosStart(s: seq<byte>, p: nat)
    requires p <= 8 * |s|
    ensures ZerosSoFar(s, p, 0)
  {
  }

  lemma ZerosMore(s: seq<byte>, p: nat, z: nat)
    requires ZerosSoFar(s, p, z) && p + z < 8 * |s| && Field(s, p + z, 1) == 0
    ensures ZerosSoFar(s, p, z + 1)
  {
    hide Field;
    PeekOne(s, p + z);
  }

  lemma ZerosEnd(s: seq<byte>, p: nat, z: nat)
    requires ZerosSoFar(s, p, z) && (p + z < 8 * |s| ==> Field(s, p + z, 1) != 0)
    ensures LeadingZeros(s, p) == z
    ensures p + z < 8 * |s| ==> At(s, p + z)
  {
    hide Field;
    if p + z < 8 * |s| { PeekOne(s, p + z); }
  }

  /** `val << n` in 64 bits. */
  function ShiftLeft64(val: uint64, n: nat): uint64 {
    PowValues();
    LowBound(Shl(val, n), 64);
    Low(Shl(val, n), 64)
  }

  lemma ShiftLeft64Bit(val: uint64, n: nat, i: nat)
    ensures Bit(ShiftLeft64(val, n), i) == (i < 64 && i >= n && Bit(val, i - n))
  {
    BitLow(Shl(val, n), 64, i);
    BitShl(val, n, i);
  }

  /** The top `left` bits of `v` are the lowest `left` bits of `val`, and the rest is 0. */
  ghost predicate Aligned(v: uint64, val: nat, left: nat) {
    left <= 64 && forall i: nat | i < 64 :: Bit(v, i) == (i >= 64 - left && Bit(val, i - (64 - left)))
  }

  /** The first `done` bits of a write are in place, and nothing else has changed. */
  ghost predicate WrittenPart(before: seq<byte>, now: seq<byte>, p: nat, n: nat, v: nat, done: nat) {
    && |now| == |before| && p + n <= 8 * |now| && done <= n
    && forall j: nat | j < 8 * |now| ::
         At(now, j) == if p <= j < p + done then Bit(v, p + n - 1 - j) else At(before, j)
  }

  lemma TopAligned(val: uint64, n: nat)
    requires 1 <= n <= 64
    ensures Aligned(ShiftLeft64(val, 64 - n), val, n)
  {
    var r := ShiftLeft64(val, 64 - n);
    forall i: nat | i < 64
      ensures Bit(r, i) == (i >= 64 - n && Bit(val, i - (64 - n)))
    {
      ShiftLeft64Bit(val, 64 - n, i);
    }
  }

  lemma FirstShift(v: uint64, val: nat, n: nat, first: nat)
    requires first <= n && Aligned(v, val, n)
    ensures Aligned(ShiftLeft64(v, first), val, n - first)
  {
    var r := ShiftLeft64(v, first);
    forall i: nat | i < 64
      ensures Bit(r, i) == (i >= 64 - (n - first) && Bit(val, i - (64 - (n - first))))
    {
      ShiftLeft64Bit(v, first, i);
    }
  }

  lemma AllWritten(before: seq<byte>, now: seq<byte>, p: nat, n: nat, val: nat)
    requires WrittenPart(before, now, p, n, val, n)
    ensures Written(before, now, p, n, val)
  {
  }

  /** Bits of a byte string after one byte is replaced. */
  lemma AtUpdate(bytes: seq<byte>, q: nat, b: byte, j: nat)
    requires q < |bytes| && j < 8 * |bytes|
    ensures At(bytes[q := b], j) == if j / 8 == q then Top(b, j % 8) else At(bytes, j)
  {
  }

  lemma PartialWritten(before: seq<byte>, q: nat, offset: nat, count: nat, v: uint64, val: nat, n: nat)
    requires q < |before| && offset < 8 && count <= n && count <= 8 - offset
    requires count == n || count == 8 - offset
    requires 8 * q + offset + n <= 8 * |before|
    requires Aligned(v, val, n)
    ensures var now := before[q := WritePartialByte(HighestByte(v), count, before[q], offset)];
            && WrittenPart(before, now, 8 * q + offset, n, val, count)
            && (count == n ==> Written(before, now, 8 * q + offset, n, val))
  {
    hide Bit, And, Or, Low, Shl, Shr, HighestByte, WritePartialByte;
    var p := 8 * q + offset;
    var r := WritePartialByte(HighestByte(v), count, before[q], offset);
    var after := before[q := r];
    forall j: nat | j < 8 * |before|
      ensures At(after, j) == if p <= j < p + count then Bit(val, p + n - 1 - j) else At(before, j)
    {
      AtUpdate(before, q, r, j);
      if j / 8 == q {
        var k := j % 8;
        PartialTop(HighestByte(v), count, before[q], offset, k);
        if k >= offset { HighestByteTop(v, k - offset); }
      }
    }
  }

  lemma ByteWritten(before: seq<byte>, now: seq<byte>, p: nat, n: nat, val: nat, left: nat, q: nat, v: uint64)
    requires 8 <= left <= n && WrittenPart(before, now, p, n, val, n - left)
    requires p + (n - left) == 8 * q && Aligned(v, val, left)
    ensures q < |now|
    ensures WrittenPart(before, now[q := HighestByte(v)], p, n, val, n - left + 8)
    ensures Aligned(ShiftLeft64(v, 8), val, left - 8)
  {
    hide Bit, And, Or, Low, Shl, Shr, HighestByte, WritePartialByte;
    FirstShift(v, val, left, 8);
    var after := now[q := HighestByte(v)];
    forall j: nat | j < 8 * |now|
      ensures At(after, j)
              == if p <= j < p + (n - left + 8) then Bit(val, p + n - 1 - j) else At(before, j)
    {
      AtUpdate(now, q, HighestByte(v), j);
      if j / 8 == q {
        HighestByteTop(v, j % 8);
      }
    }
  }

  lemma LastWritten(before: seq<byte>, now: seq<byte>, p: nat, n: nat, val: nat, left: nat, q: nat, v: uint64)
    requires 0 < left < 8 && left <= n && WrittenPart(before, now, p, n, val, n - left)
    requires p + (n - left) == 8 * q && Aligned(v, val, left)
    ensures q < |now|
    ensures Written(before, now[q := WritePartialByte(HighestByte(v), left, now[q], 0)], p, n, val)
  {
    hide Bit, And, Or, Low, Shl, Shr, HighestByte, WritePartialByte;
    var r := WritePartialByte(HighestByte(v), left, now[q], 0);
    var after := now[q := r];
    forall j: nat | j < 8 * |now|
      ensures At(after, j) == if p <= j < p + n then Bit(val, p + n - 1 - j) else At(before, j)
    {
      AtUpdate(now, q, r, j);
      if j / 8 == q {
        PartialTop(HighestByte(v), left, now[q], 0, j % 8);
        HighestByteTop(v, j % 8);
      }
    }
  }

  // ----- Code lengths -----

  /** The number of bits of `x`. */
  function Length(x: nat): nat {
    if x == 0 then 0 else 1 + Length(x / 2)
  }

  function GolombLength(val: nat): nat {
    2 * Length(val + 1) - 1
  }

  function FromSigned(val: int): nat {
    if val > 0 then 2 * val - 1 else -2 * val
  }

  lemma {:induction false} LengthUnique(x: nat, n: nat)
    requires x > 0 && n > 0 && Pow2(n - 1) <= x < Pow2(n)
    ensures n == Length(x)
    decreases n
  {
    PowPos(n - 1);
    if n > 1 {
      LengthUnique(x / 2, n - 1);
    }
  }

  lemma {:induction false} LengthBounds(x: nat)
    requires x > 0
    ensures Length(x) > 0 && Pow2(Length(x) - 1) <= x < Pow2(Length(x))
  {
    if x > 1 { LengthBounds(x / 2); }
  }

  // ----- The buffer -----

  /** BitBuffer and BitBufferWriter: one cursor over one array. */
  class BitBufferWriter {
    const bytes: array<byte>
    var byteOffset: nat
    var bitOffset: nat

    ghost predicate Valid()
      reads this
    {
      byteOffset <= bytes.Length && bitOffset < 8 && (byteOffset == bytes.Length ==> bitOffset == 0)
    }

    /** The cursor as a bit position. */
    ghost function Pos(): (p: nat)
      requires Valid()
      reads this
      ensures p <= 8 * bytes.Length
    {
      8 * byteOffset + bitOffset
    }

    constructor (bytes: array<byte>)
      requires bytes.Length < 0x1_0000_0000
      ensures this.bytes == bytes && Valid() && Pos() == 0
    {
      this.bytes := bytes;
      byteOffset, bitOffset := 0, 0;
    }

    function RemainingBitCount(): (n: nat)
      requires Valid()
      reads this
      ensures n == 8 * bytes.Length - Pos()
    {
      (bytes.Length - byteOffset) * 8 - bitOffset
    }

    /**
     `held` is what the caller's variable holds, and keeps if the peek fails.  Peeking no bits at
     all still looks at the current byte, so there has to be one.
     */
    method PeekBits(held: uint32, bitCount: nat) returns (ok: bool, val: uint32)
      requires Valid()
      requires bitCount == 0 ==> Pos() < 8 * bytes.Length
      ensures ok == (bitCount <= RemainingBitCount() && bitCount <= 32)
      ensures val == if ok then Field(bytes[..], Pos(), bitCount) else held
    {
      hide Field, At, LowestBits, HighestBits, PeekedTo, RemainingBitCount;
      if bitCount > RemainingBitCount() || bitCount > 32 {
        return false, held;
      }
      ghost var s := bytes[..];
      var q := byteOffset;
      var remainingBitsInCurrentByte := 8 - bitOffset;
      var first := LowestBits(bytes[q], remainingBitsInCurrentByte);
      if bitCount < remainingBitsInCurrentByte {
        MiddleBitsIs(s, q, bitOffset, bitCount);
        return true, HighestBits(first, bitOffset + bitCount);
      }
      PeekFirst(s, q, bitOffset);
      val := PeekWhole(q + 1, first, bitCount - remainingBitsInCurrentByte, Pos(), remainingBitsInCurrentByte);
      return true, val;
    }

    /** Behind the current byte: as many whole bytes as there are, then the bits wanted of the next one. */
    method PeekWhole(at: nat, first: uint32, bitCount: nat, ghost p: nat, ghost had: nat) returns (bits: uint32)
      requires PeekedTo(bytes[..], p, had, at, first)
      requires had + bitCount <= 32 && p + had + bitCount <= 8 * bytes.Length
      ensures bits == Field(bytes[..], p, had + bitCount)
    {
      hide Field, At, HighestBits, ShiftOr;
      ghost var s, got := bytes[..], had;
      var q, left := at, bitCount;
      bits := first;
      while left >= 8
        invariant 0 <= q && 0 <= left && got + left == had + bitCount
        invariant PeekedTo(s, p, got, q, bits)
      {
        PeekByte(s, p, got, q, bits);
        bits := ShiftOr(bits, 8, bytes[q]);
        q := q + 1;
        left := left - 8;
        got := got + 8;
      }
      PeekLast(s, p, got, q, bits, left);
      if left > 0 {
        bits := ShiftOr(bits, left, HighestBits(bytes[q], left));
      }
    }

    method ConsumeBits(bitCount: nat) returns (ok: bool)
      requires Valid()
      modifies this
      ensures Valid()
      ensures ok == (bitCount <= old(RemainingBitCount()))
      ensures Pos() == if ok then old(Pos()) + bitCount else old(Pos())
    {
      if bitCount > RemainingBitCount() {
        return false;
      }
      var total := bitOffset + bitCount;
      byteOffset := byteOffset + total / 8;
      bitOffset := total % 8;
      return true;
    }

    method ReadBits(held: uint32, bitCount: nat) returns (ok: bool, val: uint32)
      requires Valid()
      requires bitCount == 0 ==> Pos() < 8 * bytes.Length
      modifies this
      ensures Valid()
      ensures ok == (bitCount <= old(RemainingBitCount()) && bitCount <= 32)
      ensures val == if ok then Field(bytes[..], old(Pos()), bitCount) else held
      ensures Pos() == if ok then old(Pos()) + bitCount else old(Pos())
    {
      ok, val := PeekBits(held, bitCount);
      if ok {
        ok := ConsumeBits(bitCount);
      }
    }

    method Seek(toByte: nat, toBit: nat) returns (ok: bool)
      requires Valid()
      modifies this
      ensures Valid()
      ensures ok == !(toByte > bytes.Length || toBit > 7 || (toByte == bytes.Length && toBit > 0))
      ensures Pos() == if ok then 8 * toByte + toBit else old(Pos())
      ensures ok ==> byteOffset == toByte && bitOffset == toBit
    {
      if toByte > bytes.Length || toBit > 7 || (toByte == bytes.Length && toBit > 0) {
        return false;
      }
      byteOffset, bitOffset := toByte, toBit;
      return true;
    }

    /** A failed read leaves the cursor and the caller's variable as they were. */
    method ReadExponentialGolomb(held: uint32) returns (ok: bool, val: uint32)
      requires Valid()
      modifies this
      ensures Valid()
      ensures var code := GolombAt(bytes[..], old(Pos()));
              && ok == code.Some?
              && (ok ==> val == code.value.0 < 0xFFFF_FFFF && Pos() == code.value.1)
              && (!ok ==> val == held && Pos() == old(Pos()))
    {
      hide Field, LeadingZeros, At, ZerosSoFar;
      var originalByteOffset, originalBitOffset := byteOffset, bitOffset;
      ghost var p, s := Pos(), bytes[..];
      var zeroBitCount := 0;
      var more, peekedBit := PeekBits(0, 1);
      ZerosStart(s, p);
      while more && peekedBit == 0
        invariant Valid() && Pos() == p + zeroBitCount && bytes[..] == s
        invariant more == (Pos() < 8 * |s|)
        invariant more ==> peekedBit == Field(s, p + zeroBitCount, 1)
        invariant ZerosSoFar(s, p, zeroBitCount)
        decreases 8 * |s| - Pos()
      {
        ZerosMore(s, p, zeroBitCount);
        zeroBitCount := zeroBitCount + 1;
        var _ := ConsumeBits(1);
        more, peekedBit := PeekBits(peekedBit, 1);
      }
      ZerosEnd(s, p, zeroBitCount);
      var valueBitCount := zeroBitCount + 1;
      ok, val := false, held;
      if valueBitCount <= 32 {
        ok, val := ReadBits(held, valueBitCount);
      }
      if !ok {
        var back := Seek(originalByteOffset, originalBitOffset);
        return;
      }
      FieldLead(s, p + zeroBitCount, valueBitCount);
      val := val - 1;
    }

    method ReadSignedExponentialGolomb(held: int32) returns (ok: bool, val: int32)
      requires Valid()
      modifies this
      ensures Valid()
      ensures var code := GolombAt(bytes[..], old(Pos()));
              && ok == code.Some?
              && (ok ==> val == ToSigned(code.value.0) && Pos() == code.value.1)
              && (!ok ==> val == held && Pos() == old(Pos()))
    {
      var unsignedVal;
      ok, unsignedVal := ReadExponentialGolomb(0);
      if !ok {
        return false, held;
      }
      var u: int := unsignedVal;
      if u % 2 == 0 {
        val := -(u / 2);
      } else {
        val := (u + 1) / 2;
      }
    }

    /** Shifting by 64 - bitCount asks for 1..64 bits, unless the write does not fit anyway. */
    method WriteBits(val: uint64, bitCount: nat) returns (ok: bool)
      requires Valid()
      requires bitCount <= RemainingBitCount() ==> 1 <= bitCount <= 64
      modifies this, bytes
      ensures Valid()
      ensures ok == (bitCount <= old(RemainingBitCount()))
      ensures ok ==> Written(old(bytes[..]), bytes[..], old(Pos()), bitCount, val) && Pos() == old(Pos()) + bitCount
      ensures !ok ==> bytes[..] == old(bytes[..]) && Pos() == old(Pos())
    {
      if bitCount > RemainingBitCount() {
        return false;
      }
      hide Aligned, WrittenPart, Written;
      ghost var before, p := bytes[..], Pos();
      var v: uint64 := ShiftLeft64(val, 64 - bitCount);
      TopAligned(val, bitCount);
      var q := byteOffset;
      var remainingBitsInCurrentByte := 8 - bitOffset;
      var bitsInFirstByte := if bitCount < remainingBitsInCurrentByte then bitCount else remainingBitsInCurrentByte;
      bytes[q] := WritePartialByte(HighestByte(v), bitsInFirstByte, bytes[q], bitOffset);
      ghost var now := bytes[..];
      assert now == before[q := bytes[q]];
      PartialWritten(before, q, bitOffset, bitsInFirstByte, v, val, bitCount);
      if bitCount <= remainingBitsInCurrentByte {
        ok := ConsumeBits(bitCount);
        return ok;
      }
      FirstShift(v, val, bitCount, bitsInFirstByte);
      v := ShiftLeft64(v, bitsInFirstByte);
      q := q + 1;
      var left := bitCount - bitsInFirstByte;
      while left >= 8
        invariant 0 <= left < bitCount && p + (bitCount - left) == 8 * q
        invariant unchanged(this) && bytes[..] == now
        invariant WrittenPart(before, now, p, bitCount, val, bitCount - left)
        invariant Aligned(v, val, left)
      {
        ByteWritten(before, now, p, bitCount, val, left, q, v);
        bytes[q] := HighestByte(v);
        now := now[q := HighestByte(v)];
        q := q + 1;
        v := ShiftLeft64(v, 8);
        left := left - 8;
      }
      if left > 0 {
        LastWritten(before, now, p, bitCount, val, left, q, v);
        bytes[q] := WritePartialByte(HighestByte(v), left, bytes[q], 0);
        now := now[q := bytes[q]];
      } else {
        AllWritten(before, now, p, bitCount, val);
      }
      ok := ConsumeBits(bitCount);
    }

    /** One value is too large to be read back, and is refused. */
    method WriteExponentialGolomb(val: uint32) returns (ok: bool)
      requires Valid()
      modifies this, bytes
      ensures Valid()
      ensures ok == (val != 0xFFFF_FFFF && GolombLength(val) <= old(RemainingBitCount()))
      ensures ok ==>
                && Written(old(bytes[..]), bytes[..], old(Pos()), GolombLength(val), val + 1)
                && Pos() == old(Pos()) + GolombLength(val)
      ensures !ok ==> bytes[..] == old(bytes[..]) && Pos() == old(Pos())
    {
      if val == 0xFFFF_FFFF {
        return false;
      }
      var valToEncode: uint64 := val + 1;
      var count := CountBits(valToEncode);
      LengthUnique(valToEncode, count);
      PowValues();
      if count > 32 { PowMono(32, count - 1); }
      ok := WriteBits(valToEncode, count * 2 - 1);
    }

    method WriteSignedExponentialGolomb(val: int32) returns (ok: bool)
      requires Valid()
      modifies this, bytes
      ensures Valid()
      ensures ok == (val != -0x8000_0000 && GolombLength(FromSigned(val)) <= old(RemainingBitCount()))
      ensures ok ==>
                && Written(old(bytes[..]), bytes[..], old(Pos()), GolombLength(FromSigned(val)), FromSigned(val) + 1)
                && Pos() == old(Pos()) + GolombLength(FromSigned(val))
      ensures !ok ==> bytes[..] == old(bytes[..]) && Pos() == old(Pos())
    {
      if val == 0 {
        ok := WriteExponentialGolomb(0);
      } else if val > 0 {
        ok := WriteExponentialGolomb(val * 2 - 1);
      } else if val == -0x8000_0000 {
        return false;
      } else {
        ok := WriteExponentialGolomb(-val * 2);
      }
    }
  }

  // ----- Lists of mixed values: what is written is read back -----

  datatype Item =
    | Raw(value: nat, bits: nat)
    | Unsigned(value: nat)
    | Signed(number: int)

  datatype Shape = RawShape(bits: nat) | UnsignedShape | SignedShape

  /** The values the writer accepts and the reader can return. */
  predicate Writable(item: Item) {
    match item
    case Raw(v, n) => 1 <= n <= 32 && v < Pow2(n) && v < 0x1_0000_0000
    case Unsigned(v) => v < 0xFFFF_FFFF
    case Signed(v) => -0x8000_0000 < v < 0x8000_0000
  }

  function ShapeOf(item: Item): Shape {
    match item
    case Raw(_, n) => RawShape(n)
    case Unsigned(_) => UnsignedShape
    case Signed(_) => SignedShape
  }

  function Width(item: Item): nat {
    match item
    case Raw(_, n) => n
    case Unsigned(v) => WidthOf(v); GolombLength(v)
    case Signed(v) => WidthOf(FromSigned(v)); GolombLength(FromSigned(v))
  }

  lemma WidthOf(v: nat)
    ensures GolombLength(v) >= 1
  {
  }

  function Code(item: Item): nat {
    match item
    case Raw(v, _) => v
    case Unsigned(v) => v + 1
    case Signed(v) => FromSigned(v) + 1
  }

  /** Where item `k` starts when the list starts at `p`. */
  function Start(items: seq<Item>, p: nat, k: nat): (q: nat)
    requires k <= |items|
    ensures p <= q
  {
    if k == 0 then p else Start(items, p, k - 1) + Width(items[k - 1])
  }

  lemma {:induction false} StartMono(items: seq<Item>, p: nat, j: nat, k: nat)
    requires j <= k <= |items|
    ensures Start(items, p, j) <= Start(items, p, k)
    ensures j < k ==> Start(items, p, j) + Width(items[j]) <= Start(items, p, k)
  {
    if j < k { StartMono(items, p, j, k - 1); }
  }

  ghost predicate HoldsItem(bytes: seq<byte>, q: nat, item: Item) {
    q + Width(item) <= 8 * |bytes| && Field(bytes, q, Width(item)) == Code(item)
  }

  /** The first `k` items stand one after the other from bit `p` on. */
  ghost predicate Holds(bytes: seq<byte>, p: nat, items: seq<Item>, k: nat) {
    k <= |items| && forall j: nat | j < k :: HoldsItem(bytes, Start(items, p, j), items[j])
  }

  /** What the matching read returns: the item and the position after it. */
  function ReadAt(bytes: seq<byte>, p: nat, shape: Shape): Option<(Item, nat)>
    requires p <= 8 * |bytes|
  {
    match shape
    case RawShape(n) =>
      if n > 32 || p + n > 8 * |bytes| then None else Some((Raw(Field(bytes, p, n), n), p + n))
    case UnsignedShape =>
      var code := GolombAt(bytes, p);
      if code.None? then None else Some((Unsigned(code.value.0), code.value.1))
    case SignedShape =>
      var code := GolombAt(bytes, p);
      if code.None? then None else Some((Signed(ToSigned(code.value.0)), code.value.1))
  }

  lemma {:induction false} TopBit(x: nat, n: nat)
    requires Pow2(n) <= x < Pow2(n + 1)
    ensures Bit(x, n)
  {
    if n > 0 { TopBit(x / 2, n - 1); }
  }

  lemma FieldAt(bytes: seq<byte>, p: nat, n: nat, j: nat)
    requires p + n <= 8 * |bytes| && p <= j < p + n
    ensures At(bytes, j) == Bit(Field(bytes, p, n), p + n - 1 - j)
  {
    hide Field, Bit;
    FieldBit(bytes, p, n, p + n - 1 - j);
  }

  lemma ZerosAre(bytes: seq<byte>, p: nat, z: nat)
    requires p + z < 8 * |bytes| && At(bytes, p + z)
    requires forall j: nat | p <= j < p + z :: !At(bytes, j)
    ensures LeadingZeros(bytes, p) == z
  {
  }

  /** A number of `c` bits in a field of `2c - 1` bits: `c - 1` zeros, then the number. */
  lemma GolombShape(bytes: seq<byte>, p: nat, x: nat, c: nat)
    requires 0 < c && Pow2(c - 1) <= x < Pow2(c)
    requires p + (2 * c - 1) <= 8 * |bytes| && Field(bytes, p, 2 * c - 1) == x
    ensures LeadingZeros(bytes, p) == c - 1
    ensures Field(bytes, p + (c - 1), c) == x
  {
    hide Field, Bit, LeadingZeros, At, Pow2;
    var n := 2 * c - 1;
    forall j: nat | p <= j < p + (c - 1) ensures !At(bytes, j) {
      FieldAt(bytes, p, n, j);
      BitBelow(x, c, p + n - 1 - j);
    }
    FieldAt(bytes, p, n, p + (c - 1));
    TopBit(x, c - 1);
    ZerosAre(bytes, p, c - 1);
    forall i: nat ensures Bit(x, i) == (i < c && At(bytes, p + (c - 1) + c - 1 - i)) {
      if i < c {
        FieldAt(bytes, p, n, p + (c - 1) + c - 1 - i);
      } else {
        BitBelow(x, c, i);
      }
    }
    FieldIs(bytes, p + (c - 1), c, x);
  }

  /** A code in place is parsed back: the zeros are counted right and the value is right. */
  lemma GolombReads(bytes: seq<byte>, p: nat, v: nat)
    requires v < 0xFFFF_FFFF && p + GolombLength(v) <= 8 * |bytes|
    requires Field(bytes, p, GolombLength(v)) == v + 1
    ensures GolombAt(bytes, p) == Some((v, p + GolombLength(v)))
  {
    hide Field, LeadingZeros, At, Pow2, Length;
    var c := Length(v + 1);
    LengthBounds(v + 1);
    PowValues();
    if c > 32 { PowMono(32, c - 1); }
    GolombShape(bytes, p, v + 1, c);
  }

  lemma SignedRoundTrip(v: int)
    ensures ToSigned(FromSigned(v)) == v
  {
  }

  /** Every writable item that stands in the buffer is what the matching read returns. */
  lemma ReadsBack(bytes: seq<byte>, p: nat, item: Item)
    requires Writable(item) && HoldsItem(bytes, p, item)
    ensures ReadAt(bytes, p, ShapeOf(item)) == Some((item, p + Width(item)))
  {
    hide Field, GolombAt, Pow2, GolombLength;
    match item
    case Raw(_, _) =>
    case Unsigned(v) => GolombReads(bytes, p, v);
    case Signed(v) =>
      GolombReads(bytes, p, FromSigned(v));
      SignedRoundTrip(v);
  }

  lemma LengthFits(x: nat)
    requires x > 0
    ensures x < Pow2(2 * Length(x) - 1)
  {
    hide Pow2, Length;
    LengthBounds(x);
    PowMono(Length(x), 2 * Length(x) - 1);
  }

  lemma CodeFits(item: Item)
    requires Writable(item)
    ensures Code(item) < Pow2(Width(item))
  {
    hide Pow2, Length;
    if !item.Raw? { LengthFits(Code(item)); }
  }

  lemma HoldsMore(before: seq<byte>, now: seq<byte>, p: nat, items: seq<Item>, k: nat)
    requires k < |items| && Writable(items[k]) && Holds(before, p, items, k)
    requires Written(before, now, Start(items, p, k), Width(items[k]), Code(items[k]))
    ensures Holds(now, p, items, k + 1)
  {
    hide Field, Width, Code, Written, Start, At;
    forall j: nat | j < k + 1 ensures HoldsItem(now, Start(items, p, j), items[j]) {
      HoldsStays(before, now, p, items, k, j);
    }
  }

  lemma HoldsStays(before: seq<byte>, now: seq<byte>, p: nat, items: seq<Item>, k: nat, j: nat)
    requires k < |items| && j <= k && Writable(items[k]) && Holds(before, p, items, k)
    requires Written(before, now, Start(items, p, k), Width(items[k]), Code(items[k]))
    ensures HoldsItem(now, Start(items, p, j), items[j])
  {
    var q, item := Start(items, p, k), items[k];
    var n, v := Width(item), Code(item);
    assert |now| == |before| && q + n <= 8 * |now|;
    hide Field, Width, Code, Written, Start, At;
    CodeFits(item);
    if j == k {
      WrittenField(before, now, q, n, v);
    } else {
      assert HoldsItem(before, Start(items, p, j), items[j]);
      StartMono(items, p, j, k);
      WrittenFrame(before, now, q, n, v, Start(items, p, j), Width(items[j]));
    }
  }

  ghost predicate SameOutside(before: seq<byte>, now: seq<byte>, lo: nat, hi: nat) {
    && |now| == |before|
    && forall j: nat | j < 8 * |now| && !(lo <= j < hi) :: At(now, j) == At(before, j)
  }

  method WriteItem(w: BitBufferWriter, item: Item) returns (ok: bool)
    requires w.Valid() && Writable(item)
    modifies w, w.bytes
    ensures w.Valid()
    ensures ok == (Width(item) <= old(w.RemainingBitCount()))
    ensures ok ==> Written(old(w.bytes[..]), w.bytes[..], old(w.Pos()), Width(item), Code(item))
    ensures w.Pos() == old(w.Pos()) + if ok then Width(item) else 0
  {
    match item
    case Raw(v, n) =>
      ok := w.WriteBits(v, n);
    case Unsigned(v) =>
      ok := w.WriteExponentialGolomb(v);
    case Signed(v) =>
      ok := w.WriteSignedExponentialGolomb(v);
  }

  method ReadItem(w: BitBufferWriter, shape: Shape) returns (item: Option<Item>)
    requires w.Valid() && (shape.RawShape? ==> shape.bits >= 1)
    modifies w
    ensures w.Valid()
    ensures var r := ReadAt(w.bytes[..], old(w.Pos()), shape);
            && item.Some? == r.Some?
            && (r.Some? ==> item.value == r.value.0)
            && w.Pos() == if r.Some? then r.value.1 else old(w.Pos())
  {
    match shape
    case RawShape(n) =>
      var ok, v := w.ReadBits(0, n);
      item := if ok then Some(Raw(v, n)) else None;
    case UnsignedShape =>
      var ok, v := w.ReadExponentialGolomb(0);
      item := if ok then Some(Unsigned(v)) else None;
    case SignedShape =>
      var ok, v := w.ReadSignedExponentialGolomb(0);
      item := if ok then Some(Signed(v)) else None;
  }

  /** Writes a list that fits: it then stands in the buffer, and no other bit has changed. */
  method WriteItems(w: BitBufferWriter, items: seq<Item>)
    requires w.Valid() && forall k | 0 <= k < |items| :: Writable(items[k])
    requires Start(items, w.Pos(), |items|) <= 8 * w.bytes.Length
    modifies w, w.bytes
    ensures w.Valid() && w.Pos() == Start(items, old(w.Pos()), |items|)
    ensures Holds(w.bytes[..], old(w.Pos()), items, |items|)
    ensures SameOutside(old(w.bytes[..]), w.bytes[..], old(w.Pos()), w.Pos())
  {
    hide Written, Width, Code, Field, Holds, SameOutside;
    ghost var p, first := w.Pos(), w.bytes[..];
    NoneWritten(first, p, items);
    var k := 0;
    while k < |items|
      invariant k <= |items| && w.Valid() && w.Pos() == Start(items, p, k)
      invariant Holds(w.bytes[..], p, items, k)
      invariant SameOutside(first, w.bytes[..], p, w.Pos())
    {
      ghost var before := w.bytes[..];
      StartMono(items, p, k, |items|);
      var ok := WriteItem(w, items[k]);
      ghost var now := w.bytes[..];
      HoldsMore(before, now, p, items, k);
      OutsideMore(first, before, now, p, Start(items, p, k), Width(items[k]), Code(items[k]));
      k := k + 1;
    }
  }

  lemma NoneWritten(bytes: seq<byte>, p: nat, items: seq<Item>)
    ensures Holds(bytes, p, items, 0) && SameOutside(bytes, bytes, p, p)
  {
  }

  lemma OutsideMore(first: seq<byte>, before: seq<byte>, now: seq<byte>, p: nat, q: nat, n: nat, v: nat)
    requires p <= q && SameOutside(first, before, p, q) && Written(before, now, q, n, v)
    ensures SameOutside(first, now, p, q + n)
  {
  }

  /** Item `k` of a list that stands in the buffer is what the matching read returns there. */
  lemma ItemReadsBack(bytes: seq<byte>, p: nat, items: seq<Item>, k: nat)
    requires k < |items| && Writable(items[k]) && Holds(bytes, p, items, |items|)
    ensures var q := Start(items, p, k);
            && q <= 8 * |bytes|
            && ReadAt(bytes, q, ShapeOf(items[k])) == Some((items[k], Start(items, p, k + 1)))
  {
    hide Field, Width, Code, ReadAt;
    assert HoldsItem(bytes, Start(items, p, k), items[k]);
    ReadsBack(bytes, Start(items, p, k), items[k]);
  }

  /**
   The mixed round trip, for any starting position and any list that fits: write the list,
   seek back, read with the matching calls; the reads return the list and stop where the
   writes stopped.
   */
  method RoundTrip(w: BitBufferWriter, items: seq<Item>) returns (back: seq<Item>)
    requires w.Valid() && forall k | 0 <= k < |items| :: Writable(items[k])
    requires Start(items, w.Pos(), |items|) <= 8 * w.bytes.Length
    modifies w, w.bytes
    ensures back == items
    ensures w.Valid() && w.Pos() == Start(items, old(w.Pos()), |items|)
    ensures SameOutside(old(w.bytes[..]), w.bytes[..], old(w.Pos()), w.Pos())
  {
    hide Field, Width, Code, Holds, ReadAt, SameOutside;
    var byteOffset, bitOffset := w.byteOffset, w.bitOffset;
    ghost var p := w.Pos();
    WriteItems(w, items);
    var ok := w.Seek(byteOffset, bitOffset);
    ghost var written := w.bytes[..];
    back := [];
    while |back| < |items|
      invariant |back| <= |items| && back == items[..|back|]
      invariant w.Valid() && w.bytes[..] == written && w.Pos() == Start(items, p, |back|)
    {
      var k := |back|;
      ItemReadsBack(written, p, items, k);
      var item := ReadItem(w, ShapeOf(items[k]));
      back := back + [item.value];
    }
  }
}

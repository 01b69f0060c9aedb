/**
 base64.cc: the encoder and the decoder with its parse, padding and termination modes
 (sections 3.3, 3.5 and 4 of RFC 4648).  Characters are the bytes of the string.  In the
 expressions below a shift is a product or quotient by a power of two, a mask of low ones a
 remainder, and an or of disjoint bits a sum; EncoderBits and DecoderBits justify this.
 */
module Base64 {
  import opened Common
  import opened Words

  const PAD: byte := 61

  // values of the decode table that are not sextets
  const PD: byte := 0xFD
  const SP: byte := 0xFE
  const IL: byte := 0xFF

  type Sextet = x: int | 0 <= x < 64

  /** Base64Table. */
  function TableChar(c: Sextet): byte {
    if c < 26 then 65 + c
    else if c < 52 then 97 + (c - 26)
    else if c < 62 then 48 + (c - 52)
    else if c == 62 then 43 else 47
  }

  /** DecodeTable. */
  function DecodeTable(ch: byte): byte {
    if 65 <= ch <= 90 then ch - 65
    else if 97 <= ch <= 122 then ch - 97 + 26
    else if 48 <= ch <= 57 then ch - 48 + 52
    else if ch == 43 then 62
    else if ch == 47 then 63
    else if ch == PAD then PD
    else if 9 <= ch <= 13 || ch == 32 then SP
    else IL
  }

  lemma TablesInverse(c: Sextet, ch: byte)
    ensures DecodeTable(TableChar(c)) == c
    ensures DecodeTable(ch) < 64 ==> TableChar(DecodeTable(ch)) == ch
    ensures DecodeTable(ch) == PD <==> ch == PAD
  {
  }

  /** The alphabet of table 1 of RFC 4648, in rows of eight. */
  function Row(k: nat): string
    requires k < 8
  {
    match k
    case 0 => "ABCDEFGH"
    case 1 => "IJKLMNOP"
    case 2 => "QRSTUVWX"
    case 3 => "YZabcdef"
    case 4 => "ghijklmn"
    case 5 => "opqrstuv"
    case 6 => "wxyz0123"
    case _ => "456789+/"
  }

  function Rows(k: nat): string
    requires k <= 8
  {
    if k == 0 then "" else Rows(k - 1) + Row(k - 1)
  }

  const ALPHABET: string := Rows(8)

  function TableUpTo(n: nat): (s: string)
    requires n <= 64
    ensures |s| == n && forall i | 0 <= i < n :: s[i] == TableChar(i) as char
  {
    if n == 0 then "" else TableUpTo(n - 1) + [TableChar(n - 1) as char]
  }

  lemma RowIs(k: nat)
    requires k < 8
    ensures |Row(k)| == 8
    ensures Row(k)[0] as int == TableChar(8 * k) && Row(k)[1] as int == TableChar(8 * k + 1)
    ensures Row(k)[2] as int == TableChar(8 * k + 2) && Row(k)[3] as int == TableChar(8 * k + 3)
    ensures Row(k)[4] as int == TableChar(8 * k + 4) && Row(k)[5] as int == TableChar(8 * k + 5)
    ensures Row(k)[6] as int == TableChar(8 * k + 6) && Row(k)[7] as int == TableChar(8 * k + 7)
  {
  }

  lemma RowMore(k: nat)
    requires k < 8
    ensures TableUpTo(8 * (k + 1)) == TableUpTo(8 * k) + Row(k)
  {
    RowIs(k);
    hide TableChar, Row;
    assert forall i | 0 <= i < 8 :: Row(k)[i] == TableChar(8 * k + i) as char;
  }

  lemma {:induction false} TableIsRows(k: nat)
    requires k <= 8
    ensures TableUpTo(8 * k) == Rows(k)
  {
    hide Row;
    if k > 0 {
      TableIsRows(k - 1);
      RowMore(k - 1);
    }
  }

  /** The encoder's table is the alphabet; the decoder knows besides it one pad and six whitespace characters. */
  lemma TablesAre(c: Sextet, ch: byte)
    ensures |ALPHABET| == 64 && TableChar(c) == ALPHABET[c] as int
    ensures DecodeTable(ch) < 64 <==> ch as char in ALPHABET
    ensures DecodeTable(ch) == PD <==> ch == '=' as int
    ensures DecodeTable(ch) == SP <==> ch == ' ' as int || 9 <= ch <= 13
    ensures DecodeTable(ch) < 64 || DecodeTable(ch) == PD || DecodeTable(ch) == SP || DecodeTable(ch) == IL
  {
    hide Rows, Row, TableUpTo;
    TableIsRows(8);
    TablesInverse(c, ch);
    if DecodeTable(ch) < 64 {
      assert TableUpTo(64)[DecodeTable(ch)] as int == ch;
    }
    if ch as char in TableUpTo(64) {
      var k :| 0 <= k < 64 && TableUpTo(64)[k] == ch as char;
      TablesInverse(k, ch);
    }
  }

  // ----- Encoding -----

  /** The four characters of one to three bytes. */
  function EncodeGroup(d: seq<byte>): (s: seq<byte>)
    requires 1 <= |d| <= 3
    ensures |s| == 4
  {
    var b0: int := d[0];
    var b1: int := if |d| > 1 then d[1] else 0;
    var b2: int := if |d| > 2 then d[2] else 0;
    [TableChar(b0 / 4),
     TableChar((b0 * 16) % 64 + b1 / 16),
     if |d| > 1 then TableChar((b1 * 4) % 64 + b2 / 64) else PAD,
     if |d| > 2 then TableChar(b2 % 64) else PAD]
  }

  function Encode(d: seq<byte>): seq<byte> {
    if d == [] then []
    else if |d| <= 3 then EncodeGroup(d)
    else EncodeGroup(d[..3]) + Encode(d[3..])
  }

  function EndOfGroup(d: seq<byte>, i: nat): nat {
    if i + 3 <= |d| then i + 3 else |d|
  }

  function GroupAt(d: seq<byte>, i: nat): seq<byte>
    requires i < |d|
  {
    EncodeGroup(d[i..EndOfGroup(d, i)])
  }

  lemma GroupChars(d: seq<byte>, i: nat)
    requires i < |d|
    ensures var g := GroupAt(d, i);
            var b0: int := d[i];
            var b1: int := if i + 1 < |d| then d[i + 1] else 0;
            var b2: int := if i + 2 < |d| then d[i + 2] else 0;
            && |g| == 4 && g[0] == TableChar(b0 / 4)
            && 0 <= (b0 * 16) % 64 + b1 / 16 < 64 && g[1] == TableChar((b0 * 16) % 64 + b1 / 16)
            && 0 <= (b1 * 4) % 64 + b2 / 64 < 64
            && g[2] == (if i + 1 < |d| then TableChar((b1 * 4) % 64 + b2 / 64) else PAD)
            && g[3] == (if i + 2 < |d| then TableChar(b2 % 64) else PAD)
  {
    hide TableChar;
  }

  lemma FourOf(before: seq<byte>, g: seq<byte>)
    requires |g| == 4
    ensures before + [g[0]] + [g[1]] + [g[2]] + [g[3]] == before + g
  {
  }

  lemma EncodeNext(d: seq<byte>, i: nat)
    requires i < |d|
    ensures Encode(d[i..]) == GroupAt(d, i) + Encode(d[EndOfGroup(d, i)..])
  {
    hide EncodeGroup;
    var j := EndOfGroup(d, i);
    assert d[i..][..j - i] == d[i..j] && d[i..][j - i..] == d[j..];
    if |d[i..]| <= 3 {
      assert d[i..j] == d[i..] && d[j..] == [];
    }
  }

  /** Stores one character at the write position. */
  method Put(out: array<byte>, destIx: nat, ch: byte) returns (next: nat)
    requires destIx < out.Length
    modifies out
    ensures next == destIx + 1
    ensures out[..next] == old(out[..destIx]) + [ch]
  {
    out[destIx] := ch;
    next := destIx + 1;
  }

  /** One pass of the loop: up to three bytes become four characters. */
  method EncodeOnce(byteData: seq<byte>, out: array<byte>, from: nat, at: nat) returns (i: nat, destIx: nat)
    requires from < |byteData| && at + 4 <= out.Length
    modifies out
    ensures i == EndOfGroup(byteData, from) && destIx == at + 4
    ensures out[..destIx] == old(out[..at]) + GroupAt(byteData, from)
  {
    hide TableChar, GroupAt;
    i, destIx := from, at;
    ghost var before, group := out[..at], GroupAt(byteData, from);
    GroupChars(byteData, from);
    var len := |byteData|;
    var c: int := byteData[i];
    destIx := Put(out, destIx, TableChar(c / 4));

    c := (c * 16) % 64;
    i := i + 1;
    if i < len {
      c := c + byteData[i] / 16;
    }
    destIx := Put(out, destIx, TableChar(c));
    assert out[..destIx] == before + [group[0]] + [group[1]];

    if i < len {
      c := byteData[i];
      c := (c * 4) % 64;
      i := i + 1;
      if i < len {
        c := c + byteData[i] / 64;
      }
      destIx := Put(out, destIx, TableChar(c));
    } else {
      destIx := Put(out, destIx, PAD);
    }
    assert out[..destIx] == before + [group[0]] + [group[1]] + [group[2]];

    if i < len {
      destIx := Put(out, destIx, TableChar(byteData[i] % 64));
      i := i + 1;
    } else {
      destIx := Put(out, destIx, PAD);
    }
    FourOf(before, group);
  }

  method EncodeFromArray(byteData: seq<byte>) returns (result: seq<byte>)
    ensures result == Encode(byteData)
  {
    var len := |byteData|;
    var out := new byte[((len + 2) / 3) * 4];
    var i, destIx := 0, 0;
    ghost var m := 0;
    while i < len
      invariant destIx == 4 * m <= out.Length
      invariant i == if 3 * m < len then 3 * m else len
      invariant 3 * m < len + 3
      invariant out[..destIx] + Encode(byteData[i..]) == Encode(byteData)
    {
      hide Encode, GroupAt;
      ghost var before := out[..destIx];
      EncodeNext(byteData, i);
      Regroup(before, GroupAt(byteData, i), Encode(byteData[EndOfGroup(byteData, i)..]));
      i, destIx := EncodeOnce(byteData, out, i, destIx);
      m := m + 1;
    }
    assert byteData[i..] == [];
    assert out[..destIx] == out[..];
    result := out[..];
  }

  // ----- Decoding: one quantum -----

  datatype ParseFlag = ParseStrict | ParseWhite | ParseAny
  datatype PadFlag = PadYes | PadAny | PadNo
  datatype TermFlag = TermBuffer | TermChar | TermAny

  datatype Flags = Flags(parse: ParseFlag, pad: PadFlag, term: TermFlag)

  const DO_STRICT := Flags(ParseStrict, PadYes, TermBuffer)
  const DO_LAX := Flags(ParseAny, PadAny, TermChar)

  /** The loop of GetNextQuantum: sextets so far, pads so far, what follows the cursor, and where the pads began. */
  datatype Scan = Scan(six: seq<Sextet>, padLen: nat, rest: seq<byte>, padStart: seq<byte>)

  datatype Turn = Stop | Next(q: Scan)

  /** One turn of the loop on the character at the cursor: leave the loop, or go on. */
  function OneChar(parse: ParseFlag, illegalPads: bool, q: Scan): (t: Turn)
    requires |q.six| < 4 && q.rest != []
    ensures t.Next? ==> |t.q.rest| < |q.rest| && |t.q.six| <= 4
  {
    var v, next := DecodeTable(q.rest[0]), q.rest[1..];
    if v == IL || (illegalPads && v == PD) then
      if parse != ParseAny then Stop else Next(q.(rest := next))
    else if v == SP then
      if parse == ParseStrict then Stop else Next(q.(rest := next))
    else if v == PD then
      if |q.six| < 2 || |q.six| + q.padLen >= 4 then
        if parse != ParseAny then Stop else Next(q.(rest := next))
      else
        Next(Scan(q.six, q.padLen + 1, next, if q.padLen == 0 then q.rest else q.padStart))
    else if q.padLen > 0 && parse != ParseAny then Stop
    else Next(Scan(q.six + [v], 0, next, q.padStart))
  }

  function ScanFrom(parse: ParseFlag, illegalPads: bool, q: Scan): (r: Scan)
    requires |q.six| <= 4
    ensures |r.six| <= 4
    decreases |q.rest|
  {
    if |q.six| >= 4 || q.rest == [] then q
    else
      match OneChar(parse, illegalPads, q)
      case Stop => q
      case Next(r) => ScanFrom(parse, illegalPads, r)
  }

  predicate Padded(q: Scan) {
    |q.six| + q.padLen == 4
  }

  /** Where the cursor ends up: illegal padding is rolled back. */
  function AfterQuantum(q: Scan): seq<byte> {
    if !Padded(q) && q.padLen > 0 then q.padStart else q.rest
  }

  function Fill(six: seq<Sextet>): (qbuf: seq<byte>)
    requires |six| <= 4
    ensures |qbuf| == 4
    ensures forall i | 0 <= i < 4 :: qbuf[i] == if i < |six| then six[i] else 0
  {
    seq(4, i requires 0 <= i < 4 => if i < |six| then six[i] else 0)
  }

  // ----- Decoding: the whole string -----

  datatype Decoded = Decoded(success: bool, bytes: seq<byte>, rest: seq<byte>)

  /** The bytes of one quantum. */
  function QuantumBytes(six: seq<Sextet>): seq<byte>
    requires |six| <= 4
  {
    var q := Fill(six);
    var q0: int, q1: int, q2: int := q[0], q[1], q[2];
    if |six| < 2 then []
    else if |six| == 2 then [q0 * 4 + q1 / 16]
    else if |six| == 3 then [q0 * 4 + q1 / 16, (q1 * 16) % 256 + q2 / 4]
    else [q0 * 4 + q1 / 16, (q1 * 16) % 256 + q2 / 4, (q2 * 64) % 256 + q[3]]
  }

  /** The bits of a short quantum that no byte uses. */
  function UnusedBits(six: seq<Sextet>): byte
    requires |six| <= 4
  {
    var q := Fill(six);
    var q0: int, q1: int, q2: int := q[0], q[1], q[2];
    if |six| < 2 then q0 * 4 + q1 / 16
    else if |six| == 2 then (q1 * 16) % 256 + q2 / 4
    else if |six| == 3 then (q2 * 64) % 256 + q[3]
    else 0
  }

  /** No bits are unused exactly when the characters behind the last whole byte add nothing to it. */
  lemma UnusedExactly(six: seq<Sextet>)
    requires |six| <= 4
    ensures UnusedBits(six) == 0 <==>
            match |six|
            case 1 => six[0] == 0
            case 2 => six[1] % 16 == 0
            case 3 => six[2] % 4 == 0
            case _ => true
  {
  }

  predicate ShortOk(flags: Flags, q: Scan)
    requires |q.six| <= 4
  {
    && (flags.term != TermAny ==> UnusedBits(q.six) == 0)
    && (flags.pad == PadYes ==> Padded(q))
  }

  function FirstScan(flags: Flags, data: seq<byte>): (q: Scan)
    ensures |q.six| <= 4
  {
    ScanFrom(flags.parse, flags.pad == PadNo, Scan([], 0, data, data))
  }

  /** The quanta of a string, before the check for unused characters. */
  function DecodeQuanta(flags: Flags, data: seq<byte>): Decoded
    decreases |data|
  {
    if data == [] then Decoded(true, [], [])
    else
      var q := FirstScan(flags, data);
      if |q.six| < 4 then Decoded(ShortOk(flags, q), QuantumBytes(q.six), AfterQuantum(q))
      else
        ScanShrinks(flags.parse, flags.pad == PadNo, Scan([], 0, data, data));
        var more := DecodeQuanta(flags, q.rest);
        Decoded(more.success, QuantumBytes(q.six) + more.bytes, more.rest)
  }

  function Decode(flags: Flags, data: seq<byte>): Decoded {
    var d := DecodeQuanta(flags, data);
    Decoded(d.success && (flags.term == TermBuffer ==> d.rest == []), d.bytes, d.rest)
  }

  lemma {:induction false} ScanShrinks(parse: ParseFlag, illegalPads: bool, q: Scan)
    requires |q.six| <= 4
    ensures var r := ScanFrom(parse, illegalPads, q);
            && |r.rest| <= |q.rest|
            && |r.six| <= |q.six| + (|q.rest| - |r.rest|)
    decreases |q.rest|
  {
    if |q.six| < 4 && q.rest != [] {
      match OneChar(parse, illegalPads, q)
      case Stop =>
      case Next(r) => ScanShrinks(parse, illegalPads, r);
    }
  }

  // ----- The decoder itself -----

  lemma ScanStep(parse: ParseFlag, illegalPads: bool, q: Scan)
    requires |q.six| < 4 && q.rest != []
    ensures ScanFrom(parse, illegalPads, q) == match OneChar(parse, illegalPads, q)
                                               case Stop => q
                                               case Next(r) => ScanFrom(parse, illegalPads, r)
  {
  }

  lemma ScanEnds(parse: ParseFlag, illegalPads: bool, q: Scan)
    requires |q.six| <= 4
    requires |q.six| < 4 && q.rest != [] ==> OneChar(parse, illegalPads, q).Stop?
    ensures ScanFrom(parse, illegalPads, q) == q
  {
  }

  lemma TailStep(data: seq<byte>, dpos: nat)
    requires dpos < |data|
    ensures data[dpos..] != [] && data[dpos..][0] == data[dpos] && data[dpos..][1..] == data[dpos + 1..]
  {
  }

  lemma TableRange(ch: byte)
    ensures var v := DecodeTable(ch); v < 64 || v == PD || v == SP || v == IL
  {
  }

  lemma FillIs(six: seq<Sextet>, q: seq<byte>)
    requires |six| <= 4 && |q| == 4
    requires forall k | 0 <= k < |six| :: q[k] == six[k]
    requires forall k | |six| <= k < 4 :: q[k] == 0
    ensures q == Fill(six)
  {
  }

  /** The decoder's variables stand for the scan q. */
  ghost predicate Tracks(data: seq<byte>, dpos: nat, buf: seq<byte>,
                         byteLen: nat, padLen: nat, padStart: nat, q: Scan) {
    && byteLen == |q.six| <= 4 == |buf| && padLen == q.padLen
    && buf[..byteLen] == q.six
    && dpos <= |data| && q.rest == data[dpos..]
    && (padLen > 0 ==> padStart <= dpos && q.padStart == data[padStart..])
  }

  /** The body of the loop below on the character at `dpos`; `more` is false where it breaks. */
  method TakeChar(parse: ParseFlag, illegalPads: bool, data: seq<byte>, dpos: nat, qbuf: array<byte>,
                  byteLen: nat, padLen: nat, padStart: nat, ghost q: Scan)
    returns (more: bool, byteLen': nat, padLen': nat, padStart': nat)
    requires qbuf.Length == 4 && Tracks(data, dpos, qbuf[..], byteLen, padLen, padStart, q)
    requires byteLen < 4 && dpos < |data|
    modifies qbuf
    ensures more == OneChar(parse, illegalPads, q).Next?
    ensures if more
            then Tracks(data, dpos + 1, qbuf[..], byteLen', padLen', padStart', OneChar(parse, illegalPads, q).q)
            else Tracks(data, dpos, qbuf[..], byteLen', padLen', padStart', q)
  {
    hide DecodeTable;
    more, byteLen', padLen', padStart' := true, byteLen, padLen, padStart;
    TailStep(data, dpos);
    TableRange(data[dpos]);
    qbuf[byteLen] := DecodeTable(data[dpos]);
    if IL == qbuf[byteLen] || (illegalPads && PD == qbuf[byteLen]) {
      if parse != ParseAny {
        more := false;
      }
    } else if SP == qbuf[byteLen] {
      if parse == ParseStrict {
        more := false;
      }
    } else if PD == qbuf[byteLen] {
      if byteLen < 2 {
        if parse != ParseAny {
          more := false;
        }
      } else if byteLen + padLen >= 4 {
        if parse != ParseAny {
          more := false;
        }
      } else {
        padLen' := padLen + 1;
        if padLen' == 1 {
          padStart' := dpos;
        }
      }
    } else {
      if padLen > 0 {
        if parse != ParseAny {
          more := false;
        } else {
          padLen' := 0;
        }
      }
      if more {
        byteLen' := byteLen + 1;
      }
    }
  }

  /** `qbuf` receives the sextets of the quantum, zero filled; `dpos` moves past it. */
  method GetNextQuantum(parse: ParseFlag, illegalPads: bool, data: seq<byte>, from: nat, qbuf: array<byte>)
    returns (byteLen: nat, dpos: nat, padded: bool)
    requires from <= |data| && qbuf.Length == 4
    modifies qbuf
    ensures dpos <= |data|
    ensures var q := ScanFrom(parse, illegalPads, Scan([], 0, data[from..], data[from..]));
            && byteLen == |q.six| && padded == Padded(q)
            && qbuf[..] == Fill(q.six)
            && data[dpos..] == AfterQuantum(q)
  {
    hide ScanFrom, OneChar, Fill;
    byteLen, dpos := 0, from;
    var padLen, padStart := 0, 0;
    ghost var q := Scan([], 0, data[from..], data[from..]);
    ghost var goal := ScanFrom(parse, illegalPads, q);
    while byteLen < 4 && dpos < |data|
      invariant Tracks(data, dpos, qbuf[..], byteLen, padLen, padStart, q)
      invariant ScanFrom(parse, illegalPads, q) == goal
      decreases |data| - dpos
    {
      ScanStep(parse, illegalPads, q);
      var more;
      more, byteLen, padLen, padStart :=
        TakeChar(parse, illegalPads, data, dpos, qbuf, byteLen, padLen, padStart, q);
      if !more {
        break;
      }
      q := OneChar(parse, illegalPads, q).q;
      dpos := dpos + 1;
    }
    assert q == goal by { ScanEnds(parse, illegalPads, q); }
    for i := byteLen to 4
      invariant qbuf[..byteLen] == q.six
      invariant forall k | byteLen <= k < i :: qbuf[k] == 0
    {
      qbuf[i] := 0;
    }
    FillIs(q.six, qbuf[..]);
    if 4 == byteLen + padLen {
      padded := true;
    } else {
      padded := false;
      if padLen != 0 {
        dpos := padStart;
      }
    }
  }

  lemma NoQuanta(flags: Flags)
    ensures DecodeQuanta(flags, []) == Decoded(true, [], [])
  {
  }

  /** Bytes already produced, before those of the rest of the string. */
  function Before(bytes: seq<byte>, d: Decoded): Decoded {
    Decoded(d.success, bytes + d.bytes, d.rest)
  }

  lemma SextetRange(six: seq<Sextet>, q: seq<byte>)
    requires |six| <= 4 && q == Fill(six)
    ensures forall k | 0 <= k < 4 :: q[k] < 64
  {
  }

  /** One turn of the decoding loop. */
  lemma QuantaStep(flags: Flags, data: seq<byte>)
    requires data != []
    ensures var q := FirstScan(flags, data); var d := DecodeQuanta(flags, data);
            if |q.six| < 4 then d == Decoded(ShortOk(flags, q), QuantumBytes(q.six), AfterQuantum(q))
            else
              && |q.rest| < |data| && AfterQuantum(q) == q.rest
              && var more := DecodeQuanta(flags, q.rest);
                 d == Decoded(more.success, QuantumBytes(q.six) + more.bytes, more.rest)
  {
    ScanShrinks(flags.parse, flags.pad == PadNo, Scan([], 0, data, data));
    PadsLeaveRoom(flags.parse, flags.pad == PadNo, Scan([], 0, data, data));
  }

  /** Pads are only counted while the quantum is short. */
  lemma {:induction false} PadsLeaveRoom(parse: ParseFlag, illegalPads: bool, q: Scan)
    requires |q.six| <= 4 && |q.six| + q.padLen <= 4
    ensures var r := ScanFrom(parse, illegalPads, q);
            |r.six| + r.padLen <= 4
    decreases |q.rest|
  {
    if |q.six| < 4 && q.rest != [] {
      match OneChar(parse, illegalPads, q)
      case Stop =>
      case Next(r) => PadsLeaveRoom(parse, illegalPads, r);
    }
  }

  /** Appends the bytes of one quantum; `c` is what is left over of the last sextet used. */
  method AppendQuantum(qbuf: array<byte>, qlen: nat, result: seq<byte>, ghost six: seq<Sextet>)
    returns (result': seq<byte>, c: byte)
    requires qlen == |six| <= 4 && qbuf.Length == 4 && qbuf[..] == Fill(six)
    ensures result' == result + QuantumBytes(six) && c == UnusedBits(six)
  {
    hide Fill;
    SextetRange(six, qbuf[..]);
    var q0: int, q1: int, q2: int, q3: int := qbuf[0], qbuf[1], qbuf[2], qbuf[3];
    result' := result;
    c := q0 * 4 + q1 / 16;
    if qlen >= 2 {
      result' := result' + [c];
      c := (q1 * 16) % 256 + q2 / 4;
      if qlen >= 3 {
        result' := result' + [c];
        c := (q2 * 64) % 256 + q3;
        if qlen >= 4 {
          result' := result' + [c];
          c := 0;
        }
      }
    }
  }

  method DecodeFromArray(data: seq<byte>, flags: Flags) returns (success: bool, result: seq<byte>, dataUsed: nat)
    ensures dataUsed <= |data|
    ensures Decoded(success, result, data[dataUsed..]) == Decode(flags, data)
  {
    hide DecodeQuanta, ScanFrom, Fill, QuantumBytes, UnusedBits;
    result := [];
    var dpos := 0;
    success := true;
    var qbuf := new byte[4];
    ghost var goal := DecodeQuanta(flags, data);
    assert data[0..] == data;
    while dpos < |data|
      invariant dpos <= |data| && success
      invariant goal == Before(result, DecodeQuanta(flags, data[dpos..]))
      decreases |data| - dpos
    {
      ghost var before := result;
      ghost var q := FirstScan(flags, data[dpos..]);
      QuantaStep(flags, data[dpos..]);
      var qlen, padded, c;
      qlen, dpos, padded := GetNextQuantum(flags.parse, flags.pad == PadNo, data, dpos, qbuf);
      result, c := AppendQuantum(qbuf, qlen, result, q.six);
      if qlen < 4 {
        if flags.term != TermAny && c != 0 {
          success := false;
        }
        if flags.pad == PadYes && !padded {
          success := false;
        }
        assert goal == Decoded(success, result, data[dpos..]);
        break;
      }
      Regroup(before, QuantumBytes(q.six), DecodeQuanta(flags, data[dpos..]).bytes);
    }
    if dpos == |data| && data[dpos..] == [] { NoQuanta(flags); }
    assert goal == Decoded(success, result, data[dpos..]);
    if flags.term == TermBuffer && dpos != |data| {
      success := false;
    }
    dataUsed := dpos;
  }

  // ----- The decoder undoes the encoder -----

  function Chars(six: seq<Sextet>): (s: seq<byte>)
    ensures |s| == |six|
    ensures forall i | 0 <= i < |six| :: s[i] == TableChar(six[i])
  {
    if six == [] then [] else Chars(six[..|six| - 1]) + [TableChar(six[|six| - 1])]
  }

  function Pads(n: nat): (s: seq<byte>)
    ensures |s| == n
    ensures forall i | 0 <= i < n :: s[i] == PAD
  {
    seq(n, _ => PAD)
  }

  /** A scan of `data` that has skipped nothing. */
  ghost predicate Exact(data: seq<byte>, q: Scan) {
    && |q.six| + q.padLen <= 4
    && (q.padLen > 0 ==> |q.six| >= 2)
    && data == Chars(q.six) + Pads(q.padLen) + q.rest
    && (q.padLen > 0 ==> q.padStart == Pads(q.padLen) + q.rest)
  }

  /** The strict parse skips no character and takes no sextet after a pad. */
  lemma {:induction false} StrictScan(illegalPads: bool, data: seq<byte>, q: Scan)
    requires Exact(data, q)
    ensures Exact(data, ScanFrom(ParseStrict, illegalPads, q))
    decreases |q.rest|
  {
    if |q.six| < 4 && q.rest != [] {
      hide ScanFrom;
      ScanStep(ParseStrict, illegalPads, q);
      match OneChar(ParseStrict, illegalPads, q)
      case Stop =>
      case Next(r) =>
        StrictChar(illegalPads, data, q);
        StrictScan(illegalPads, data, r);
    }
  }

  lemma StrictChar(illegalPads: bool, data: seq<byte>, q: Scan)
    requires Exact(data, q) && |q.six| < 4 && q.rest != []
    requires OneChar(ParseStrict, illegalPads, q).Next?
    ensures Exact(data, OneChar(ParseStrict, illegalPads, q).q)
  {
    hide TableChar, DecodeTable;
    var ch, r := q.rest[0], OneChar(ParseStrict, illegalPads, q).q;
    TableRange(ch);
    assert q.rest == [ch] + r.rest;
    if DecodeTable(ch) == PD {
      TablesInverse(0, ch);
      assert Pads(r.padLen) == Pads(q.padLen) + [ch];
    } else {
      TablesInverse(0, ch);
      assert Pads(q.padLen) == [] == Pads(r.padLen);
      assert Chars(r.six) == Chars(q.six) + [ch] by { assert r.six[..|r.six| - 1] == q.six; }
    }
  }

  /**
   What a strict quantum uses: its own characters, and pads only if they complete it; where they do
   not, the rest begins with the first of them.
   */
  lemma StrictUses(flags: Flags, data: seq<byte>)
    requires flags.parse == ParseStrict
    ensures var q := FirstScan(flags, data);
            && data == Chars(q.six) + (if Padded(q) then Pads(4 - |q.six|) else []) + AfterQuantum(q)
            && (q.padLen > 0 ==> |q.six| >= 2)
  {
    hide ScanFrom;
    assert Exact(data, Scan([], 0, data, data));
    StrictScan(flags.pad == PadNo, data, Scan([], 0, data, data));
    ExactUses(data, FirstScan(flags, data));
    hide Exact, Chars, Pads;
  }

  lemma ExactUses(data: seq<byte>, q: Scan)
    requires Exact(data, q)
    ensures data == Chars(q.six) + (if Padded(q) then Pads(4 - |q.six|) else []) + AfterQuantum(q)
    ensures q.padLen > 0 ==> |q.six| >= 2
  {
    hide Chars, Pads;
    Regroup(Chars(q.six), Pads(q.padLen), q.rest);
    Regroup(Chars(q.six), [], q.rest);
    if q.padLen == 0 { assert Pads(0) == [] && Pads(0) + q.rest == q.rest; }
  }

  /** A byte made of the low bits of one sextet and the high bits of the next keeps both. */
  lemma Halves(hi: nat, lo: nat, m: nat)
    requires m == 4 || m == 16 || m == 64 || m == 256
    requires lo < m
    ensures (hi * m + lo) / m == hi && (hi * m + lo) % m == lo
  {
  }

  lemma Masks(x: nat)
    ensures (x * 16) % 64 == (x % 4) * 16
    ensures (x * 4) % 64 == (x % 16) * 4
    ensures (x * 16) % 256 == (x % 16) * 16
    ensures (x * 64) % 256 == (x % 4) * 64
  {
    Halves(x / 4, (x % 4) * 16, 64);
    Halves(x / 16, (x % 16) * 4, 64);
    Halves(x / 16, (x % 16) * 16, 256);
    Halves(x / 4, (x % 4) * 64, 256);
  }

  lemma QuantumArith(q0: Sextet, q1: Sextet, q2: Sextet, q3: Sextet)
    ensures var b0, b1, b2 := q0 * 4 + q1 / 16, (q1 * 16) % 256 + q2 / 4, (q2 * 64) % 256 + q3;
            && 0 <= b0 < 256 && 0 <= b1 < 256 && 0 <= b2 < 256
            && b0 / 4 == q0
            && (b0 * 16) % 64 + b1 / 16 == q1
            && (b1 * 4) % 64 + b2 / 64 == q2
            && b2 % 64 == q3
  {
    Masks(q1);
    Masks(q2);
    Halves(q0, q1 / 16, 4);
    Halves(q1 % 16, q2 / 4, 16);
    Halves(q2 % 4, q3, 64);
    Masks(q0 * 4 + q1 / 16);
    Masks((q1 % 16) * 16 + q2 / 4);
  }

  /** A quantum that uses all its bits encodes back to its characters. */
  lemma QuantumEncodes(six: seq<Sextet>)
    requires 2 <= |six| <= 4 && UnusedBits(six) == 0
    ensures |QuantumBytes(six)| == |six| - 1
    ensures EncodeGroup(QuantumBytes(six)) == Chars(six) + Pads(4 - |six|)
  {
    hide TableChar;
    var q := Fill(six);
    QuantumArith(q[0], q[1], q[2], q[3]);
  }

  lemma EncodeAfterGroup(d: seq<byte>, more: seq<byte>)
    requires |d| == 3
    ensures Encode(d + more) == EncodeGroup(d) + Encode(more)
  {
    hide EncodeGroup;
    assert (d + more)[..3] == d && (d + more)[3..] == more;
    if more == [] { assert d + more == d; }
  }

  lemma NoneUnused(six: seq<Sextet>)
    requires |six| == 4
    ensures UnusedBits(six) == 0
  {
  }

  lemma {:induction false} StrictIsEncoded(s: seq<byte>)
    requires var d := DecodeQuanta(DO_STRICT, s); d.success && d.rest == []
    ensures s == Encode(DecodeQuanta(DO_STRICT, s).bytes)
    decreases |s|
  {
    hide ScanFrom, QuantumBytes, UnusedBits, EncodeGroup, Fill;
    if s != [] {
      var q := FirstScan(DO_STRICT, s);
      QuantaStep(DO_STRICT, s);
      assert Chars([]) + Pads(0) + s == s;
      StrictScan(false, s, Scan([], 0, s, s));
      if |q.six| == 4 {
        StrictIsEncoded(q.rest);
        NoneUnused(q.six);
        QuantumEncodes(q.six);
        EncodeAfterGroup(QuantumBytes(q.six), DecodeQuanta(DO_STRICT, q.rest).bytes);
      } else {
        QuantumEncodes(q.six);
        assert s == Chars(q.six) + Pads(q.padLen);
      }
    }
  }

  /** The sextets of one to three bytes. */
  function Sixes(d: seq<byte>): (six: seq<Sextet>)
    requires 1 <= |d| <= 3
    ensures |six| == |d| + 1
  {
    var b0: int := d[0];
    var b1: int := if |d| > 1 then d[1] else 0;
    var b2: int := if |d| > 2 then d[2] else 0;
    [b0 / 4, (b0 * 16) % 64 + b1 / 16, (b1 * 4) % 64 + b2 / 64, b2 % 64][..|d| + 1]
  }

  lemma GroupIsChars(d: seq<byte>)
    requires 1 <= |d| <= 3
    ensures EncodeGroup(d) == Chars(Sixes(d)) + Pads(3 - |d|)
  {
    hide TableChar;
  }

  lemma SixArith(b0: byte, b1: byte, b2: byte)
    ensures var s1, s2 := (b0 * 16) % 64 + b1 / 16, (b1 * 4) % 64 + b2 / 64;
            && 0 <= s1 < 64 && 0 <= s2 < 64
            && (b0 / 4) * 4 + s1 / 16 == b0
            && (s1 * 16) % 256 + s2 / 4 == b1
            && (s2 * 64) % 256 + b2 % 64 == b2
  {
    assert (b0 * 16) % 64 == (b0 % 4) * 16;
    assert (b1 * 4) % 64 == (b1 % 16) * 4;
    var s1, s2 := (b0 % 4) * 16 + b1 / 16, (b1 % 16) * 4 + b2 / 64;
    assert s1 / 16 == b0 % 4 && s1 % 16 == b1 / 16;
    assert s2 / 4 == b1 % 16 && s2 % 4 == b2 / 64;
    assert (s1 * 16) % 256 == (s1 % 16) * 16;
    assert (s2 * 64) % 256 == (s2 % 4) * 64;
  }

  /** Regrouping three bytes as four sextets loses no bit. */
  lemma SixesBytes(d: seq<byte>)
    requires 1 <= |d| <= 3
    ensures QuantumBytes(Sixes(d)) == d && UnusedBits(Sixes(d)) == 0
  {
    var b1: byte, b2: byte := if |d| > 1 then d[1] else 0, if |d| > 2 then d[2] else 0;
    SixArith(d[0], b1, b2);
  }

  lemma ScanSextet(parse: ParseFlag, illegalPads: bool, q: Scan, c: Sextet, next: seq<byte>)
    requires |q.six| < 4 && q.padLen == 0 && q.rest == [TableChar(c)] + next
    ensures ScanFrom(parse, illegalPads, q) == ScanFrom(parse, illegalPads, Scan(q.six + [c], 0, next, q.padStart))
  {
    hide ScanFrom, TableChar, DecodeTable;
    ScanStep(parse, illegalPads, q);
    TablesInverse(c, 0);
    assert q.rest[1..] == next;
  }

  lemma {:induction false} ScanTakes(parse: ParseFlag, illegalPads: bool, q: Scan, t: seq<Sextet>, rest: seq<byte>)
    requires |q.six| + |t| <= 4 && q.padLen == 0 && q.rest == Chars(t) + rest
    ensures ScanFrom(parse, illegalPads, q) == ScanFrom(parse, illegalPads, Scan(q.six + t, 0, rest, q.padStart))
    decreases |t|
  {
    hide ScanFrom, TableChar;
    if t == [] {
      assert q.six + t == q.six && q.rest == rest;
    } else {
      assert q.rest == [TableChar(t[0])] + (Chars(t[1..]) + rest);
      ScanSextet(parse, illegalPads, q, t[0], Chars(t[1..]) + rest);
      ScanTakes(parse, illegalPads, Scan(q.six + [t[0]], 0, Chars(t[1..]) + rest, q.padStart), t[1..], rest);
      assert q.six + [t[0]] + t[1..] == q.six + t;
    }
  }

  lemma {:induction false} ScanPads(parse: ParseFlag, illegalPads: bool, q: Scan, n: nat)
    requires 2 <= |q.six| && q.rest == Pads(n)
    requires if illegalPads then q.padLen == 0 && |q.six| + n <= 4 else |q.six| + q.padLen + n == 4
    ensures var r := ScanFrom(parse, illegalPads, q);
            && r.six == q.six
            && (illegalPads ==> r.padLen == 0 && r.rest == if parse == ParseAny || |q.six| == 4 then [] else Pads(n))
            && (!illegalPads ==> r.padLen == 4 - |q.six| && r.rest == [])
    decreases n
  {
    if |q.six| < 4 && n > 0 {
      hide ScanFrom;
      ScanStep(parse, illegalPads, q);
      assert q.rest[1..] == Pads(n - 1);
      match OneChar(parse, illegalPads, q)
      case Stop =>
      case Next(r) => ScanPads(parse, illegalPads, r, n - 1);
    }
  }

  /** The scan of one encoded group. */
  lemma ScanGroup(flags: Flags, d: seq<byte>, rest: seq<byte>)
    requires 1 <= |d| <= 3 && (|d| < 3 ==> rest == [])
    ensures var q := FirstScan(flags, EncodeGroup(d) + rest);
            && q.six == Sixes(d)
            && (|d| == 3 ==> q.rest == rest)
            && (|d| < 3 ==> AfterQuantum(q) == if StopsAtPad(flags) then Pads(3 - |d|) else [])
            && (|d| < 3 && flags.pad == PadYes ==> Padded(q))
  {
    hide ScanFrom, Sixes, EncodeGroup;
    var data, pads, six := EncodeGroup(d) + rest, Pads(3 - |d|), Sixes(d);
    var illegal := flags.pad == PadNo;
    GroupIsChars(d);
    assert data == Chars(six) + (pads + rest);
    ScanTakes(flags.parse, illegal, Scan([], 0, data, data), six, pads + rest);
    var q := Scan(six, 0, pads + rest, data);
    assert [] + six == six;
    if |d| == 3 {
      assert pads + rest == rest;
      ScanEnds(flags.parse, illegal, q);
    } else {
      assert pads + rest == pads;
      ScanPads(flags.parse, illegal, q, 3 - |d|);
    }
  }

  /** Padding is refused where it is met. */
  predicate StopsAtPad(flags: Flags) {
    flags.pad == PadNo && flags.parse != ParseAny
  }

  lemma {:induction false} QuantaUndoEncode(flags: Flags, d: seq<byte>)
    ensures var r := DecodeQuanta(flags, Encode(d));
            && r.success && r.bytes == d
            && r.rest == if StopsAtPad(flags) then Pads((3 - |d| % 3) % 3) else []
    decreases |d|
  {
    hide ScanFrom, OneChar, Sixes, EncodeGroup, QuantumBytes, UnusedBits, Fill;
    if d != [] {
      var g, more := if |d| <= 3 then d else d[..3], if |d| <= 3 then [] else d[3..];
      assert d == g + more;
      assert Encode(d) == EncodeGroup(g) + Encode(more);
      QuantaStep(flags, Encode(d));
      ScanGroup(flags, g, Encode(more));
      SixesBytes(g);
      QuantaUndoEncode(flags, more);
    }
  }

  /** In every mode but one, decoding an encoding succeeds and returns the bytes; that mode refuses it over its pads. */
  lemma DecodeUndoesEncode(flags: Flags, d: seq<byte>)
    ensures var r := Decode(flags, Encode(d));
            && r.bytes == d
            && (r.success <==> !(StopsAtPad(flags) && flags.term == TermBuffer && |d| % 3 != 0))
  {
    hide DecodeQuanta;
    QuantaUndoEncode(flags, d);
  }

  /** Strict decoding accepts exactly the strings the encoder produces. */
  lemma StrictIff(s: seq<byte>)
    ensures Decode(DO_STRICT, s).success <==> s == Encode(Decode(DO_STRICT, s).bytes)
    ensures Decode(DO_STRICT, s).success <==> exists d :: s == Encode(d)
  {
    hide DecodeQuanta, Encode;
    var d := Decode(DO_STRICT, s);
    if d.success { StrictIsEncoded(s); }
    forall e | s == Encode(e) ensures d.success && d.bytes == e {
      DecodeUndoesEncode(DO_STRICT, e);
    }
  }

  // ----- Lax decoding -----

  predicate Noise(ch: byte) {
    DecodeTable(ch) == IL || DecodeTable(ch) == SP
  }

  function Filter(s: seq<byte>): (r: seq<byte>)
    ensures |r| <= |s|
  {
    if s == [] then [] else (if Noise(s[0]) then [] else [s[0]]) + Filter(s[1..])
  }

  /** The same scan, once over the string and once over its filtered form. */
  ghost predicate Alike(q: Scan, f: Scan) {
    q.six == f.six && q.padLen == f.padLen && f.rest == Filter(q.rest)
  }

  lemma {:induction false} NoiseScan(illegalPads: bool, q: Scan, f: Scan)
    requires |q.six| <= 4 && Alike(q, f)
    ensures Alike(ScanFrom(ParseAny, illegalPads, q), ScanFrom(ParseAny, illegalPads, f))
    ensures var r := ScanFrom(ParseAny, illegalPads, q); |r.six| == 4 || r.rest == []
    decreases |q.rest|
  {
    if |q.six| < 4 && q.rest != [] {
      hide ScanFrom, DecodeTable;
      ScanStep(ParseAny, illegalPads, q);
      TableRange(q.rest[0]);
      var r := OneChar(ParseAny, illegalPads, q).q;
      if Noise(q.rest[0]) {
        assert f.rest == Filter(r.rest);
        NoiseScan(illegalPads, r, f);
      } else {
        assert f.rest == [q.rest[0]] + Filter(r.rest);
        ScanStep(ParseAny, illegalPads, f);
        NoiseScan(illegalPads, r, OneChar(ParseAny, illegalPads, f).q);
      }
    }
  }

  lemma NoSextets()
    ensures QuantumBytes([]) == [] && UnusedBits([]) == 0
  {
  }

  lemma {:induction false} NoiseQuanta(flags: Flags, s: seq<byte>)
    requires flags.parse == ParseAny && flags.pad != PadYes
    ensures var d, f := DecodeQuanta(flags, s), DecodeQuanta(flags, Filter(s));
            d.success == f.success && d.bytes == f.bytes
    decreases |s|
  {
    hide ScanFrom, OneChar, QuantumBytes, UnusedBits, Fill;
    if s != [] {
      var t := Filter(s);
      var q, f := FirstScan(flags, s), FirstScan(flags, t);
      NoiseScan(flags.pad == PadNo, Scan([], 0, s, s), Scan([], 0, t, t));
      QuantaStep(flags, s);
      if t == [] {
        ScanEnds(ParseAny, flags.pad == PadNo, Scan([], 0, t, t));
        NoSextets();
      } else {
        QuantaStep(flags, t);
        if |q.six| == 4 { NoiseQuanta(flags, q.rest); }
      }
    }
  }

  /** Whatever is mixed into an encoding, the lax decoder returns the encoded bytes. */
  lemma LaxIgnoresNoise(s: seq<byte>, d: seq<byte>)
    requires Filter(s) == Encode(d)
    ensures Decode(DO_LAX, s).success && Decode(DO_LAX, s).bytes == d
  {
    hide DecodeQuanta, Encode, Filter;
    NoiseQuanta(DO_LAX, s);
    QuantaUndoEncode(DO_LAX, d);
  }

  // ----- The parse that allows whitespace -----

  predicate Space(ch: byte) {
    DecodeTable(ch) == SP
  }

  function Bare(s: seq<byte>): (r: seq<byte>)
    ensures |r| <= |s|
  {
    if s == [] then [] else (if Space(s[0]) then [] else [s[0]]) + Bare(s[1..])
  }

  /** A string that does not begin with whitespace. */
  ghost predicate Begins(s: seq<byte>) {
    s == [] || !Space(s[0])
  }

  /** The white scan of a string beside the strict scan of it without whitespace. */
  ghost predicate Beside(q: Scan, f: Scan) {
    && q.six == f.six && q.padLen == f.padLen && f.rest == Bare(q.rest)
    && (q.padLen > 0 ==> f.padStart == Bare(q.padStart) && q.padStart != [] && Begins(q.padStart))
  }

  /** b is what is left of a behind a character that is no whitespace. */
  ghost predicate Behind(a: seq<byte>, b: seq<byte>) {
    |b| < |a| && a[|a| - |b|..] == b && !Space(a[|a| - |b| - 1])
  }

  lemma BehindMore(a: seq<byte>, b: seq<byte>)
    requires a != [] && Behind(a[1..], b)
    ensures Behind(a, b)
  {
    assert a[|a| - |b|..] == a[1..][|a| - 1 - |b|..];
  }

  lemma {:induction false} WhiteScan(illegalPads: bool, q: Scan, f: Scan)
    requires |q.six| <= 4 && Beside(q, f)
    ensures var r, g := ScanFrom(ParseWhite, illegalPads, q), ScanFrom(ParseStrict, illegalPads, f);
            && Beside(r, g) && (|r.six| < 4 ==> Begins(r.rest))
            && (|q.six| < 4 == |r.six| ==> Behind(q.rest, r.rest))
    decreases |q.rest|
  {
    hide ScanFrom, DecodeTable;
    if |q.six| >= 4 || q.rest == [] {
      ScanEnds(ParseWhite, illegalPads, q);
      ScanEnds(ParseStrict, illegalPads, f);
    } else {
      ScanStep(ParseWhite, illegalPads, q);
      TableRange(q.rest[0]);
      if Space(q.rest[0]) {
        WhiteScan(illegalPads, q.(rest := q.rest[1..]), f);
        if |ScanFrom(ParseWhite, illegalPads, q).six| == 4 {
          BehindMore(q.rest, ScanFrom(ParseWhite, illegalPads, q).rest);
        }
      } else {
        WhiteChar(illegalPads, q, f);
      }
    }
  }

  lemma WhiteChar(illegalPads: bool, q: Scan, f: Scan)
    requires |q.six| < 4 && Beside(q, f) && q.rest != [] && !Space(q.rest[0])
    ensures var r, g := ScanFrom(ParseWhite, illegalPads, q), ScanFrom(ParseStrict, illegalPads, f);
            && Beside(r, g) && (|r.six| < 4 ==> Begins(r.rest))
            && (|r.six| == 4 ==> Behind(q.rest, r.rest))
    decreases |q.rest|, 0
  {
    hide ScanFrom, DecodeTable;
    ScanStep(ParseWhite, illegalPads, q);
    ScanStep(ParseStrict, illegalPads, f);
    TableRange(q.rest[0]);
    assert f.rest == [q.rest[0]] + Bare(q.rest[1..]) && f.rest[1..] == Bare(q.rest[1..]);
    match OneChar(ParseWhite, illegalPads, q)
    case Stop =>
    case Next(r) =>
      var g := OneChar(ParseStrict, illegalPads, f).q;
      WhiteScan(illegalPads, r, g);
      if |r.six| == 4 {
        ScanEnds(ParseWhite, illegalPads, r);
      } else if |ScanFrom(ParseWhite, illegalPads, q).six| == 4 {
        BehindMore(q.rest, ScanFrom(ParseWhite, illegalPads, q).rest);
      }
  }

  /** Whitespace at the end, with nothing open that it could pad. */
  ghost predicate Trails(flags: Flags, s: seq<byte>, bytes: seq<byte>) {
    flags.pad == PadYes && |bytes| % 3 == 0 && s != [] && Space(s[|s| - 1])
  }

  /** One quantum of the white parse beside one of the strict parse. */
  lemma WhiteTurn(flags: Flags, s: seq<byte>)
    requires flags.parse == ParseWhite && s != []
    ensures var q, g := FirstScan(flags, s), FirstScan(flags.(parse := ParseStrict), Bare(s));
            && Beside(q, g) && AfterQuantum(g) == Bare(AfterQuantum(q))
            && (|q.six| < 4 ==> Begins(AfterQuantum(q)))
            && (|q.six| == 4 ==> Behind(s, q.rest))
            && (Padded(q) ==> |q.six| >= 2)
  {
    var t := Bare(s);
    hide ScanFrom, DecodeTable;
    WhiteScan(flags.pad == PadNo, Scan([], 0, s, s), Scan([], 0, t, t));
    PadsAfterTwo(ParseWhite, flags.pad == PadNo, Scan([], 0, s, s));
    PadsLeaveRoom(ParseWhite, flags.pad == PadNo, Scan([], 0, s, s));
  }

  /** A string of whitespace only. */
  lemma WhiteEnds(flags: Flags, s: seq<byte>)
    requires flags.parse == ParseWhite && s != [] && Bare(s) == []
    ensures DecodeQuanta(flags, s) == Decoded(flags.pad != PadYes, [], AfterQuantum(FirstScan(flags, s)))
    ensures Bare(AfterQuantum(FirstScan(flags, s))) == []
  {
    hide ScanFrom, OneChar, QuantumBytes, UnusedBits, Fill, DecodeTable;
    WhiteTurn(flags, s);
    QuantaStep(flags, s);
    ScanEnds(ParseStrict, flags.pad == PadNo, Scan([], 0, [], []));
    NoSextets();
  }

  lemma {:induction false} WhiteQuanta(flags: Flags, s: seq<byte>)
    requires flags.parse == ParseWhite
    ensures var d, e := DecodeQuanta(flags, s), DecodeQuanta(flags.(parse := ParseStrict), Bare(s));
            && d.bytes == e.bytes && e.rest == Bare(d.rest) && Begins(d.rest)
            && (d.success <==> e.success && !Trails(flags, s, d.bytes))
    decreases |s|
  {
    hide FirstScan, AfterQuantum, QuantumBytes, UnusedBits, DecodeTable, DecodeQuanta;
    var strict := flags.(parse := ParseStrict);
    if s == [] {
      NoQuanta(flags);
      NoQuanta(strict);
    } else {
      var q := FirstScan(flags, s);
      WhiteTurn(flags, s);
      if Bare(s) == [] {
        AllSpace(s);
        WhiteEnds(flags, s);
        NoQuanta(strict);
        StrictNone(strict);
      } else {
        QuantaStep(flags, s);
        QuantaStep(strict, Bare(s));
        QuantumSize(q.six);
        if |q.six| == 4 {
          WhiteQuanta(flags, q.rest);
          LastChar(s, q.rest);
        }
      }
    }
  }

  lemma StrictNone(flags: Flags)
    ensures FirstScan(flags, []).six == []
  {
  }

  lemma LastChar(a: seq<byte>, b: seq<byte>)
    requires Behind(a, b)
    ensures a != [] && (Space(a[|a| - 1]) <==> b != [] && Space(b[|b| - 1]))
  {
    if b != [] { assert a[|a| - |b|..][|b| - 1] == a[|a| - 1]; }
  }

  /** Pads are only counted behind two characters. */
  lemma {:induction false} PadsAfterTwo(parse: ParseFlag, illegalPads: bool, q: Scan)
    requires |q.six| <= 4 && (q.padLen > 0 ==> |q.six| >= 2)
    ensures var r := ScanFrom(parse, illegalPads, q); r.padLen > 0 ==> |r.six| >= 2
    decreases |q.rest|
  {
    if |q.six| < 4 && q.rest != [] {
      match OneChar(parse, illegalPads, q)
      case Stop =>
      case Next(r) => PadsAfterTwo(parse, illegalPads, r);
    }
  }

  lemma QuantumSize(six: seq<Sextet>)
    requires |six| <= 4
    ensures |QuantumBytes(six)| == if |six| < 2 then 0 else |six| - 1
  {
  }

  lemma {:induction false} AllSpace(s: seq<byte>)
    requires Bare(s) == [] && s != []
    ensures Space(s[|s| - 1])
  {
    if |s| > 1 {
      AllSpace(s[1..]);
    }
  }

  /**
   The parse that allows whitespace is the strict parse of the string without its whitespace, but
   that whitespace behind complete quanta makes it expect padding where padding is required.
   */
  lemma WhiteIsStrict(flags: Flags, s: seq<byte>)
    requires flags.parse == ParseWhite
    ensures var d, e := Decode(flags, s), Decode(flags.(parse := ParseStrict), Bare(s));
            && d.bytes == e.bytes && e.rest == Bare(d.rest)
            && (d.success <==>
                  e.success && !(flags.pad == PadYes && |d.bytes| % 3 == 0 && s != [] && Space(s[|s| - 1])))
  {
    WhiteQuanta(flags, s);
  }

  // ----- The source's bit expressions -----

  lemma DisjointOr(x: nat, y: nat, k: nat)
    requires y < Pow2(k)
    ensures Or(Shl(x, k), y) == Shl(x, k) + y
    decreases k
  {
    if k > 0 && x > 0 && y > 0 {
      ShlPositive(x, k - 1);
      DisjointOr(x, y / 2, k - 1);
    }
  }

  lemma {:induction false} ShlPositive(x: nat, k: nat)
    ensures x > 0 ==> Shl(x, k) > 0
    ensures x == 0 ==> Shl(x, k) == 0
  {
    if k > 0 { ShlPositive(x, k - 1); }
  }

  lemma {:induction false} ShlIs(x: nat, n: nat)
    ensures Shl(x, n) == x * Pow2(n)
  {
    if n > 0 { ShlIs(x, n - 1); }
  }

  lemma Powers()
    ensures Pow2(1) == 2 && Pow2(2) == 4 && Pow2(3) == 8 && Pow2(4) == 16 && Pow2(5) == 32 && Pow2(6) == 64
  {
  }

  lemma {:induction false} AndLow(x: nat, n: nat)
    ensures Pow2(n) > 0 && And(x, Pow2(n) - 1) == Low(x, n)
    decreases n
  {
    PowPos(n);
    if n > 0 && x > 0 { AndLow(x / 2, n - 1); }
  }

  /** A shift to the right is a quotient, and a mask of low ones a remainder. */
  lemma ShrAndMask(x: nat, n: nat)
    requires n == 2 || n == 4 || n == 6
    ensures Pow2(n) > 0 && Shr(x, n) == x / Pow2(n) && And(x, Pow2(n) - 1) == x % Pow2(n)
  {
    hide And, Shr, Low, Pow2;
    Powers();
    AndLow(x, n);
    LowIsMod(x, n);
    LowBound(x, n);
    Halves(Shr(x, n), Low(x, n), Pow2(n));
  }

  lemma {:induction false} AndShl(x: nat, y: nat, n: nat)
    ensures And(Shl(x, n), Shl(y, n)) == Shl(And(x, y), n)
  {
    if n > 0 { AndShl(x, y, n - 1); }
  }

  /** What the encoder shifts, masks and ors together is what EncodeGroup computes. */
  lemma EncoderBits(b0: byte, b1: byte, b2: byte)
    ensures And(Shr(b0, 2), 0x3f) == b0 / 4
    ensures Or(And(Shl(b0, 4), 0x3f), And(Shr(b1, 4), 0x0f)) == (b0 * 16) % 64 + b1 / 16
    ensures Or(And(Shl(b1, 2), 0x3f), And(Shr(b2, 6), 0x03)) == (b1 * 4) % 64 + b2 / 64
    ensures And(b2, 0x3f) == b2 % 64
  {
    hide And, Or, Shl, Shr, Pow2;
    Powers();
    ShrAndMask(b0, 2);
    ShrAndMask(Shr(b0, 2), 6);
    ShrAndMask(b2, 6);
    SecondSextet(b0, b1);
    ThirdSextet(b1, b2);
  }

  lemma SecondSextet(b0: byte, b1: byte)
    ensures Or(And(Shl(b0, 4), 0x3f), And(Shr(b1, 4), 0x0f)) == (b0 * 16) % 64 + b1 / 16
  {
    hide And, Or, Shl, Shr, Pow2;
    Powers();
    ShlIs(b0, 4);
    ShrAndMask(Shl(b0, 4), 6);
    ShrAndMask(b1, 4);
    ShrAndMask(Shr(b1, 4), 4);
    Masks(b0);
    ShlIs(b0 % 4, 4);
    DisjointOr(b0 % 4, b1 / 16, 4);
  }

  lemma ThirdSextet(b1: byte, b2: byte)
    ensures Or(And(Shl(b1, 2), 0x3f), And(Shr(b2, 6), 0x03)) == (b1 * 4) % 64 + b2 / 64
  {
    hide And, Or, Shl, Shr, Pow2;
    Powers();
    ShlIs(b1, 2);
    ShrAndMask(Shl(b1, 2), 6);
    ShrAndMask(b2, 6);
    ShrAndMask(Shr(b2, 6), 2);
    Masks(b1);
    ShlIs(b1 % 16, 2);
    DisjointOr(b1 % 16, b2 / 64, 2);
  }

  /** What the decoder shifts, masks and ors together is what QuantumBytes computes. */
  lemma DecoderBits(q0: Sextet, q1: Sextet, q2: Sextet, q3: Sextet)
    ensures Or(Shl(q0, 2), And(Shr(q1, 4), 0x3)) == q0 * 4 + q1 / 16
    ensures Or(And(Shl(q1, 4), 0xf0), And(Shr(q2, 2), 0xf)) == (q1 * 16) % 256 + q2 / 4
    ensures Or(And(Shl(q2, 6), 0xc0), q3) == (q2 * 64) % 256 + q3
  {
    hide And, Or, Shl, Shr, Pow2;
    Powers();
    ShlIs(q0, 2);
    ShrAndMask(q1, 4);
    ShrAndMask(Shr(q1, 4), 2);
    DisjointOr(q0, q1 / 16, 2);
    ShlIs(15, 4);
    AndShl(q1, 15, 4);
    ShrAndMask(q1, 4);
    Masks(q1);
    ShlIs(q1 % 16, 4);
    ShrAndMask(q2, 2);
    ShrAndMask(Shr(q2, 2), 4);
    DisjointOr(q1 % 16, q2 / 4, 4);
    ShlIs(3, 6);
    AndShl(q2, 3, 6);
    ShrAndMask(q2, 2);
    Masks(q2);
    ShlIs(q2 % 4, 6);
    DisjointOr(q2 % 4, q3, 6);
  }
}

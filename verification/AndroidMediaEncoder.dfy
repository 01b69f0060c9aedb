/**
 androidmediaencoder_jni.cc: splitting an encoded H.264 frame (byte stream format, clause B.1 of
 ITU-T H.264) into NAL units for the RTP fragmentation header.  Only four-byte start codes count,
 and one that ends the payload does not.
 */
module AndroidMediaEncoder {
  import opened Words

  const H264_SC_LENGTH: nat := 4
  const MAX_NALUS_PERFRAME: nat := 32

  const START_CODE: seq<byte> := [0, 0, 0, 1]

  ghost predicate StartCodeAt(d: seq<byte>, i: int) {
    0 <= i < |d| - H264_SC_LENGTH && d[i] == 0 && d[i + 1] == 0 && d[i + 2] == 0 && d[i + 3] == 1
  }

  /** Where the search that begins at `from` ends: the least start code there is, or -1, relative to `from`. */
  method NextNaluPosition(payload: seq<byte>, from: nat) returns (r: int)
    requires from <= |payload|
    ensures r == -1 || 0 <= r
    ensures r == -1 ==> forall i | from <= i :: !StartCodeAt(payload, i)
    ensures r >= 0 ==> StartCodeAt(payload, from + r) && forall i | from <= i < from + r :: !StartCodeAt(payload, i)
  {
    if |payload| - from < H264_SC_LENGTH {
      return -1;
    }
    var head, end := from, |payload| - H264_SC_LENGTH;
    while head < end
      invariant from <= head
      invariant forall i | from <= i < head :: !StartCodeAt(payload, i)
      decreases end - head
    {
      if payload[head] != 0 {
        head := head + 1;
      } else if payload[head + 1] != 0 {
        head := head + 2;
      } else if payload[head + 2] != 0 {
        head := head + 3;
      } else if payload[head + 3] != 1 {
        head := head + 1;
      } else {
        return head - from;
      }
    }
    return -1;
  }

  /** All start codes from `from` on, in order. */
  ghost function StartCodes(d: seq<byte>, from: nat): seq<nat>
    decreases |d| - from
  {
    if from >= |d| then []
    else (if StartCodeAt(d, from) then [from] else []) + StartCodes(d, from + 1)
  }

  lemma {:induction false} NoneBefore(d: seq<byte>, from: nat, until: nat)
    requires from <= until && forall i | from <= i < until :: !StartCodeAt(d, i)
    ensures StartCodes(d, from) == StartCodes(d, until)
    decreases until - from
  {
    if from < until && from < |d| { NoneBefore(d, from + 1, until); }
  }

  lemma NoStartCodes(d: seq<byte>)
    ensures StartCodes(d, |d|) == []
  {
  }

  /** Start codes do not overlap, so the search may go on behind one. */
  lemma AfterStartCode(d: seq<byte>, p: nat)
    requires StartCodeAt(d, p)
    ensures StartCodes(d, p) == [p] + StartCodes(d, p + H264_SC_LENGTH)
  {
    NoneBefore(d, p + 1, p + H264_SC_LENGTH);
  }

  /** Exactly the start codes are listed. */
  lemma {:induction false} StartCodesAre(d: seq<byte>, from: nat, i: nat)
    ensures i in StartCodes(d, from) <==> from <= i && StartCodeAt(d, i)
    decreases |d| - from
  {
    if from < |d| { StartCodesAre(d, from + 1, i); }
  }

  /** They are listed in order, and lie apart. */
  lemma {:induction false} StartCodesApart(d: seq<byte>, from: nat)
    ensures Positions(d, StartCodes(d, from))
    ensures forall k | 0 <= k < |StartCodes(d, from)| :: from <= StartCodes(d, from)[k]
    decreases |d| - from
  {
    if from < |d| {
      if StartCodeAt(d, from) {
        AfterStartCode(d, from);
        StartCodesApart(d, from + H264_SC_LENGTH);
      } else {
        StartCodesApart(d, from + 1);
      }
    }
  }

  function FirstOf<T>(s: seq<T>, n: nat): seq<T> {
    if |s| <= n then s else s[..n]
  }

  /** The loop that fills scPositions. */
  method FindStartCodes(payload: seq<byte>, scPositions: array<int>) returns (n: nat)
    requires scPositions.Length == MAX_NALUS_PERFRAME + 1
    modifies scPositions
    ensures n <= MAX_NALUS_PERFRAME
    ensures scPositions[..n] == FirstOf(StartCodes(payload, 0), MAX_NALUS_PERFRAME)
  {
    hide StartCodes, StartCodeAt;
    n := 0;
    var scPosition := 0;
    ghost var all := StartCodes(payload, 0);
    assert scPositions[..0] == [];
    while n < MAX_NALUS_PERFRAME
      invariant n <= MAX_NALUS_PERFRAME && 0 <= scPosition <= |payload|
      invariant scPositions[..n] + StartCodes(payload, scPosition) == all
      decreases MAX_NALUS_PERFRAME - n
    {
      var naluPosition := NextNaluPosition(payload, scPosition);
      if naluPosition < 0 {
        NoneBefore(payload, scPosition, |payload|);
        NoStartCodes(payload);
        break;
      }
      NoneBefore(payload, scPosition, scPosition + naluPosition);
      AfterStartCode(payload, scPosition + naluPosition);
      scPosition := scPosition + naluPosition;
      ghost var before := scPositions[..n];
      scPositions[n] := scPosition;
      n := n + 1;
      assert scPositions[..n] == before + [scPosition];
      scPosition := scPosition + H264_SC_LENGTH;
    }
    assert n < MAX_NALUS_PERFRAME ==> StartCodes(payload, scPosition) == [];
  }

  // ----- Fragments -----

  datatype Fragment = Fragment(offset: int, length: int)

  /** No fragment has a negative length or leaves the payload. */
  ghost predicate Inside(d: seq<byte>, fs: seq<Fragment>) {
    forall i | 0 <= i < |fs| :: 0 <= fs[i].offset && 0 <= fs[i].length && fs[i].offset + fs[i].length <= |d|
  }

  /** Fragments follow one another; before each there is a start code, and the last ends the payload. */
  ghost function Rebuilt(d: seq<byte>, fs: seq<Fragment>): seq<byte>
    requires Inside(d, fs)
  {
    if fs == [] then []
    else START_CODE + d[fs[0].offset..fs[0].offset + fs[0].length] + Rebuilt(d, fs[1..])
  }

  /** The fragments cut at the positions `sc`, the last one reaching to the end. */
  ghost function Cut(sc: seq<int>, size: nat): seq<Fragment> {
    seq(|sc|, i requires 0 <= i < |sc| =>
      Fragment(sc[i] + H264_SC_LENGTH, (if i + 1 < |sc| then sc[i + 1] else size) - (sc[i] + H264_SC_LENGTH)))
  }

  /** The fragmentation header, or nothing if there is no start code. */
  method Fragments(payload: seq<byte>) returns (found: bool, offset: array<int>, length: array<int>)
    ensures found <==> StartCodes(payload, 0) != []
    ensures found ==> offset.Length == length.Length
                      && Pairs(offset[..], length[..]) == Cut(Kept(payload), |payload|)
  {
    var scPositions := new int[MAX_NALUS_PERFRAME + 1];
    var n := FindStartCodes(payload, scPositions);
    offset, length := new int[n], new int[n];
    if n == 0 {
      return false, offset, length;
    }
    ghost var sc := scPositions[..n];
    scPositions[n] := |payload|;
    assert scPositions[..n] == sc;
    for i := 0 to n
      invariant scPositions[..n] == sc && scPositions[n] == |payload|
      invariant forall k | 0 <= k < i :: Fragment(offset[k], length[k]) == Cut(sc, |payload|)[k]
    {
      assert scPositions[i] == sc[i] && (i + 1 < n ==> scPositions[i + 1] == sc[i + 1]);
      offset[i] := scPositions[i] + H264_SC_LENGTH;
      length[i] := scPositions[i + 1] - offset[i];
    }
    found := true;
  }

  ghost function Pairs(offset: seq<int>, length: seq<int>): seq<Fragment>
    requires |offset| == |length|
  {
    seq(|offset|, i requires 0 <= i < |offset| => Fragment(offset[i], length[i]))
  }

  /** `sc` lists start codes of d, apart from one another and in order. */
  ghost predicate Positions(d: seq<byte>, sc: seq<int>) {
    && (forall i | 0 <= i < |sc| :: StartCodeAt(d, sc[i]))
    && (forall i, j | 0 <= i < j < |sc| :: sc[i] + H264_SC_LENGTH <= sc[j])
  }

  lemma CutInside(d: seq<byte>, sc: seq<int>)
    requires Positions(d, sc)
    ensures Inside(d, Cut(sc, |d|))
  {
  }

  /** From one start code up to another position. */
  lemma Piece(d: seq<byte>, p: nat, q: nat)
    requires StartCodeAt(d, p) && p + H264_SC_LENGTH <= q <= |d|
    ensures d[p..] == START_CODE + d[p + H264_SC_LENGTH..q] + d[q..]
  {
    assert d[p..p + 4] == START_CODE;
  }

  lemma CutTail(sc: seq<int>, size: nat)
    requires sc != []
    ensures Cut(sc, size)[1..] == Cut(sc[1..], size)
  {
  }

  lemma FirstFragment(d: seq<byte>, sc: seq<int>, q: nat)
    requires Positions(d, sc) && sc != [] && q == if |sc| == 1 then |d| else sc[1]
    ensures Inside(d, Cut(sc, |d|)) && Inside(d, Cut(sc[1..], |d|))
    ensures Cut(sc, |d|) != [] && Cut(sc, |d|)[0] == Fragment(sc[0] + 4, q - (sc[0] + 4))
    ensures Cut(sc, |d|)[1..] == Cut(sc[1..], |d|)
    ensures q <= |d| && d[sc[0]..] == START_CODE + d[sc[0] + 4..q] + d[q..]
  {
    CutInside(d, sc);
    CutInside(d, sc[1..]);
    CutTail(sc, |d|);
    Piece(d, sc[0], q);
  }

  lemma NoFragment(d: seq<byte>)
    ensures Inside(d, Cut([], |d|)) && Rebuilt(d, Cut([], |d|)) == []
  {
  }

  lemma {:induction false} CutRebuilds(d: seq<byte>, sc: seq<int>)
    requires Positions(d, sc) && sc != []
    ensures Inside(d, Cut(sc, |d|))
    ensures Rebuilt(d, Cut(sc, |d|)) == d[sc[0]..]
    decreases |sc|
  {
    var q := if |sc| == 1 then |d| else sc[1];
    FirstFragment(d, sc, q);
    if |sc| == 1 {
      NoFragment(d);
    } else {
      CutRebuilds(d, sc[1..]);
    }
    hide Inside, Cut, Positions, StartCodeAt;
  }

  /** Between neighbours in the list there is no start code. */
  lemma NoneBetween(d: seq<byte>, k: nat, p: nat)
    requires k <= |StartCodes(d, 0)|
    requires k < |StartCodes(d, 0)| ==> p < StartCodes(d, 0)[k]
    requires k > 0 ==> StartCodes(d, 0)[k - 1] < p
    ensures !StartCodeAt(d, p)
  {
    hide StartCodeAt, StartCodes;
    StartCodesAre(d, 0, p);
    StartCodesApart(d, 0);
  }

  /** The positions the encoder keeps: all start codes, or the first MAX_NALUS_PERFRAME of them. */
  ghost function Kept(d: seq<byte>): (sc: seq<int>)
  {
    FirstOf(StartCodes(d, 0), MAX_NALUS_PERFRAME)
  }

  lemma KeptPositions(d: seq<byte>)
    ensures Positions(d, Kept(d))
    ensures Kept(d) == [] <==> StartCodes(d, 0) == []
    ensures Kept(d) != [] ==> Kept(d)[0] == StartCodes(d, 0)[0]
  {
    hide StartCodeAt, StartCodes;
    StartCodesApart(d, 0);
  }

  /**
   A start code is the bytes 0, 0, 0, 1 with something behind them.  A payload with at most 32 of them
   has a fragment for each; with more it has 32.
   */
  lemma EachHasFragment(d: seq<byte>, p: nat)
    ensures StartCodeAt(d, p) <==> p + 4 < |d| && d[p..p + 4] == [0, 0, 0, 1]
    ensures var n, fs := |StartCodes(d, 0)|, Cut(Kept(d), |d|);
            && |fs| == (if n <= 32 then n else 32)
            && (n <= 32 && StartCodeAt(d, p) ==> exists i | 0 <= i < |fs| :: fs[i].offset == p + 4)
  {
    StartCodesAre(d, 0, p);
    if p + 4 < |d| { assert d[p..p + 4] == [d[p], d[p + 1], d[p + 2], d[p + 3]]; }
    hide StartCodes, StartCodeAt;
    var all, fs := StartCodes(d, 0), Cut(Kept(d), |d|);
    if |all| <= 32 && p in all {
      var i :| 0 <= i < |all| && all[i] == p;
      assert fs[i].offset == p + 4;
    }
  }

  /**
   The fragments of a payload are in order and apart and never of negative length; put back behind
   start codes they give the payload from its first start code on, capped or not.
   */
  lemma SplitIsLossless(d: seq<byte>)
    requires StartCodes(d, 0) != []
    ensures 0 <= StartCodes(d, 0)[0] <= |d|
    ensures var fs := Cut(Kept(d), |d|);
            && Inside(d, fs)
            && (forall i | 0 <= i < |fs| - 1 :: fs[i].offset + fs[i].length + H264_SC_LENGTH == fs[i + 1].offset)
            && Rebuilt(d, fs) == d[StartCodes(d, 0)[0]..]
  {
    KeptPositions(d);
    CutRebuilds(d, Kept(d));
  }

  /** No start code is missed: none before the first fragment, and none in a fragment but the last of a capped list. */
  lemma SplitIsComplete(d: seq<byte>, i: nat, p: nat)
    requires var fs := Cut(Kept(d), |d|);
             && i <= |fs|
             && (i < |fs| ==> p < fs[i].offset - H264_SC_LENGTH)
             && (i > 0 ==> fs[i - 1].offset - H264_SC_LENGTH < p)
             && (i == MAX_NALUS_PERFRAME ==> |StartCodes(d, 0)| <= MAX_NALUS_PERFRAME)
    ensures !StartCodeAt(d, p)
  {
    hide StartCodeAt, StartCodes;
    NoneBetween(d, i, p);
  }
}

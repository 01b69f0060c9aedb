/**
 anyrtmpush.cc: pushing encoded audio and video to an RTMP server.  The library calls that may
 succeed or fail give an Outcome; each handler (a turn of Run, a call from the encoder) is one
 step.  `trace` records the callbacks and the items taken from the queue.
 */
module AnyRtmpPush {
  import opened Common
  import opened Words

  const MAX_RETRY_TIME: nat := 3

  datatype Status = RS_STM_Init | RS_STM_Handshaked | RS_STM_Connected | RS_STM_Published | RS_STM_Closed

  datatype Kind = VIDEO_DATA | AUDIO_DATA | META_DATA

  datatype EncData = EncData(kind: Kind, data: seq<byte>, dts: uint32)

  datatype Happening =
    | OnRtmpConnected
    | OnRtmpReconnecting(times: nat)
    | OnRtmpDisconnect
    | OnRtmpStatusEvent
    | Took(item: EncData)

  // ----- Splitting a key frame -----

  /** A start code of three or four bytes. */
  ghost predicate Hit(p: seq<byte>, i: nat)
    requires i + 4 < |p|
  {
    p[i] == 0 && p[i + 1] == 0 && ((p[i + 2] == 0 && p[i + 3] == 1) || p[i + 2] == 1)
  }

  /** The least hit from i on that the scan can see, or |p|. */
  ghost function NextHit(p: seq<byte>, i: nat): (j: nat)
    ensures j == |p| || (i <= j && j + 4 < |p| && Hit(p, j))
    ensures forall k | i <= k < j && k + 4 < |p| :: !Hit(p, k)
    decreases |p| - i
  {
    if i + 4 >= |p| then |p| else if Hit(p, i) then i else NextHit(p, i + 1)
  }

  lemma NextHitStep(p: seq<byte>, i: nat)
    ensures NextHit(p, i) == if i + 4 >= |p| then |p| else if Hit(p, i) then i else NextHit(p, i + 1)
  {
  }

  ghost function NalType(p: seq<byte>, i: nat): byte
    requires i + 4 < |p|
  {
    p[i + if p[i + 2] == 1 then 3 else 4] % 32
  }

  datatype Parts = Parts(sps: seq<byte>, pps: seq<byte>, idr: seq<byte>)

  /** What the scan makes of a frame whose first NAL unit is a sequence parameter set. */
  ghost function Split(p: seq<byte>): Parts {
    var find7 := NextHit(p, 4);
    if find7 == |p| then Parts([], [], [])
    else
      var find8 := NextHit(p, find7 + 2);
      if find8 == |p| then Parts(p[..find7], [], [])
      else if NalType(p, find8) == 5 then Parts(p[..find7], p[find7..find8], p[find8..])
      else Parts(p[..find7], p[find7..find8], p[NextHit(p, find8 + 1)..])
  }

  /** The scan has reached i and found this much; the IDR part is still open. */
  ghost predicate Scanned(p: seq<byte>, i: nat, find7: nat, find8: nat, sps: seq<byte>, pps: seq<byte>) {
    && i >= 4
    && (find7 == 0 ==> find8 == 0 && sps == [] && pps == [] && NextHit(p, i) == NextHit(p, 4))
    && (find7 != 0 ==> find7 == NextHit(p, 4) < |p| && sps == p[..find7])
    && (find7 != 0 && find8 == 0 ==> pps == [] && NextHit(p, i) == NextHit(p, find7 + 2))
    && (find8 != 0 ==>
          && find8 == NextHit(p, find7 + 2) < |p| && pps == p[find7..find8]
          && NalType(p, find8) != 5 && NextHit(p, i) == NextHit(p, find8 + 1))
  }

  lemma ScanPasses(p: seq<byte>, i: nat, find7: nat, find8: nat, sps: seq<byte>, pps: seq<byte>)
    requires Scanned(p, i, find7, find8, sps, pps)
    ensures i + 4 < |p| && !Hit(p, i) ==> Scanned(p, i + 1, find7, find8, sps, pps)
    ensures i + 4 < |p| && Hit(p, i) && find7 == 0 ==> Scanned(p, i + 2, i, 0, p[..i], [])
    ensures i + 4 >= |p| ==> Split(p) == Parts(sps, pps, [])
  {
    NextHitStep(p, i);
    hide NextHit, Hit, NalType;
  }

  lemma ScanFinds(p: seq<byte>, i: nat, find7: nat, find8: nat, sps: seq<byte>, pps: seq<byte>)
    requires Scanned(p, i, find7, find8, sps, pps) && i + 4 < |p| && Hit(p, i) && find7 != 0
    ensures find8 == 0 && NalType(p, i) != 5 ==> find7 <= i && Scanned(p, i + 1, find7, i, sps, p[find7..i])
    ensures find8 == 0 && NalType(p, i) == 5 ==> find7 <= i && Split(p) == Parts(sps, p[find7..i], p[i..])
    ensures find8 != 0 ==> Split(p) == Parts(sps, pps, p[i..])
  {
    NextHitStep(p, i);
    hide NextHit, Hit, NalType;
  }

  /** The scanning loop of SetH264Data. */
  method SplitKeyFrame(p: seq<byte>) returns (sps: seq<byte>, pps: seq<byte>, idr: seq<byte>)
    requires |p| > 4
    ensures Parts(sps, pps, idr) == Split(p)
  {
    var len := |p|;
    var find7, find8 := 0, 0;
    sps, pps, idr := [], [], [];
    var i := 4;
    assert Scanned(p, i, find7, find8, sps, pps);
    hide Scanned, Split, NextHit;
    while i < len - 4
      invariant 4 <= i && idr == []
      invariant Scanned(p, i, find7, find8, sps, pps)
    {
      ScanPasses(p, i, find7, find8, sps, pps);
      if (p[i] == 0 && p[i + 1] == 0 && p[i + 2] == 0 && p[i + 3] == 1)
         || (p[i] == 0 && p[i + 1] == 0 && p[i + 2] == 1) {
        var head01 := if p[i + 2] == 1 then 3 else 4;
        if find7 == 0 {
          find7 := i;
          sps := p[..find7];
          i := i + 1;
        } else if find8 == 0 {
          ScanFinds(p, i, find7, find8, sps, pps);
          find8 := i;
          pps := p[find7..find8];
          if p[i + head01] % 32 == 5 {
            idr := p[find8..];
            return;
          }
        } else {
          ScanFinds(p, i, find7, find8, sps, pps);
          idr := p[i..];
          return;
        }
      }
      i := i + 1;
    }
    ScanPasses(p, i, find7, find8, sps, pps);
  }

  lemma ThreeCuts(p: seq<byte>, a: nat, b: nat, c: nat)
    requires a <= b <= c <= |p|
    ensures p[..a] + p[a..b] + p[c..] == p <==> c == b
  {
    if c > b { assert |p[..a] + p[a..b] + p[c..]| < |p|; }
  }

  lemma NextHitLater(p: seq<byte>, i: nat)
    requires i <= |p|
    ensures i <= NextHit(p, i) <= |p|
  {
  }

  /** The parts make up the frame exactly when an IDR slice follows the second start code behind its own first one. */
  lemma SplitLossless(p: seq<byte>)
    requires |p| > 4
    ensures var s, find7 := Split(p), NextHit(p, 4);
            s.sps + s.pps + s.idr == p <==>
            find7 < |p| && NextHit(p, find7 + 2) < |p| && NalType(p, NextHit(p, find7 + 2)) == 5
  {
    var find7 := NextHit(p, 4);
    hide NextHit, NalType, Hit;
    if find7 == |p| {
      assert |Split(p).sps + Split(p).pps + Split(p).idr| == 0;
    } else {
      var find8 := NextHit(p, find7 + 2);
      if find8 == |p| {
        assert |Split(p).sps + Split(p).pps + Split(p).idr| == find7;
      } else {
        NextHitLater(p, find8 + 1);
        ThreeCuts(p, find7, find8, if NalType(p, find8) == 5 then find8 else NextHit(p, find8 + 1));
      }
    }
  }

  /** The bytes of a key frame that end up in none of its parts. */
  ghost function Dropped(p: seq<byte>): seq<byte>
    requires |p| > 4
  {
    var find7 := NextHit(p, 4);
    if find7 == |p| then p
    else
      var find8 := NextHit(p, find7 + 2);
      if find8 == |p| then p[find7..]
      else if NalType(p, find8) == 5 then []
      else
        NextHitLater(p, find8 + 1);
        p[find8..NextHit(p, find8 + 1)]
  }

  lemma FourCuts(p: seq<byte>, a: nat, b: nat, c: nat)
    requires a <= b <= c <= |p|
    ensures p[..a] + p[a..b] + p[b..c] + p[c..] == p
  {
  }

  lemma Ends<T>(p: seq<T>, a: nat)
    requires a <= |p|
    ensures p[..0] == [] == p[a..a] == p[|p|..] && p[0..|p|] == p && p[a..|p|] == p[a..]
  {
  }

  /** Where the three parts and the dropped bytes are cut from the frame. */
  lemma SplitCuts(p: seq<byte>) returns (a: nat, b: nat, c: nat)
    requires |p| > 4
    ensures a <= b <= c <= |p|
    ensures Split(p) == Parts(p[..a], p[a..b], p[c..]) && Dropped(p) == p[b..c]
  {
    var find7 := NextHit(p, 4);
    if find7 == |p| {
      hide NextHit, NalType, Hit;
      Ends(p, 0);
      a, b, c := 0, 0, |p|;
    } else {
      var find8 := NextHit(p, find7 + 2);
      if find8 == |p| {
        hide NextHit, NalType, Hit;
        Ends(p, find7);
        a, b, c := find7, find7, |p|;
      } else {
        a, b := find7, find8;
        c := TwoCuts(p, find7, find8);
      }
    }
  }

  lemma TwoCuts(p: seq<byte>, find7: nat, find8: nat) returns (c: nat)
    requires |p| > 4 && find7 == NextHit(p, 4) < |p| && find8 == NextHit(p, find7 + 2) < |p|
    ensures find7 <= find8 <= c <= |p|
    ensures Split(p) == Parts(p[..find7], p[find7..find8], p[c..]) && Dropped(p) == p[find8..c]
  {
    hide NextHit, NalType, Hit;
    Ends(p, find8);
    NextHitLater(p, find8 + 1);
    c := if NalType(p, find8) == 5 then find8 else NextHit(p, find8 + 1);
  }

  /** The parts and what is dropped before the third one are the frame. */
  lemma SplitAccounts(p: seq<byte>)
    requires |p| > 4
    ensures Split(p).sps + Split(p).pps + Dropped(p) + Split(p).idr == p
  {
    hide Split, Dropped;
    var a, b, c := SplitCuts(p);
    FourCuts(p, a, b, c);
  }

  /**
   What is dropped at the second start code behind the frame's own: nothing before an IDR slice;
   otherwise the leading zero of a start code of four bytes, so that no NAL unit is lost, or the
   whole of a start code of three bytes with its NAL unit, up to the next start code.  (A four-byte
   start code so near the end that the scan cannot see it again goes with the one byte behind it.)
   */
  lemma SplitDrops(p: seq<byte>, find7: nat, find8: nat)
    requires |p| > 4 && find7 == NextHit(p, 4) < |p| && find8 == NextHit(p, find7 + 2) < |p|
    ensures Dropped(p) ==
            if NalType(p, find8) == 5 then []
            else if p[find8 + 2] == 0 && find8 + 5 < |p| then [0]
            else p[find8..NextHitAfter(p, find8)]
  {
    NextHitLater(p, find8 + 1);
    NextAfterHit(p, find8);
    hide NextHit, NalType, Hit;
  }

  /** The next start code that lies wholly behind one of three bytes at i. */
  ghost function NextHitAfter(p: seq<byte>, i: nat): (j: nat)
    requires i + 4 < |p|
    ensures i + 3 <= j <= |p|
  {
    NextHitLater(p, i + 3);
    NextHit(p, i + 3)
  }

  /** Behind a start code of four bytes the scan sees its last three again; behind one of three it goes on past it. */
  lemma NextAfterHit(p: seq<byte>, i: nat)
    requires i + 4 < |p| && Hit(p, i)
    ensures p[i + 2] == 0 && i + 5 < |p| ==> NextHit(p, i + 1) == i + 1 && p[i..i + 1] == [0]
    ensures !(p[i + 2] == 0 && i + 5 < |p|) ==> NextHit(p, i + 1) == NextHit(p, i + 3)
  {
    NextHitStep(p, i + 1);
    NextHitStep(p, i + 2);
    NextHitStep(p, i + 3);
  }

  // ----- Frames as an encoder writes them -----

  /** A NAL unit: no start code inside, and no trailing zero. */
  ghost predicate NalUnit(b: seq<byte>) {
    && b != [] && b[|b| - 1] != 0
    && (forall i | 0 <= i < |b| - 2 :: !(b[i] == 0 && b[i + 1] == 0 && b[i + 2] == 1))
  }

  function StartCode(four: bool): seq<byte> {
    if four then [0, 0, 0, 1] else [0, 0, 1]
  }

  ghost predicate At(p: seq<byte>, i: nat, x: seq<byte>) {
    i + |x| <= |p| && p[i..i + |x|] == x
  }

  lemma AtSplit(p: seq<byte>, i: nat, x: seq<byte>, y: seq<byte>)
    requires At(p, i, x + y)
    ensures At(p, i, x) && At(p, i + |x|, y)
  {
    assert p[i..i + |x|] == (x + y)[..|x|] == x;
    assert p[i + |x|..i + |x| + |y|] == (x + y)[|x|..] == y;
  }

  lemma AtElement(p: seq<byte>, i: nat, x: seq<byte>, k: nat)
    requires At(p, i, x) && k < |x|
    ensures p[i + k] == x[k]
  {
    assert p[i..i + |x|][k] == x[k];
  }

  lemma NoHitInside(p: seq<byte>, at: nat, b: seq<byte>, i: nat)
    requires NalUnit(b) && At(p, at, b)
    requires at + |b| < |p| ==> p[at + |b|] == 0
    requires at <= i < at + |b| && i + 4 < |p|
    ensures !Hit(p, i)
  {
    var k := i - at;
    AtElement(p, at, b, k);
    if k + 1 < |b| { AtElement(p, at, b, k + 1); }
    if k + 2 < |b| { AtElement(p, at, b, k + 2); }
    if k + 3 < |b| { AtElement(p, at, b, k + 3); }
    hide At;
  }

  /** The scan goes through a NAL unit to the start code behind it. */
  lemma ScanThrough(p: seq<byte>, head: nat, code: seq<byte>, from: nat, unit: seq<byte>, four: bool)
    requires code == StartCode(true) || code == StartCode(false)
    requires At(p, head, code) && At(p, head + |code|, unit) && At(p, head + |code| + |unit|, StartCode(four))
    requires NalUnit(unit) && head + |code| + |unit| + 4 < |p|
    requires from == head + 2 || from == head + |code|
    ensures var at := head + |code| + |unit|;
            && NextHit(p, from) == at
            && NalType(p, at) == p[at + |StartCode(four)|] % 32
  {
    hide Hit, NalType, NalUnit, At, NextHit;
    var at := head + |code| + |unit|;
    HitAt(p, head, code == StartCode(true));
    HitAt(p, at, four);
    AtElement(p, at, StartCode(four), 0);
    forall i: nat | from <= i < at && i + 4 < |p| ensures !Hit(p, i) {
      if i >= head + |code| { NoHitInside(p, head + |code|, unit, i); }
    }
    NextHitIs(p, from, at);
  }

  lemma NextHitIs(p: seq<byte>, from: nat, j: nat)
    requires from <= j && j + 4 < |p| && Hit(p, j)
    requires forall k: nat | from <= k < j && k + 4 < |p| :: !Hit(p, k)
    ensures NextHit(p, from) == j
  {
    hide Hit;
  }

  lemma Segments(a: seq<byte>, b: seq<byte>, c: seq<byte>)
    ensures var p := a + b + c; p[..|a|] == a && p[|a|..|a| + |b|] == b && p[|a| + |b|..] == c
  {
  }

  lemma StartCodeSize(four: bool)
    ensures 3 <= |StartCode(four)| <= 4 && (StartCode(four) == StartCode(true) || StartCode(four) == StartCode(false))
    ensures |StartCode(true)| == 4
  {
  }

  lemma SplitAtHits(p: seq<byte>, find7: nat, find8: nat)
    requires NextHit(p, 4) == find7 && NextHit(p, find7 + 2) == find8
    requires find7 <= find8 && find8 + 4 < |p| && NalType(p, find8) == 5
    ensures Split(p) == Parts(p[..find7], p[find7..find8], p[find8..])
  {
    hide NextHit, NalType, Hit;
  }

  lemma ThreeAt(a: seq<byte>, b: seq<byte>, c: seq<byte>)
    ensures var p := a + b + c; At(p, 0, a) && At(p, |a|, b) && At(p, |a| + |b|, c)
  {
    Segments(a, b, c);
  }

  /** The scan reaches a start code that is followed by a NAL unit and another start code. */
  lemma ScanFrom(p: seq<byte>, head: nat, code: seq<byte>, from: nat, unit: seq<byte>, four: bool, rest: seq<byte>)
    requires code == StartCode(true) || code == StartCode(false)
    requires At(p, head, code + unit) && At(p, head + |code + unit|, StartCode(four) + rest)
    requires NalUnit(unit) && |rest| > 1
    requires from == head + 2 || from == head + |code|
    ensures NextHit(p, from) == head + |code + unit|
    ensures head + |code + unit| + 4 < |p| && NalType(p, head + |code + unit|) == rest[0] % 32
  {
    hide *;
    AtSplit(p, head, code, unit);
    AtSplit(p, head + |code + unit|, StartCode(four), rest);
    ScanTo(p, head, code, from, unit, head + |code + unit|, four, rest);
  }

  lemma ScanTo(p: seq<byte>, head: nat, code: seq<byte>, from: nat, unit: seq<byte>,
               at: nat, four: bool, rest: seq<byte>)
    requires code == StartCode(true) || code == StartCode(false)
    requires At(p, head, code) && At(p, head + |code|, unit)
    requires At(p, at, StartCode(four)) && At(p, at + |StartCode(four)|, rest)
    requires NalUnit(unit) && |rest| > 1 && at == head + |code| + |unit|
    requires from == head + 2 || from == head + |code|
    ensures NextHit(p, from) == at
    ensures at + 4 < |p| && NalType(p, at) == rest[0] % 32
  {
    assert at + |StartCode(four)| + |rest| <= |p|;
    hide *;
    StartCodeSize(four);
    ScanThrough(p, head, code, from, unit, four);
    AtElement(p, at + |StartCode(four)|, rest, 0);
  }

  /** A frame of three NAL units, the third an IDR slice, is split at its start codes. */
  lemma EncoderFrameSplits(sps: seq<byte>, fourA: bool, pps: seq<byte>, fourB: bool, idr: seq<byte>)
    requires NalUnit(sps) && NalUnit(pps) && NalUnit(idr) && |pps| > 1 && |idr| > 1 && idr[0] % 32 == 5
    ensures Split((StartCode(true) + sps) + (StartCode(fourA) + pps) + (StartCode(fourB) + idr)) ==
            Parts(StartCode(true) + sps, StartCode(fourA) + pps, StartCode(fourB) + idr)
  {
    hide *;
    var a, b, c := StartCode(true) + sps, StartCode(fourA) + pps, StartCode(fourB) + idr;
    StartCodeSize(fourA);
    ThreeAt(a, b, c);
    ScanFrom(a + b + c, 0, StartCode(true), 4, sps, fourA, pps);
    ScanFrom(a + b + c, |a|, StartCode(fourA), |a| + 2, pps, fourB, idr);
    SplitAtHits(a + b + c, |a|, |a| + |b|);
    Segments(a, b, c);
  }

  lemma SplitAtLater(p: seq<byte>, find7: nat, find8: nat)
    requires NextHit(p, 4) == find7 && NextHit(p, find7 + 2) == find8
    requires find7 <= find8 && find8 + 4 < |p| && NalType(p, find8) != 5
    ensures var c := NextHit(p, find8 + 1);
            find8 <= c <= |p| && Split(p) == Parts(p[..find7], p[find7..find8], p[c..]) && Dropped(p) == p[find8..c]
  {
    hide NextHit, NalType, Hit;
    NextHitLater(p, find8 + 1);
  }

  /** Where the scan stops next behind the start code at i. */
  lemma SecondCode(p: seq<byte>, i: nat, four: bool, rest: seq<byte>)
    requires At(p, i, StartCode(four) + rest) && |rest| > 1
    ensures i + 4 < |p| && NalType(p, i) == rest[0] % 32
    ensures four ==> NextHit(p, i + 1) == i + 1 && p[i..i + 1] == [0]
    ensures !four ==> NextHit(p, i + 1) == NextHit(p, i + 3)
  {
    AtSplit(p, i, StartCode(four), rest);
    StartCodeSize(four);
    assert i + |StartCode(four)| + |rest| <= |p|;
    HitAt(p, i, four);
    AtElement(p, i, StartCode(four), 2);
    AtElement(p, i + |StartCode(four)|, rest, 0);
    NextAfterHit(p, i);
    hide NextHit, Hit, At;
  }

  lemma FourSegments(a: seq<byte>, b: seq<byte>, c: seq<byte>, d: seq<byte>)
    ensures var p, i := a + b + (c + d), |a| + |b|;
            && p[..|a|] == a && p[|a|..i] == b && p[i..] == c + d
            && p[i..i + |c|] == c && p[i + |c|..] == d
            && (c != [] ==> p[i + 1..] == (c + d)[1..])
  {
  }

  /**
   With a fourth unit between the parameter sets and the slice, behind a start code of three bytes
   that unit is lost; behind one of four bytes it keeps the last three and goes with the slice.
   */
  lemma FourthUnitSplits(sps: seq<byte>, fourA: bool, pps: seq<byte>, fourB: bool, sei: seq<byte>, fourC: bool,
                         idr: seq<byte>)
    requires NalUnit(sps) && NalUnit(pps) && NalUnit(sei) && NalUnit(idr)
    requires |pps| > 1 && |sei| > 1 && |idr| > 1 && sei[0] % 32 != 5
    ensures var a, b := StartCode(true) + sps, StartCode(fourA) + pps;
            var c, d := StartCode(fourB) + sei, StartCode(fourC) + idr;
            && Split(a + b + (c + d)) == Parts(a, b, if fourB then (c + d)[1..] else d)
            && Dropped(a + b + (c + d)) == if fourB then [0] else c
  {
    hide *;
    var a, b := StartCode(true) + sps, StartCode(fourA) + pps;
    var c, d := StartCode(fourB) + sei, StartCode(fourC) + idr;
    ThreeAt(a, b, c + d);
    assert c != [];
    FourthScan(a + b + (c + d), |a|, |a| + |b|, sps, fourA, pps, fourB, sei, fourC, idr);
    FourthParts(a, b, c, d, fourB);
  }

  lemma FourthParts(a: seq<byte>, b: seq<byte>, c: seq<byte>, d: seq<byte>, four: bool)
    requires c != []
    requires var p, i := a + b + (c + d), |a| + |b|;
             && NextHit(p, 4) == |a| && NextHit(p, |a| + 2) == i
             && i + 4 < |p| && NalType(p, i) != 5 && NextHit(p, i + 1) == i + (if four then 1 else |c|)
             && (four ==> p[i..i + 1] == [0])
    ensures var p := a + b + (c + d);
            Split(p) == Parts(a, b, if four then (c + d)[1..] else d) && Dropped(p) == if four then [0] else c
  {
    hide *;
    SplitAtLater(a + b + (c + d), |a|, |a| + |b|);
    FourSegments(a, b, c, d);
  }

  /** The scan finds the start codes of the second and the third unit. */
  lemma FirstTwo(p: seq<byte>, find7: nat, find8: nat, sps: seq<byte>, fourA: bool, pps: seq<byte>,
                 fourB: bool, rest: seq<byte>)
    requires NalUnit(sps) && NalUnit(pps) && |pps| > 1 && |rest| > 1
    requires find7 == |StartCode(true) + sps| && find8 == find7 + |StartCode(fourA) + pps|
    requires At(p, 0, StartCode(true) + sps) && At(p, find7, StartCode(fourA) + pps)
    requires At(p, find8, StartCode(fourB) + rest)
    ensures NextHit(p, 4) == find7 && NextHit(p, find7 + 2) == find8
    ensures find8 + 4 < |p| && NalType(p, find8) == rest[0] % 32
  {
    hide *;
    StartCodeSize(fourA);
    ScanFrom(p, 0, StartCode(true), 4, sps, fourA, pps);
    ScanFrom(p, find7, StartCode(fourA), find7 + 2, pps, fourB, rest);
  }

  lemma FourthScan(p: seq<byte>, find7: nat, find8: nat, sps: seq<byte>, fourA: bool, pps: seq<byte>,
                   fourB: bool, sei: seq<byte>, fourC: bool, idr: seq<byte>)
    requires NalUnit(sps) && NalUnit(pps) && NalUnit(sei) && |pps| > 1 && |sei| > 1 && |idr| > 1
    requires find7 == |StartCode(true) + sps| && find8 == find7 + |StartCode(fourA) + pps|
    requires At(p, 0, StartCode(true) + sps) && At(p, find7, StartCode(fourA) + pps)
    requires At(p, find8, (StartCode(fourB) + sei) + (StartCode(fourC) + idr))
    ensures NextHit(p, 4) == find7 && NextHit(p, find7 + 2) == find8
    ensures find8 + 4 < |p| && NalType(p, find8) == sei[0] % 32
    ensures NextHit(p, find8 + 1) == find8 + if fourB then 1 else |StartCode(fourB) + sei|
    ensures fourB ==> p[find8..find8 + 1] == [0]
  {
    var code, d := StartCode(fourB), StartCode(fourC) + idr;
    assert !fourB ==> |code| == 3;
    hide *;
    StartCodeSize(fourB);
    AtSplit(p, find8, code + sei, d);
    ScanFrom(p, find8, code, find8 + |code|, sei, fourC, idr);
    Regroup(code, sei, d);
    FirstTwo(p, find7, find8, sps, fourA, pps, fourB, sei + d);
    SecondCode(p, find8, fourB, sei + d);
  }

  /** A sequence parameter set alone is no start code further, so nothing of it is kept. */
  lemma LoneSpsIsLost(sps: seq<byte>)
    requires NalUnit(sps) && sps[0] % 32 == 7
    ensures var p := StartCode(true) + sps;
            |p| > 4 && IsKeyFrame(p) && Split(p) == Parts([], [], []) && Dropped(p) == p
  {
    var p := StartCode(true) + sps;
    assert At(p, 4, sps);
    forall i: nat | 4 <= i && i + 4 < |p| ensures !Hit(p, i) {
      NoHitInside(p, 4, sps, i);
    }
    assert NextHit(p, 4) == |p|;
  }

  lemma HitAt(p: seq<byte>, i: nat, four: bool)
    requires i + 4 < |p| && At(p, i, StartCode(four))
    ensures Hit(p, i) && NalType(p, i) == p[i + |StartCode(four)|] % 32
    ensures forall k | i + 2 <= k < i + |StartCode(four)| && k + 4 < |p| :: !Hit(p, k)
  {
    var code := StartCode(four);
    assert forall j | 0 <= j < |code| :: p[i + j] == code[j];
    assert p[i] == code[0] && p[i + 1] == code[1] && p[i + 2] == code[2];
    if four { assert p[i + 3] == code[3]; }
  }

  // ----- What each handler does -----

  /** `rtmp` says whether there is a connection object. */
  datatype State = State(running: bool, status: Status, rtmp: bool, needKeyframe: bool, onlyAudioMode: bool,
                         retrys: nat, queue: seq<EncData>, trace: seq<Happening>)

  /**
   How the library behaves in one turn: the call succeeds; its error is one to ignore; a new
   connection object is made; statistics are due.
   */
  datatype Outcome = Outcome(ok: bool, ignorable: bool, created: bool, statsDue: bool)

  function Start(created: bool): State {
    State(true, RS_STM_Init, created, true, false, 0, [], [])
  }

  function AfterConnect(s: State): State {
    s.(needKeyframe := true, retrys := 0, queue := [], trace := s.trace + [OnRtmpConnected])
  }

  function AfterDisconnect(s: State, o: Outcome): State {
    var t := s.(needKeyframe := true, rtmp := false);
    if s.status == RS_STM_Closed then t
    else
      var n := s.retrys + 1;
      if n <= MAX_RETRY_TIME then
        t.(status := RS_STM_Init, retrys := n, rtmp := o.created, trace := s.trace + [OnRtmpReconnecting(n)])
      else
        t.(status := RS_STM_Init, retrys := n, trace := s.trace + [OnRtmpDisconnect])
  }

  predicate SendFails(item: EncData, o: Outcome) {
    !o.ok && (item.kind == AUDIO_DATA || (item.kind == VIDEO_DATA && !o.ignorable))
  }

  function AfterStats(s: State, o: Outcome): State {
    if o.statsDue then s.(trace := s.trace + [OnRtmpStatusEvent]) else s
  }

  function AfterSend(s: State, o: Outcome): State {
    if s.queue == [] then AfterStats(s, o)
    else
      var item := s.queue[0];
      var t := s.(queue := s.queue[1..], trace := s.trace + [Took(item)]);
      if SendFails(item, o) then AfterDisconnect(t, o)
      else if item.kind == META_DATA then t
      else AfterStats(t, o)
  }

  /** One turn of the loop in Run. */
  function AfterTurn(s: State, o: Outcome): State {
    if !s.running || !s.rtmp then s
    else
      match s.status
      case RS_STM_Init => if o.ok then s.(status := RS_STM_Handshaked) else AfterDisconnect(s, o)
      case RS_STM_Handshaked => if o.ok then s.(status := RS_STM_Connected) else AfterDisconnect(s, o)
      case RS_STM_Connected => if o.ok then AfterConnect(s.(status := RS_STM_Published)) else AfterDisconnect(s, o)
      case RS_STM_Published => AfterSend(s, o)
      case RS_STM_Closed => s
  }

  predicate IsKeyFrame(frame: seq<byte>)
    requires |frame| > 4
  {
    frame[4] % 32 == 7
  }

  ghost function AfterH264(s: State, frame: seq<byte>, ts: uint32): State
    requires |frame| > 4
  {
    if IsKeyFrame(frame) then
      var p := Split(frame);
      s.(needKeyframe := false,
         queue := s.queue + [EncData(VIDEO_DATA, p.sps, ts), EncData(VIDEO_DATA, p.pps, ts),
                             EncData(VIDEO_DATA, p.idr, ts)])
    else if s.needKeyframe then s
    else s.(queue := s.queue + [EncData(VIDEO_DATA, frame, ts)])
  }

  function AfterAac(s: State, data: seq<byte>, ts: uint32): State {
    if s.needKeyframe && !s.onlyAudioMode then s
    else s.(queue := s.queue + [EncData(AUDIO_DATA, data, ts)])
  }

  // ----- The pusher -----

  class AnyRtmpPush {
    var running: bool
    var status: Status
    var rtmp: bool
    var needKeyframe: bool
    var onlyAudioMode: bool
    var retrys: nat
    var queue: seq<EncData>
    var trace: seq<Happening>

    ghost function Value(): State
      reads this
    {
      State(running, status, rtmp, needKeyframe, onlyAudioMode, retrys, queue, trace)
    }

    constructor (created: bool)
      ensures Value() == Start(created)
    {
      running, status, rtmp, needKeyframe, onlyAudioMode, retrys := true, RS_STM_Init, created, true, false, 0;
      queue, trace := [], [];
    }

    /** The first lines of the destructor. */
    method Close()
      modifies this
      ensures Value() == old(Value()).(running := false, status := RS_STM_Closed)
    {
      running := false;
      status := RS_STM_Closed;
    }

    method EnableOnlyAudioMode()
      modifies this
      ensures Value() == old(Value()).(onlyAudioMode := true)
    {
      onlyAudioMode := true;
    }

    method SetH264Data(frame: seq<byte>, ts: uint32)
      requires |frame| > 4
      modifies this
      ensures Value() == AfterH264(old(Value()), frame, ts)
    {
      var nalType := frame[4] % 32;
      if nalType == 7 {
        needKeyframe := false;
      }
      if needKeyframe {
        return;
      }
      if nalType == 7 {
        var sps, pps, idr := SplitKeyFrame(frame);
        GotH264Nal(sps, ts);
        GotH264Nal(pps, ts);
        GotH264Nal(idr, ts);
      } else {
        GotH264Nal(frame, ts);
      }
    }

    method GotH264Nal(data: seq<byte>, ts: uint32)
      modifies this`queue
      ensures queue == old(queue) + [EncData(VIDEO_DATA, data, ts)]
    {
      queue := queue + [EncData(VIDEO_DATA, data, ts)];
    }

    method SetAacData(data: seq<byte>, ts: uint32)
      modifies this`queue
      ensures Value() == AfterAac(old(Value()), data, ts)
    {
      if needKeyframe && !onlyAudioMode {
        return;
      }
      queue := queue + [EncData(AUDIO_DATA, data, ts)];
    }

    /** The body of the loop in Run. */
    method Turn(o: Outcome)
      modifies this
      ensures Value() == AfterTurn(old(Value()), o)
    {
      if running && rtmp {
        match status {
          case RS_STM_Init =>
            if o.ok {
              status := RS_STM_Handshaked;
            } else {
              CallDisconnect(o);
            }
          case RS_STM_Handshaked =>
            if o.ok {
              status := RS_STM_Connected;
            } else {
              CallDisconnect(o);
            }
          case RS_STM_Connected =>
            if o.ok {
              status := RS_STM_Published;
              CallConnect();
            } else {
              CallDisconnect(o);
            }
          case RS_STM_Published =>
            DoSendData(o);
          case RS_STM_Closed =>
        }
      }
    }

    method CallConnect()
      modifies this
      ensures Value() == AfterConnect(old(Value()))
    {
      needKeyframe := true;
      retrys := 0;
      while queue != []
        invariant Value() == old(Value()).(needKeyframe := true, retrys := 0, queue := queue)
        decreases |queue|
      {
        queue := queue[1..];
      }
      trace := trace + [OnRtmpConnected];
    }

    method CallDisconnect(o: Outcome)
      modifies this
      ensures Value() == AfterDisconnect(old(Value()), o)
    {
      needKeyframe := true;
      rtmp := false;
      if status != RS_STM_Closed {
        status := RS_STM_Init;
        retrys := retrys + 1;
        if retrys <= MAX_RETRY_TIME {
          rtmp := o.created;
          trace := trace + [OnRtmpReconnecting(retrys)];
        } else {
          trace := trace + [OnRtmpDisconnect];
        }
      }
    }

    method DoSendData(o: Outcome)
      modifies this
      ensures Value() == AfterSend(old(Value()), o)
    {
      if queue != [] {
        var item := queue[0];
        queue := queue[1..];
        trace := trace + [Took(item)];
        if item.kind == VIDEO_DATA {
          if !o.ok && !o.ignorable {
            CallDisconnect(o);
            return;
          }
        } else if item.kind == AUDIO_DATA {
          if !o.ok {
            CallDisconnect(o);
            return;
          }
        } else {
          return;
        }
      }
      if o.statsDue {
        trace := trace + [OnRtmpStatusEvent];
      }
    }
  }

  // ----- Runs -----

  datatype Event =
    | Turned(o: Outcome)
    | Video(frame: seq<byte>, ts: uint32)
    | Audio(data: seq<byte>, ts: uint32)
    | AudioOnly
    | Closing

  predicate Enabled(e: Event) {
    e.Video? ==> |e.frame| > 4
  }

  ghost function Step(s: State, e: Event): State
    requires Enabled(e)
  {
    match e
    case Turned(o) => AfterTurn(s, o)
    case Video(frame, ts) => AfterH264(s, frame, ts)
    case Audio(data, ts) => AfterAac(s, data, ts)
    case AudioOnly => s.(onlyAudioMode := true)
    case Closing => s.(running := false, status := RS_STM_Closed)
  }

  ghost function Run(created: bool, events: seq<Event>): State
    requires forall e | e in events :: Enabled(e)
  {
    if events == [] then Start(created) else Step(Run(created, events[..|events| - 1]), events[|events| - 1])
  }

  // ----- The shape of the callbacks -----

  /** The connection callbacks since the last OnRtmpConnected, or since the start. */
  ghost function Since(trace: seq<Happening>): seq<Happening> {
    if trace == [] then []
    else
      var last := trace[|trace| - 1];
      match last
      case OnRtmpConnected => []
      case OnRtmpReconnecting(_) => Since(trace[..|trace| - 1]) + [last]
      case OnRtmpDisconnect => Since(trace[..|trace| - 1]) + [last]
      case _ => Since(trace[..|trace| - 1])
  }

  ghost function Retries(k: nat): seq<Happening> {
    seq(k, i requires i >= 0 => OnRtmpReconnecting(i + 1))
  }

  lemma SinceMore(trace: seq<Happening>, h: Happening)
    ensures Since(trace + [h]) ==
            match h
            case OnRtmpConnected => []
            case OnRtmpReconnecting(_) => Since(trace) + [h]
            case OnRtmpDisconnect => Since(trace) + [h]
            case _ => Since(trace)
  {
    assert (trace + [h])[..|trace|] == trace;
  }

  ghost predicate ShapeInv(s: State) {
    && s.retrys <= MAX_RETRY_TIME + 1
    && Since(s.trace) == (if s.retrys <= MAX_RETRY_TIME then Retries(s.retrys)
                          else Retries(MAX_RETRY_TIME) + [OnRtmpDisconnect])
    && (s.retrys > MAX_RETRY_TIME ==> !s.rtmp)
  }

  lemma RetriesMore(k: nat)
    ensures Retries(k + 1) == Retries(k) + [OnRtmpReconnecting(k + 1)]
  {
  }

  lemma DisconnectKeepsShape(s: State, o: Outcome)
    requires ShapeInv(s) && s.rtmp
    ensures ShapeInv(AfterDisconnect(s, o))
  {
    hide Since, Retries;
    SinceMore(s.trace, OnRtmpReconnecting(s.retrys + 1));
    SinceMore(s.trace, OnRtmpDisconnect);
    RetriesMore(s.retrys);
  }

  lemma QuietKeepsShape(s: State, h: Happening)
    requires ShapeInv(s) && (h.Took? || h == OnRtmpStatusEvent)
    ensures ShapeInv(s.(trace := s.trace + [h]))
  {
    hide Since, Retries;
    SinceMore(s.trace, h);
  }

  lemma SendKeepsShape(s: State, o: Outcome)
    requires ShapeInv(s) && s.rtmp
    ensures ShapeInv(AfterSend(s, o))
  {
    hide Since, Retries;
    QuietKeepsShape(s, OnRtmpStatusEvent);
    if s.queue != [] {
      QuietKeepsShape(s, Took(s.queue[0]));
      var t := s.(queue := s.queue[1..], trace := s.trace + [Took(s.queue[0])]);
      QuietKeepsShape(t, OnRtmpStatusEvent);
      DisconnectKeepsShape(t, o);
      hide ShapeInv, AfterDisconnect;
    }
  }

  lemma TurnKeepsShape(s: State, o: Outcome)
    requires ShapeInv(s)
    ensures ShapeInv(AfterTurn(s, o))
  {
    hide Since, AfterSend, AfterDisconnect;
    if s.running && s.rtmp {
      SendKeepsShape(s, o);
      DisconnectKeepsShape(s, o);
      SinceMore(s.trace, OnRtmpConnected);
      assert Retries(0) == [];
    }
  }

  lemma StepKeepsShape(s: State, e: Event)
    requires ShapeInv(s) && Enabled(e)
    ensures ShapeInv(Step(s, e))
  {
    hide Since, Retries, AfterTurn;
    if e.Turned? { TurnKeepsShape(s, e.o); }
  }

  /**
   In every run the callbacks since the last OnRtmpConnected (or the start) are OnRtmpReconnecting(1),
   (2), (3) in order, as many as there were failures, and after the fourth failure one OnRtmpDisconnect.
   */
  lemma {:induction false} CallbackShape(created: bool, events: seq<Event>)
    requires forall e | e in events :: Enabled(e)
    ensures var s := Run(created, events);
            && s.retrys <= MAX_RETRY_TIME + 1
            && Since(s.trace) == (if s.retrys <= MAX_RETRY_TIME then Retries(s.retrys)
                                  else Retries(MAX_RETRY_TIME) + [OnRtmpDisconnect])
            && (s.retrys > MAX_RETRY_TIME ==> !s.rtmp)
    decreases |events|
  {
    if events != [] {
      CallbackShape(created, events[..|events| - 1]);
      StepKeepsShape(Run(created, events[..|events| - 1]), events[|events| - 1]);
    }
  }

  /** After OnRtmpDisconnect nothing more is called and nothing more is sent. */
  lemma DisconnectIsFinal(created: bool, events: seq<Event>, e: Event)
    requires (forall f | f in events :: Enabled(f)) && Enabled(e)
    requires OnRtmpDisconnect in Run(created, events).trace
    ensures Step(Run(created, events), e).trace == Run(created, events).trace
  {
    NoneAfterDisconnect(created, events);
  }

  ghost predicate GivenUp(s: State) {
    OnRtmpDisconnect in s.trace ==> !s.rtmp
  }

  lemma {:induction false} NoneAfterDisconnect(created: bool, events: seq<Event>)
    requires forall e | e in events :: Enabled(e)
    ensures GivenUp(Run(created, events))
    decreases |events|
  {
    if events != [] {
      NoneAfterDisconnect(created, events[..|events| - 1]);
      GivenUpStep(Run(created, events[..|events| - 1]), events[|events| - 1]);
    }
  }

  lemma GivenUpStep(s: State, e: Event)
    requires GivenUp(s) && Enabled(e)
    ensures GivenUp(Step(s, e))
  {
    hide Split, AfterTurn, GivenUp;
    if e.Turned? {
      GivenUpTurn(s, e.o);
    } else {
      GivenUpQuietly(s, Step(s, e));
    }
  }

  lemma GivenUpTurn(s: State, o: Outcome)
    requires GivenUp(s)
    ensures GivenUp(AfterTurn(s, o))
  {
  }

  lemma GivenUpQuietly(s: State, t: State)
    requires GivenUp(s) && t.trace == s.trace && t.rtmp == s.rtmp
    ensures GivenUp(t)
  {
  }

  // ----- The queue -----

  /** The items taken since the last OnRtmpConnected, or since the start. */
  ghost function TakenSince(trace: seq<Happening>): seq<EncData> {
    if trace == [] then []
    else
      var before, h := trace[..|trace| - 1], trace[|trace| - 1];
      if h.OnRtmpConnected? then [] else if h.Took? then TakenSince(before) + [h.item] else TakenSince(before)
  }

  lemma TakenMore(trace: seq<Happening>, h: Happening)
    ensures TakenSince(trace + [h]) ==
            if h.OnRtmpConnected? then [] else if h.Took? then TakenSince(trace) + [h.item] else TakenSince(trace)
  {
    assert (trace + [h])[..|trace|] == trace;
  }

  /** The items one call of the encoder puts in, given whether a key frame is awaited. */
  ghost function Items(s: State, e: Event): seq<EncData>
    requires Enabled(e)
  {
    match e
    case Video(frame, ts) =>
      if IsKeyFrame(frame) then
        var p := Split(frame);
        [EncData(VIDEO_DATA, p.sps, ts), EncData(VIDEO_DATA, p.pps, ts), EncData(VIDEO_DATA, p.idr, ts)]
      else if s.needKeyframe then []
      else [EncData(VIDEO_DATA, frame, ts)]
    case Audio(data, ts) =>
      if s.needKeyframe && !s.onlyAudioMode then [] else [EncData(AUDIO_DATA, data, ts)]
    case _ => []
  }

  predicate Connects(s: State, e: Event) {
    e.Turned? && s.running && s.rtmp && s.status == RS_STM_Connected && e.o.ok
  }

  /** Everything put in since the last OnRtmpConnected, or since the start. */
  ghost function PutSince(created: bool, events: seq<Event>): seq<EncData>
    requires forall e | e in events :: Enabled(e)
  {
    if events == [] then []
    else
      var before, e := events[..|events| - 1], events[|events| - 1];
      var s := Run(created, before);
      if Connects(s, e) then [] else PutSince(created, before) + Items(s, e)
  }

  /** Since the last OnRtmpConnected nothing is lost, repeated or reordered between the encoder and the sender. */
  lemma {:induction false} QueueInOrder(created: bool, events: seq<Event>)
    requires forall e | e in events :: Enabled(e)
    ensures var s := Run(created, events); TakenSince(s.trace) + s.queue == PutSince(created, events)
    decreases |events|
  {
    if events != [] {
      var before, e := events[..|events| - 1], events[|events| - 1];
      QueueInOrder(created, before);
      StepQueues(Run(created, before), e);
    }
  }

  lemma StepQueues(s: State, e: Event)
    requires Enabled(e)
    ensures var t := Step(s, e);
            TakenSince(t.trace) + t.queue == if Connects(s, e) then [] else TakenSince(s.trace) + s.queue + Items(s, e)
  {
    hide TakenSince, Split, AfterTurn;
    if e.Turned? {
      TurnQueues(s, e.o);
      assert TakenSince(s.trace) + s.queue + [] == TakenSince(s.trace) + s.queue;
    }
  }

  /** Callbacks other than OnRtmpConnected take nothing. */
  lemma CallbackQueues(s: State, h: Happening)
    requires !h.OnRtmpConnected? && !h.Took?
    ensures TakenSince(s.trace + [h]) == TakenSince(s.trace)
  {
    TakenMore(s.trace, h);
  }

  lemma DisconnectQueues(s: State, o: Outcome)
    ensures AfterDisconnect(s, o).queue == s.queue
    ensures TakenSince(AfterDisconnect(s, o).trace) == TakenSince(s.trace)
  {
    hide TakenSince;
    CallbackQueues(s, OnRtmpReconnecting(s.retrys + 1));
    CallbackQueues(s, OnRtmpDisconnect);
  }

  lemma StatsQueues(s: State, o: Outcome)
    ensures AfterStats(s, o).queue == s.queue
    ensures TakenSince(AfterStats(s, o).trace) == TakenSince(s.trace)
  {
    hide TakenSince;
    CallbackQueues(s, OnRtmpStatusEvent);
  }

  lemma SendQueues(s: State, o: Outcome)
    ensures TakenSince(AfterSend(s, o).trace) + AfterSend(s, o).queue == TakenSince(s.trace) + s.queue
  {
    hide TakenSince, AfterDisconnect, AfterStats;
    if s.queue == [] {
      StatsQueues(s, o);
    } else {
      var item := s.queue[0];
      var t := s.(queue := s.queue[1..], trace := s.trace + [Took(item)]);
      TakenMore(s.trace, Took(item));
      assert TakenSince(t.trace) + t.queue == TakenSince(s.trace) + s.queue;
      DisconnectQueues(t, o);
      StatsQueues(t, o);
    }
  }

  lemma TurnQueues(s: State, o: Outcome)
    ensures var t := AfterTurn(s, o);
            TakenSince(t.trace) + t.queue == if Connects(s, Turned(o)) then [] else TakenSince(s.trace) + s.queue
  {
    hide TakenSince, AfterSend, AfterDisconnect;
    SendQueues(s, o);
    DisconnectQueues(s, o);
    TakenMore(s.trace, OnRtmpConnected);
  }

  // ----- What a turn calls back -----

  /** The connection was given up in this step. */
  predicate GaveUp(before: State, after: State) {
    && |after.trace| > |before.trace|
    && var h := after.trace[|after.trace| - 1];
       h.OnRtmpReconnecting? || h.OnRtmpDisconnect?
  }

  /**
   While published, a turn takes the front item, and gives the connection up exactly when sending it
   failed and it was audio, or video with an error that is not one to ignore; statistics follow
   unless the connection was given up or the item was metadata.
   */
  lemma PublishedTurn(s: State, o: Outcome)
    requires s.running && s.rtmp && s.status == RS_STM_Published
    ensures var took := if s.queue == [] then [] else [Took(s.queue[0])];
            var fails := s.queue != [] && !o.ok
                         && (s.queue[0].kind == AUDIO_DATA || (s.queue[0].kind == VIDEO_DATA && !o.ignorable));
            var t := AfterTurn(s, o);
            && (GaveUp(s, t) <==> fails)
            && t.queue == (if s.queue == [] then [] else s.queue[1..])
            && t.trace == s.trace + took
                 + (if fails then [if s.retrys < 3 then OnRtmpReconnecting(s.retrys + 1) else OnRtmpDisconnect]
                    else if o.statsDue && (s.queue != [] ==> s.queue[0].kind != META_DATA) then [OnRtmpStatusEvent]
                    else [])
  {
  }

  /** The successful turns since the connection object was made. */
  ghost function TurnsDone(created: bool, events: seq<Event>): nat
    requires forall e | e in events :: Enabled(e)
  {
    if events == [] then 0
    else
      var before, e := events[..|events| - 1], events[|events| - 1];
      var s := Run(created, before);
      if GaveUp(s, Step(s, e)) then 0
      else TurnsDone(created, before) + if e.Turned? && s.running && s.rtmp && e.o.ok then 1 else 0
  }

  ghost predicate StatusInv(s: State, done: nat) {
    s.running && s.rtmp ==>
      match s.status
      case RS_STM_Init => done == 0
      case RS_STM_Handshaked => done == 1
      case RS_STM_Connected => done == 2
      case RS_STM_Published => done >= 3
      case RS_STM_Closed => false
  }

  lemma TurnKeepsStatus(s: State, o: Outcome, done: nat)
    requires StatusInv(s, done)
    ensures var t := AfterTurn(s, o);
            StatusInv(t, if GaveUp(s, t) then 0 else done + if s.running && s.rtmp && o.ok then 1 else 0)
  {
    hide AfterSend;
    if s.running && s.rtmp && s.status == RS_STM_Published {
      PublishedTurn(s, o);
      SendStatus(s, o);
    }
  }

  lemma SendStatus(s: State, o: Outcome)
    requires s.running && s.rtmp && s.status == RS_STM_Published
    ensures var t := AfterTurn(s, o); if GaveUp(s, t) then t.status == RS_STM_Init else t.status == RS_STM_Published
  {
  }

  lemma {:induction false} RunKeepsStatus(created: bool, events: seq<Event>)
    requires forall e | e in events :: Enabled(e)
    ensures StatusInv(Run(created, events), TurnsDone(created, events))
    decreases |events|
  {
    if events != [] {
      var before, e := events[..|events| - 1], events[|events| - 1];
      RunKeepsStatus(created, before);
      StepKeepsStatus(Run(created, before), e, TurnsDone(created, before));
      hide Step, GaveUp, StatusInv;
    } else {
      hide TurnsDone;
      assert TurnsDone(created, []) == 0 by { NoTurns(created); }
    }
  }

  lemma NoTurns(created: bool)
    ensures TurnsDone(created, []) == 0
  {
  }

  lemma StepKeepsStatus(s: State, e: Event, done: nat)
    requires StatusInv(s, done) && Enabled(e)
    ensures var t := Step(s, e);
            StatusInv(t, if GaveUp(s, t) then 0
                         else done + if e.Turned? && s.running && s.rtmp && e.o.ok then 1 else 0)
  {
    hide AfterTurn, Split;
    if e.Turned? { TurnKeepsStatus(s, e.o, done); }
  }

  /** Which turn connects, and which gives up, by the status. */
  lemma TurnTells(s: State, o: Outcome)
    requires s.running && s.rtmp && s.status != RS_STM_Closed
    ensures var t := AfterTurn(s, o);
            && (t.trace == s.trace + [OnRtmpConnected] <==> s.status == RS_STM_Connected && o.ok)
            && (s.status != RS_STM_Published ==> (GaveUp(s, t) <==> !o.ok))
  {
    var n := |s.trace|;
    if s.status == RS_STM_Published {
      PublishedTurn(s, o);
      var t := AfterTurn(s, o);
      hide AfterTurn;
      assert (s.trace + [OnRtmpConnected])[n] == OnRtmpConnected;
      assert |t.trace| > n ==> t.trace[n] != OnRtmpConnected;
    } else {
      hide AfterSend;
      assert (s.trace + [OnRtmpConnected])[n] == OnRtmpConnected;
    }
  }

  /**
   OnRtmpConnected is called exactly by the third successful turn since the connection object was
   made, which is the one that publishes; until then any failed turn gives the connection up.
   */
  lemma ConnectedExactly(created: bool, events: seq<Event>, o: Outcome)
    requires forall e | e in events :: Enabled(e)
    ensures var s := Run(created, events);
            var t, done := Step(s, Turned(o)), TurnsDone(created, events);
            && (t.trace == s.trace + [OnRtmpConnected] <==> s.running && s.rtmp && o.ok && done == 2)
            && (s.running && s.rtmp && done < 3 ==> (GaveUp(s, t) <==> !o.ok))
            && (s.running && s.rtmp ==> (s.status == RS_STM_Published <==> done >= 3))
  {
    RunKeepsStatus(created, events);
    var s := Run(created, events);
    if s.running && s.rtmp {
      TurnTells(s, o);
      hide AfterTurn, Run, TurnsDone, GaveUp;
    } else {
      assert AfterTurn(s, o) == s;
    }
  }

  /** Since the last OnRtmpConnected every failed send was of metadata, or of video with an error to ignore. */
  ghost predicate Forgiven(created: bool, events: seq<Event>)
    requires forall e | e in events :: Enabled(e)
  {
    events != []
    && var before, e := events[..|events| - 1], events[|events| - 1];
       var s := Run(created, before);
       || (e.Turned? && Step(s, e).trace == s.trace + [OnRtmpConnected])
       || (&& Forgiven(created, before)
           && (e.Turned? && s.queue != [] && !e.o.ok ==>
                 s.queue[0].kind == META_DATA || (s.queue[0].kind == VIDEO_DATA && e.o.ignorable)))
  }

  /** Such sends never end a connection. */
  lemma {:induction false} ForgivenGoesOn(created: bool, events: seq<Event>)
    requires (forall e | e in events :: Enabled(e)) && Forgiven(created, events)
    ensures var s := Run(created, events);
            Since(s.trace) == [] && s.rtmp && (s.running ==> s.status == RS_STM_Published)
    decreases |events|
  {
    var before, e := events[..|events| - 1], events[|events| - 1];
    var s := Run(created, before);
    var t := Step(s, e);
    if e.Turned? && t.trace == s.trace + [OnRtmpConnected] {
      SinceMore(s.trace, OnRtmpConnected);
      ConnectedExactly(created, before, e.o);
      JustPublished(s, e.o);
    } else {
      ForgivenGoesOn(created, before);
      hide Since, Split;
      if e.Turned? { ForgivenTurn(s, e.o); }
    }
  }

  lemma JustPublished(s: State, o: Outcome)
    requires AfterTurn(s, o).trace == s.trace + [OnRtmpConnected]
    ensures AfterTurn(s, o).rtmp && AfterTurn(s, o).status == RS_STM_Published
  {
    assert (s.trace + [OnRtmpConnected])[|s.trace|] == OnRtmpConnected;
  }

  lemma ForgivenTurn(s: State, o: Outcome)
    requires Since(s.trace) == [] && s.rtmp && (s.running ==> s.status == RS_STM_Published)
    requires s.queue != [] && !o.ok ==>
               s.queue[0].kind == META_DATA || (s.queue[0].kind == VIDEO_DATA && o.ignorable)
    ensures var t := AfterTurn(s, o);
            Since(t.trace) == [] && t.rtmp && (t.running ==> t.status == RS_STM_Published)
  {
    hide Since;
    if s.queue != [] {
      SinceMore(s.trace, Took(s.queue[0]));
      SinceMore(s.trace + [Took(s.queue[0])], OnRtmpStatusEvent);
    }
    SinceMore(s.trace, OnRtmpStatusEvent);
  }

  /** Whether there is a connection object: the last one that could be made, until it is given up. */
  ghost predicate ObjectMade(created: bool, events: seq<Event>)
    requires forall e | e in events :: Enabled(e)
  {
    if events == [] then created
    else
      var before, e := events[..|events| - 1], events[|events| - 1];
      var s := Run(created, before);
      var t := Step(s, e);
      if GaveUp(s, t) then e.Turned? && e.o.created && t.trace[|t.trace| - 1].OnRtmpReconnecting?
      else ObjectMade(created, before)
  }

  /** In every run the loop goes on until it is closed, and works exactly while there is a connection object. */
  lemma {:induction false} ObjectIs(created: bool, events: seq<Event>)
    requires forall e | e in events :: Enabled(e)
    ensures var s := Run(created, events);
            && (s.running <==> Closing !in events) && (s.status == RS_STM_Closed <==> Closing in events)
            && (s.rtmp <==> ObjectMade(created, events))
    decreases |events|
  {
    if events != [] {
      var before, e := events[..|events| - 1], events[|events| - 1];
      assert events == before + [e];
      ObjectIs(created, before);
      StepObject(Run(created, before), e);
      hide Step, GaveUp;
    }
  }

  lemma StepObject(s: State, e: Event)
    requires Enabled(e) && (s.running <==> s.status != RS_STM_Closed)
    ensures var t := Step(s, e);
            && (t.running <==> s.running && !e.Closing?) && (t.running <==> t.status != RS_STM_Closed)
            && (t.rtmp <==> if GaveUp(s, t)
                            then e.Turned? && e.o.created && t.trace[|t.trace| - 1].OnRtmpReconnecting?
                            else s.rtmp)
  {
    hide AfterTurn, Split;
    if e.Turned? { TurnObject(s, e.o); }
  }

  lemma TurnObject(s: State, o: Outcome)
    requires s.running <==> s.status != RS_STM_Closed
    ensures var t := AfterTurn(s, o);
            && t.running == s.running && (t.running <==> t.status != RS_STM_Closed)
            && (t.rtmp <==> if GaveUp(s, t) then o.created && t.trace[|t.trace| - 1].OnRtmpReconnecting? else s.rtmp)
  {
  }

  // ----- What is let through -----

  /** A key frame has been handed in since the last OnRtmpConnected or the last failure. */
  ghost predicate KeySeen(created: bool, events: seq<Event>)
    requires forall e | e in events :: Enabled(e)
  {
    events != []
    && var before, e := events[..|events| - 1], events[|events| - 1];
       var s := Run(created, before);
       if e.Video? then (|e.frame| > 4 && e.frame[4] % 32 == 7) || KeySeen(created, before)
       else
         && KeySeen(created, before) && !GaveUp(s, Step(s, e))
         && !(e.Turned? && Step(s, e).trace == s.trace + [OnRtmpConnected])
  }

  lemma {:induction false} GateIs(created: bool, events: seq<Event>)
    requires forall e | e in events :: Enabled(e)
    ensures var s := Run(created, events);
            && s.needKeyframe == !KeySeen(created, events)
            && s.onlyAudioMode == (AudioOnly in events)
            && (s.status == RS_STM_Closed ==> !s.running)
    decreases |events|
  {
    if events != [] {
      var before, e := events[..|events| - 1], events[|events| - 1];
      assert events == before + [e];
      GateIs(created, before);
      StepGate(Run(created, before), e);
      hide Step, GaveUp;
    }
  }

  lemma StepGate(s: State, e: Event)
    requires Enabled(e) && (s.status == RS_STM_Closed ==> !s.running)
    ensures var t := Step(s, e);
            && t.needKeyframe == (if e.Video? then s.needKeyframe && e.frame[4] % 32 != 7
                                  else s.needKeyframe || GaveUp(s, t)
                                       || (e.Turned? && t.trace == s.trace + [OnRtmpConnected]))
            && t.onlyAudioMode == (s.onlyAudioMode || e.AudioOnly?)
            && (t.status == RS_STM_Closed ==> !t.running)
  {
    hide AfterTurn, Split;
    if e.Turned? { TurnGate(s, e.o); }
  }

  lemma TurnGate(s: State, o: Outcome)
    requires s.status == RS_STM_Closed ==> !s.running
    ensures var t := AfterTurn(s, o);
            && t.needKeyframe == (s.needKeyframe || GaveUp(s, t) || t.trace == s.trace + [OnRtmpConnected])
            && t.onlyAudioMode == s.onlyAudioMode && (t.status == RS_STM_Closed ==> !t.running)
  {
    if s.running && s.rtmp && s.status == RS_STM_Published { PublishedTurn(s, o); }
  }

  /**
   What a call of the encoder queues, in every run: the parts of a key frame always; another frame
   exactly when a key frame has come since the connection was made or given up; audio then or in
   audio-only mode.
   */
  lemma QueuedExactly(created: bool, events: seq<Event>, e: Event)
    requires (forall f | f in events :: Enabled(f)) && Enabled(e) && (e.Video? || e.Audio?)
    ensures var s := Run(created, events);
            var t, seen := Step(s, e), KeySeen(created, events);
            match e
            case Video(frame, ts) =>
              var p := Split(frame);
              t.queue == s.queue + if frame[4] % 32 == 7
                                   then [EncData(VIDEO_DATA, p.sps, ts), EncData(VIDEO_DATA, p.pps, ts),
                                         EncData(VIDEO_DATA, p.idr, ts)]
                                   else if seen then [EncData(VIDEO_DATA, frame, ts)] else []
            case Audio(data, ts) =>
              t.queue == s.queue + if seen || AudioOnly in events then [EncData(AUDIO_DATA, data, ts)] else []
  {
    GateIs(created, events);
    hide Split, KeySeen, Run;
  }

  // ----- The key-frame gate -----

  /** A NAL unit of type 7 behind its start code. */
  predicate IsSps(item: EncData) {
    item.kind == VIDEO_DATA && |item.data| > 4 && item.data[4] % 32 == 7
  }

  /** The event hands over a key frame whose first part is the item. */
  ghost predicate Gives(e: Event, item: EncData) {
    && e.Video? && |e.frame| > 4 && IsKeyFrame(e.frame)
    && item == EncData(VIDEO_DATA, Split(e.frame).sps, e.ts)
  }

  /** The item is the sequence parameter set of a key frame among the events. */
  ghost predicate SpsOf(item: EncData, events: seq<Event>) {
    IsSps(item) && exists e | e in events :: Gives(e, item)
  }

  /** Connected at c, and nothing taken after that up to i. */
  ghost predicate QuietFrom(trace: seq<Happening>, c: nat, i: nat) {
    c < i <= |trace| && trace[c] == OnRtmpConnected && forall j | c < j < i :: !trace[j].Took?
  }

  /** The first item taken after each OnRtmpConnected is the sequence parameter set of one of the key frames. */
  ghost predicate FirstIsSps(trace: seq<Happening>, events: seq<Event>) {
    forall c: nat, i: nat | QuietFrom(trace, c, i) && i < |trace| && trace[i].Took? :: SpsOf(trace[i].item, events)
  }

  ghost predicate Untouched(trace: seq<Happening>) {
    exists c: nat :: QuietFrom(trace, c, |trace|)
  }

  /** A key frame is split at least once. */
  ghost predicate WellFormed(e: Event)
    requires Enabled(e)
  {
    e.Video? && IsKeyFrame(e.frame) ==> NextHit(e.frame, 4) < |e.frame|
  }

  ghost predicate GateInv(s: State, events: seq<Event>) {
    && !s.onlyAudioMode && FirstIsSps(s.trace, events)
    && (s.status == RS_STM_Published && Untouched(s.trace) ==>
          if s.queue == [] then s.needKeyframe else SpsOf(s.queue[0], events))
  }

  lemma FirstMore(trace: seq<Happening>, h: Happening, events: seq<Event>)
    requires FirstIsSps(trace, events)
    requires h.Took? && Untouched(trace) ==> SpsOf(h.item, events)
    ensures FirstIsSps(trace + [h], events)
    ensures Untouched(trace + [h]) <==> h == OnRtmpConnected || (!h.Took? && Untouched(trace))
  {
    hide SpsOf;
    var t := trace + [h];
    assert forall j | 0 <= j < |trace| :: trace[j] == t[j];
    forall c: nat, i: nat | QuietFrom(t, c, i) && i < |t| && t[i].Took? ensures SpsOf(t[i].item, events) {
      assert QuietFrom(trace, c, i);
    }
    if h == OnRtmpConnected { assert QuietFrom(t, |trace|, |t|); }
    if !h.Took? && Untouched(trace) {
      var c: nat :| QuietFrom(trace, c, |trace|);
      assert QuietFrom(t, c, |t|);
    }
    if Untouched(t) && h != OnRtmpConnected {
      var c: nat :| QuietFrom(t, c, |t|);
      assert t[|trace|] == h;
      assert QuietFrom(trace, c, |trace|);
    }
  }

  /** What a key frame queues first is its SPS exactly when the scan sees a start code behind the frame's own. */
  lemma SpsFirst(frame: seq<byte>, ts: uint32)
    requires |frame| > 4 && IsKeyFrame(frame)
    ensures IsSps(EncData(VIDEO_DATA, Split(frame).sps, ts)) <==> NextHit(frame, 4) < |frame|
  {
    assert 8 < |frame| ==> !Hit(frame, 4);
  }

  lemma GivenSps(e: Event, events: seq<Event>)
    requires e in events && e.Video? && Enabled(e) && WellFormed(e) && IsKeyFrame(e.frame)
    ensures SpsOf(EncData(VIDEO_DATA, Split(e.frame).sps, e.ts), events)
  {
    hide NextHit, Split;
    SpsFirst(e.frame, e.ts);
    assert Gives(e, EncData(VIDEO_DATA, Split(e.frame).sps, e.ts));
  }

  lemma SendKeepsGate(s: State, o: Outcome, events: seq<Event>)
    requires GateInv(s, events) && s.status == RS_STM_Published
    ensures GateInv(AfterSend(s, o), events)
  {
    hide FirstIsSps, Untouched, SpsOf, IsSps;
    FirstMore(s.trace, OnRtmpStatusEvent, events);
    if s.queue != [] {
      var t := s.trace + [Took(s.queue[0])];
      FirstMore(s.trace, Took(s.queue[0]), events);
      FirstMore(t, OnRtmpDisconnect, events);
      FirstMore(t, OnRtmpReconnecting(s.retrys + 1), events);
      FirstMore(t, OnRtmpStatusEvent, events);
    }
  }

  lemma TurnKeepsGate(s: State, o: Outcome, events: seq<Event>)
    requires GateInv(s, events)
    ensures GateInv(AfterTurn(s, o), events)
  {
    hide FirstIsSps, Untouched, SpsOf, IsSps, AfterSend;
    if s.status == RS_STM_Published { SendKeepsGate(s, o, events); }
    FirstMore(s.trace, OnRtmpConnected, events);
    FirstMore(s.trace, OnRtmpDisconnect, events);
    FirstMore(s.trace, OnRtmpReconnecting(s.retrys + 1), events);
  }

  lemma StepKeepsGate(s: State, e: Event, events: seq<Event>)
    requires GateInv(s, events) && e in events && Enabled(e) && WellFormed(e) && !e.AudioOnly?
    ensures GateInv(Step(s, e), events)
  {
    hide FirstIsSps, Untouched, SpsOf, AfterTurn, NextHit, Split;
    match e
    case Turned(o) => TurnKeepsGate(s, o, events);
    case Video(frame, ts) => if IsKeyFrame(frame) { GivenSps(e, events); }
    case _ =>
  }

  lemma SpsOfMore(item: EncData, before: seq<Event>, events: seq<Event>)
    requires SpsOf(item, before) && forall e | e in before :: e in events
    ensures SpsOf(item, events)
  {
    hide Gives, IsSps;
    var e :| e in before && Gives(e, item);
    assert e in events;
  }

  lemma GateMore(s: State, before: seq<Event>, events: seq<Event>)
    requires GateInv(s, before) && forall e | e in before :: e in events
    ensures GateInv(s, events)
  {
    hide SpsOf;
    forall item | SpsOf(item, before) ensures SpsOf(item, events) {
      SpsOfMore(item, before, events);
    }
  }

  /**
   Outside audio-only mode, with key frames that hold a start code behind their own, sending begins
   with the sequence parameter set of one of these key frames.
   */
  lemma {:induction false} StreamStartsWithSps(created: bool, events: seq<Event>)
    requires forall e | e in events :: Enabled(e) && WellFormed(e) && !e.AudioOnly?
    ensures GateInv(Run(created, events), events) && FirstIsSps(Run(created, events).trace, events)
    decreases |events|
  {
    hide Step, Untouched, SpsOf;
    if events != [] {
      var before := events[..|events| - 1];
      StreamStartsWithSps(created, before);
      GateMore(Run(created, before), before, events);
      StepKeepsGate(Run(created, before), events[|events| - 1], events);
    }
  }
}

/**
 anyrtmpush.cc once more, with its threads interleaved: SetH264Data and SetAacData test the gate
 without a lock and queue afterwards, while CallConnect closes the gate and then empties the queue.
 The encoders call one at a time, under the lock of anyrtmpstreamer.cc:210-226; the thread of Run
 does not take that lock.
 */
module KeyFrameGate {
  import opened Common
  import opened Words
  import opened AnyRtmpPush

  /** Where the call of an encoder is: at the test of the gate, or past it with items to queue. */
  datatype Encoder = Idle | AtTest(frame: seq<byte>, ts: uint32) | Queueing(items: seq<EncData>)

  /** `clearing`: CallConnect has closed the gate; `given`: the parameter sets of the key frames handed in. */
  datatype Threads = Threads(s: State, encoder: Encoder, clearing: bool, given: set<EncData>)

  /** One access to what the threads share, or a turn of Run that does not connect. */
  datatype Move =
    | Turning(o: Outcome)
    | Clearing
    | OpenGate(frame: seq<byte>, ts: uint32)
    | TestGate
    | TestAudio(data: seq<byte>, ts: uint32)
    | Queue

  ghost predicate CanMove(x: Threads, m: Move) {
    match m
    case Turning(_) => !x.clearing
    case Clearing => x.clearing
    case OpenGate(frame, _) => x.encoder.Idle? && |frame| > 4
    case TestGate => x.encoder.AtTest?
    case TestAudio(_, _) => x.encoder.Idle?
    case Queue => x.encoder.Queueing? && x.encoder.items != []
  }

  /** What a frame queues once it is past the gate. */
  ghost function ItemsOf(frame: seq<byte>, ts: uint32): seq<EncData> {
    if |frame| > 4 && IsKeyFrame(frame) then
      var p := Split(frame);
      [EncData(VIDEO_DATA, p.sps, ts), EncData(VIDEO_DATA, p.pps, ts), EncData(VIDEO_DATA, p.idr, ts)]
    else [EncData(VIDEO_DATA, frame, ts)]
  }

  ghost function AfterMove(x: Threads, m: Move): Threads
    requires CanMove(x, m)
  {
    match m
    case Turning(o) =>
      if Connects(x.s, Turned(o)) then
        x.(s := x.s.(status := RS_STM_Published, needKeyframe := true, retrys := 0), clearing := true)
      else x.(s := AfterTurn(x.s, o))
    case Clearing => x.(s := x.s.(queue := [], trace := x.s.trace + [OnRtmpConnected]), clearing := false)
    case OpenGate(frame, ts) =>
      if IsKeyFrame(frame) then
        x.(s := x.s.(needKeyframe := false), encoder := AtTest(frame, ts),
           given := x.given + {EncData(VIDEO_DATA, Split(frame).sps, ts)})
      else x.(encoder := AtTest(frame, ts))
    case TestGate =>
      x.(encoder := if x.s.needKeyframe then Idle else Queueing(ItemsOf(x.encoder.frame, x.encoder.ts)))
    case TestAudio(data, ts) =>
      if x.s.needKeyframe && !x.s.onlyAudioMode then x
      else x.(encoder := Queueing([EncData(AUDIO_DATA, data, ts)]))
    case Queue =>
      var items := x.encoder.items;
      x.(s := x.s.(queue := x.s.queue + [items[0]]), encoder := if |items| == 1 then Idle else Queueing(items[1..]))
  }

  ghost predicate CanRun(x: Threads, moves: seq<Move>)
    decreases |moves|
  {
    moves == [] || (CanMove(x, moves[0]) && CanRun(AfterMove(x, moves[0]), moves[1..]))
  }

  ghost function After(x: Threads, moves: seq<Move>): Threads
    requires CanRun(x, moves)
    decreases |moves|
  {
    if moves == [] then x else After(AfterMove(x, moves[0]), moves[1..])
  }

  function Initial(created: bool): Threads {
    Threads(Start(created), Idle, false, {})
  }

  lemma {:induction false} RunsOn(x: Threads, a: seq<Move>, b: seq<Move>)
    requires CanRun(x, a) && CanRun(After(x, a), b)
    ensures CanRun(x, a + b) && After(x, a + b) == After(After(x, a), b)
    decreases |a|
  {
    hide CanMove, AfterMove;
    if a == [] {
      assert a + b == b;
    } else {
      RunsOn(AfterMove(x, a[0]), a[1..], b);
      assert (a + b)[1..] == a[1..] + b;
    }
  }

  // ----- A handler at a time -----

  lemma OneMove(x: Threads, m: Move)
    requires CanMove(x, m)
    ensures CanRun(x, [m]) && After(x, [m]) == AfterMove(x, m)
  {
    hide CanMove, AfterMove;
    assert [m][1..] == [];
    assert CanRun(AfterMove(x, m), []);
  }

  /** Queueing goes through with all items. */
  lemma {:induction false} QueueAll(x: Threads, items: seq<EncData>) returns (moves: seq<Move>)
    requires x.encoder == Queueing(items) && items != []
    ensures CanRun(x, moves) && forall m | m in moves :: m == Queue
    ensures After(x, moves) == x.(s := x.s.(queue := x.s.queue + items), encoder := Idle)
    decreases |items|
  {
    var y := AfterMove(x, Queue);
    moves := [Queue];
    OneMove(x, Queue);
    if |items| > 1 {
      assert x.s.queue + [items[0]] + items[1..] == x.s.queue + items;
      var rest := QueueAll(y, items[1..]);
      RunsOn(x, [Queue], rest);
      moves := [Queue] + rest;
    } else {
      assert items == [items[0]];
    }
  }

  /** Each handler run without interruption is one step of AnyRtmpPush. */
  lemma HandlersAreRuns(x: Threads, e: Event) returns (moves: seq<Move>)
    requires x.encoder.Idle? && !x.clearing && Enabled(e) && !e.AudioOnly? && !e.Closing?
    ensures CanRun(x, moves)
    ensures var y := After(x, moves); y.s == Step(x.s, e) && y.encoder.Idle? && !y.clearing
  {
    hide AfterTurn, Split;
    match e
    case Turned(o) => moves := TurnIsRun(x, o);
    case Video(frame, ts) =>
      var y := AfterMove(x, OpenGate(frame, ts));
      OneMove(x, OpenGate(frame, ts));
      OneMove(y, TestGate);
      RunsOn(x, [OpenGate(frame, ts)], [TestGate]);
      moves := [OpenGate(frame, ts)] + [TestGate];
      var z := AfterMove(y, TestGate);
      if z.encoder.Queueing? {
        var rest := QueueAll(z, ItemsOf(frame, ts));
        RunsOn(x, moves, rest);
        moves := moves + rest;
      }
    case Audio(data, ts) =>
      var y := AfterMove(x, TestAudio(data, ts));
      OneMove(x, TestAudio(data, ts));
      moves := [TestAudio(data, ts)];
      if y.encoder.Queueing? {
        var rest := QueueAll(y, [EncData(AUDIO_DATA, data, ts)]);
        RunsOn(x, moves, rest);
        moves := moves + rest;
      }
  }

  lemma TurnIsRun(x: Threads, o: Outcome) returns (moves: seq<Move>)
    requires x.encoder.Idle? && !x.clearing
    ensures CanRun(x, moves)
    ensures var y := After(x, moves); y.s == AfterTurn(x.s, o) && y.encoder.Idle? && !y.clearing
  {
    OneMove(x, Turning(o));
    moves := [Turning(o)];
    if Connects(x.s, Turned(o)) {
      OneMove(AfterMove(x, Turning(o)), Clearing);
      RunsOn(x, [Turning(o)], [Clearing]);
      moves := moves + [Clearing];
    }
  }

  // ----- The first item -----

  /** The first item taken since the last OnRtmpConnected, or since the start. */
  ghost function FirstTaken(trace: seq<Happening>): Option<EncData> {
    if trace == [] then None
    else
      var before, h := FirstTaken(trace[..|trace| - 1]), trace[|trace| - 1];
      match h
      case OnRtmpConnected => None
      case Took(item) => if before.Some? then before else Some(item)
      case _ => before
  }

  lemma FirstMore(trace: seq<Happening>, h: Happening)
    ensures FirstTaken(trace + [h]) ==
            if h.OnRtmpConnected? then None
            else if h.Took? && FirstTaken(trace).None? then Some(h.item)
            else FirstTaken(trace)
  {
    assert (trace + [h])[..|trace|] == trace;
  }

  /** What is queued first, with an empty queue, is a parameter set. */
  ghost predicate Safe(x: Threads) {
    match x.encoder
    case Idle => x.s.needKeyframe
    case AtTest(frame, ts) =>
      || x.s.needKeyframe
      || (|frame| > 4 && IsKeyFrame(frame) && EncData(VIDEO_DATA, Split(frame).sps, ts) in x.given)
    case Queueing(items) => items != [] && items[0] in x.given
  }

  ghost predicate Begun(x: Threads) {
    && !x.s.onlyAudioMode
    && (forall item | item in x.given :: IsSps(item))
    && (x.encoder.AtTest? ==>
          && |x.encoder.frame| > 4
          && (IsKeyFrame(x.encoder.frame) ==>
                EncData(VIDEO_DATA, Split(x.encoder.frame).sps, x.encoder.ts) in x.given))
    && (x.encoder.Queueing? ==> x.encoder.items != [])
  }

  /** The next item taken, if it is the first one since OnRtmpConnected, is a parameter set. */
  ghost predicate Ready(x: Threads) {
    && (FirstTaken(x.s.trace).Some? ==> FirstTaken(x.s.trace).value in x.given)
    && (x.s.status == RS_STM_Published && !x.clearing && FirstTaken(x.s.trace).None? ==>
          if x.s.queue == [] then Safe(x) else x.s.queue[0] in x.given)
  }

  /** A key frame is split at least once. */
  ghost predicate Sound(m: Move) {
    m.OpenGate? && |m.frame| > 4 && IsKeyFrame(m.frame) ==> NextHit(m.frame, 4) < |m.frame|
  }

  lemma MoveKeepsBegun(x: Threads, m: Move)
    requires Begun(x) && CanMove(x, m) && Sound(m)
    ensures Begun(AfterMove(x, m)) && x.given <= AfterMove(x, m).given
  {
    hide IsSps, Split, AfterTurn, NextHit;
    match m
    case Turning(o) => TurnKeepsMode(x.s, o);
    case OpenGate(frame, ts) => if IsKeyFrame(frame) { SpsFirst(frame, ts); }
    case _ =>
  }

  lemma TurnKeepsMode(s: State, o: Outcome)
    ensures AfterTurn(s, o).onlyAudioMode == s.onlyAudioMode
  {
  }

  /** Once the emptied queue leaves a safe state, no interleaving lets another item go first. */
  lemma MoveKeepsReady(x: Threads, m: Move)
    requires Begun(x) && Ready(x) && CanMove(x, m) && Sound(m)
    requires m.Clearing? ==> Safe(AfterMove(x, m))
    ensures Ready(AfterMove(x, m))
  {
    hide FirstTaken, IsSps, Split, AfterTurn, NextHit;
    match m
    case Turning(o) => if !Connects(x.s, Turned(o)) { TurnKeepsReady(x, o); }
    case Clearing => FirstMore(x.s.trace, OnRtmpConnected);
    case _ =>
  }

  lemma TurnKeepsReady(x: Threads, o: Outcome)
    requires Ready(x) && !x.clearing && !Connects(x.s, Turned(o))
    ensures Ready(x.(s := AfterTurn(x.s, o)))
  {
    hide FirstTaken, AfterSend;
    if x.s.status == RS_STM_Published { SendKeepsReady(x, o); }
    FirstMore(x.s.trace, OnRtmpDisconnect);
    FirstMore(x.s.trace, OnRtmpReconnecting(x.s.retrys + 1));
  }

  lemma SendKeepsReady(x: Threads, o: Outcome)
    requires Ready(x) && !x.clearing && x.s.status == RS_STM_Published
    ensures Ready(x.(s := AfterSend(x.s, o)))
  {
    hide FirstTaken, Safe;
    FirstMore(x.s.trace, OnRtmpStatusEvent);
    if x.s.queue == [] {
      SafeElsewhere(x, x.(s := AfterStats(x.s, o)));
    } else {
      var t := x.s.trace + [Took(x.s.queue[0])];
      FirstMore(x.s.trace, Took(x.s.queue[0]));
      FirstMore(t, OnRtmpDisconnect);
      FirstMore(t, OnRtmpReconnecting(x.s.retrys + 1));
      FirstMore(t, OnRtmpStatusEvent);
    }
  }

  lemma SafeElsewhere(x: Threads, y: Threads)
    requires y.encoder == x.encoder && y.given == x.given && y.s.needKeyframe == x.s.needKeyframe
    ensures Safe(x) == Safe(y)
  {
    hide Split;
  }

  /** Every time the queue has been emptied the state is safe. */
  ghost predicate Calm(x: Threads, moves: seq<Move>)
    requires CanRun(x, moves)
    decreases |moves|
  {
    moves != [] ==>
      && Sound(moves[0]) && (moves[0].Clearing? ==> Safe(AfterMove(x, moves[0])))
      && Calm(AfterMove(x, moves[0]), moves[1..])
  }

  lemma {:induction false} CalmRuns(x: Threads, moves: seq<Move>)
    requires CanRun(x, moves) && Calm(x, moves) && Begun(x) && Ready(x)
    ensures Begun(After(x, moves)) && Ready(After(x, moves)) && x.given <= After(x, moves).given
    decreases |moves|
  {
    if moves != [] {
      hide Begun, Ready, Safe, AfterMove, Sound;
      MoveKeepsBegun(x, moves[0]);
      MoveKeepsReady(x, moves[0]);
      CalmRuns(AfterMove(x, moves[0]), moves[1..]);
    }
  }

  /**
   In every interleaving in which each emptying of the queue leaves a safe state, the first item taken
   after each OnRtmpConnected is the sequence parameter set of a key frame handed in.
   */
  lemma FirstIsSpsUnlessDisturbed(created: bool, moves: seq<Move>)
    requires CanRun(Initial(created), moves) && Calm(Initial(created), moves)
    ensures var x := After(Initial(created), moves);
            FirstTaken(x.s.trace).Some? ==>
              FirstTaken(x.s.trace).value in x.given && IsSps(FirstTaken(x.s.trace).value)
  {
    CalmRuns(Initial(created), moves);
  }

  // ----- When it goes wrong -----

  /** OnRtmpConnected has just been called: the queue is empty, and sending comes next. */
  ghost predicate JustConnected(x: Threads) {
    && x.s.running && x.s.rtmp && x.s.status == RS_STM_Published && !x.clearing && x.s.queue == []
    && FirstTaken(x.s.trace).None?
  }

  /** A continuation within this connection, with key frames that are split at least once. */
  ghost predicate Continues(x: Threads, moves: seq<Move>) {
    CanRun(x, moves) && forall m | m in moves :: Sound(m) && !m.Clearing?
  }

  /** In every continuation the first item taken is a parameter set of a key frame. */
  ghost predicate AlwaysSps(x: Threads) {
    forall moves | Continues(x, moves) ::
      var y := After(x, moves);
      FirstTaken(y.s.trace).Some? ==> FirstTaken(y.s.trace).value in y.given
  }

  lemma {:induction false} ContinuesCalm(x: Threads, moves: seq<Move>)
    requires Continues(x, moves)
    ensures Calm(x, moves)
    decreases |moves|
  {
    if moves != [] {
      hide CanMove, AfterMove, Safe, Sound;
      ContinuesCalm(AfterMove(x, moves[0]), moves[1..]);
    }
  }

  /** Sending what has been queued on an empty queue. */
  lemma TakesFirst(x: Threads) returns (moves: seq<Move>)
    requires JustConnected(x) && x.encoder.Queueing? && x.encoder.items != []
    ensures Continues(x, moves)
    ensures var y := After(x, moves);
            FirstTaken(y.s.trace) == Some(x.encoder.items[0]) && y.given == x.given
  {
    var o, item := Outcome(true, false, false, false), x.encoder.items[0];
    var y := AfterMove(x, Queue);
    assert y.s.queue == [item];
    SendsOne(y.s, item, o);
    hide FirstTaken, AfterTurn, CanRun, After;
    assert !Connects(y.s, Turned(o));
    OneMove(x, Queue);
    OneMove(y, Turning(o));
    RunsOn(x, [Queue], [Turning(o)]);
    moves := [Queue] + [Turning(o)];
    FirstMore(x.s.trace, Took(item));
  }

  lemma SendsOne(s: State, item: EncData, o: Outcome)
    requires s.running && s.rtmp && s.status == RS_STM_Published && s.queue == [item] && o.ok && !o.statsDue
    ensures AfterTurn(s, o).trace == s.trace + [Took(item)]
  {
  }

  /** Frame and items of a frame that is let through the open gate. */
  lemma TestsThenTakes(x: Threads) returns (moves: seq<Move>)
    requires JustConnected(x) && x.encoder.AtTest? && !x.s.needKeyframe
    ensures Continues(x, moves)
    ensures var y := After(x, moves);
            FirstTaken(y.s.trace) == Some(ItemsOf(x.encoder.frame, x.encoder.ts)[0]) && y.given == x.given
  {
    hide FirstTaken, Split;
    OneMove(x, TestGate);
    var rest := TakesFirst(AfterMove(x, TestGate));
    RunsOn(x, [TestGate], rest);
    moves := [TestGate] + rest;
  }

  /** An unsafe state has a continuation in which something else goes first. */
  lemma UnsafeGoesWrong(x: Threads) returns (moves: seq<Move>)
    requires Begun(x) && JustConnected(x) && !Safe(x)
    ensures Continues(x, moves)
    ensures var y := After(x, moves);
            FirstTaken(y.s.trace).Some? && FirstTaken(y.s.trace).value !in y.given
  {
    hide FirstTaken, Split;
    match x.encoder
    case Queueing(items) => moves := TakesFirst(x);
    case AtTest(frame, ts) => moves := TestsThenTakes(x);
    case Idle =>
      var open := OpenGate([0, 0, 0, 1, 1], 0);
      OneMove(x, open);
      var rest := TestsThenTakes(AfterMove(x, open));
      RunsOn(x, [open], rest);
      moves := [open] + rest;
  }

  /**
   Sending begins with a sequence parameter set, however the threads go on, exactly when the state
   that CallConnect leaves is safe: no item is past the gate but a parameter set, and the gate is
   closed unless a key frame is at it.
   */
  lemma SafeExactly(x: Threads)
    requires Begun(x) && JustConnected(x)
    ensures Safe(x) <==> AlwaysSps(x)
  {
    hide FirstTaken, Begun;
    if Safe(x) {
      forall moves | Continues(x, moves)
        ensures var y := After(x, moves);
                FirstTaken(y.s.trace).Some? ==> FirstTaken(y.s.trace).value in y.given
      {
        ContinuesCalm(x, moves);
        CalmRuns(x, moves);
      }
    } else {
      var moves := UnsafeGoesWrong(x);
      assert Continues(x, moves);
    }
  }

  lemma ThenMove(x: Threads, moves: seq<Move>, m: Move) returns (y: Threads)
    requires CanRun(x, moves) && CanMove(After(x, moves), m)
    ensures CanRun(x, moves + [m]) && y == After(x, moves + [m]) == AfterMove(After(x, moves), m)
  {
    hide CanMove, AfterMove;
    OneMove(After(x, moves), m);
    RunsOn(x, moves, [m]);
    y := After(x, moves + [m]);
  }

  /**
   Such a state is reached: a frame that is no key frame passes the gate before the connection is
   made, and is queued after CallConnect has emptied the queue.
   */
  lemma StaleItem(key: seq<byte>, frame: seq<byte>) returns (moves: seq<Move>)
    requires |key| > 4 && IsKeyFrame(key) && NextHit(key, 4) < |key|
    requires |frame| > 4 && !IsKeyFrame(frame)
    ensures CanRun(Initial(true), moves) && forall m | m in moves :: Sound(m)
    ensures var x := After(Initial(true), moves);
            Begun(x) && JustConnected(x) && !Safe(x) && x.encoder == Queueing([EncData(VIDEO_DATA, frame, 1)])
  {
    var x, ok := Initial(true), Outcome(true, false, false, false);
    hide Split, NextHit, CanRun, After;
    moves := GateOpened(key);
    var y := After(x, moves);
    y := ThenMove(x, moves, OpenGate(frame, 1));
    moves := moves + [OpenGate(frame, 1)];
    y := ThenMove(x, moves, TestGate);
    moves := moves + [TestGate];
    y := ThenMove(x, moves, Turning(ok));
    moves := moves + [Turning(ok)];
    y := ThenMove(x, moves, Clearing);
    moves := moves + [Clearing];
  }

  /** Ready to publish, with a key frame handed in and queued. */
  lemma GateOpened(key: seq<byte>) returns (moves: seq<Move>)
    requires |key| > 4 && IsKeyFrame(key) && NextHit(key, 4) < |key|
    ensures CanRun(Initial(true), moves) && forall m | m in moves :: Sound(m)
    ensures After(Initial(true), moves) ==
            Threads(State(true, RS_STM_Connected, true, false, false, 0, ItemsOf(key, 0), []), Idle, false,
                    {EncData(VIDEO_DATA, Split(key).sps, 0)})
    ensures IsSps(EncData(VIDEO_DATA, Split(key).sps, 0))
  {
    var x, ok := Initial(true), Outcome(true, false, false, false);
    SpsFirst(key, 0);
    assert CanRun(x, []) && After(x, []) == x;
    hide Split, NextHit, CanRun, After, IsSps;
    moves := [Turning(ok)];
    OneMove(x, Turning(ok));
    var y := ThenMove(x, moves, Turning(ok));
    moves := moves + [Turning(ok)];
    y := ThenMove(x, moves, OpenGate(key, 0));
    moves := moves + [OpenGate(key, 0)];
    y := ThenMove(x, moves, TestGate);
    moves := moves + [TestGate];
    var rest := QueueAll(y, ItemsOf(key, 0));
    RunsOn(x, moves, rest);
    moves := moves + rest;
    assert [] + ItemsOf(key, 0) == ItemsOf(key, 0);
  }

  /** With no encoder call under way while CallConnect runs, the state it leaves is safe. */
  lemma QuietIsSafe(x: Threads, o: Outcome)
    requires x.encoder.Idle? && !x.clearing && Connects(x.s, Turned(o))
    ensures Safe(AfterMove(AfterMove(x, Turning(o)), Clearing))
  {
  }
}

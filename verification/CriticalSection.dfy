/**
 The hand-written recursive lock of criticalsection.cc: one atomic counter
 `lock_queue_`, a plain owner field, a plain recursion count and a counting
 semaphore.  The lock is a transition system with one step per shared access, over
 any number of threads and any interleaving.  A failed `RTC_DCHECK` sends the thread
 to `Aborted`, so "no check ever fails" is "no thread is ever aborted".
 */
module CriticalSection {
  import opened Common

  /** Where a thread is.  Every constructor names the access the thread does next. */
  datatype Pc =
    | Idle
      // Enter: the spin loop
    | SpinReadOwner(spin: nat)
    | SpinLoad(spin: nat)
    | SpinCas(spin: nat)
    | SpinYield(spin: nat)
    | Reenter
      // Enter: queue up and wait
    | Enqueue
    | CheckNotOwner
    | Wait
    | CheckNoOwner
    | CheckNoRecursion
      // Enter: take possession; `++recursion_` is a load and a store
    | SetOwner
    | LoadRecursion
    | StoreRecursion(loaded: int)
      // TryEnter
    | TryReadOwner
    | TryCas
    | TrySetOwner
    | TryCheckRecursion
    | TryReenter
      // Leave
    | LeaveCheckOwner
    | LeaveCheckCount
    | LeaveLoad
    | LeaveStore(loaded: int)
    | LeaveTest
    | ClearOwner
    | Dequeue
    | TestRecursion
    | Signal
      // a failed RTC_DCHECK
    | Aborted

  /** `held` counts the thread's acquisitions that are not yet given back. */
  datatype Thread = Thread(pc: Pc, held: nat)

  datatype State = State(lockQueue: int, owner: Option<nat>, recursion: int, tokens: nat, threads: seq<Thread>)

  datatype Action =
    | CallEnter(tid: nat)
    | CallTryEnter(tid: nat)
    | CallLeave(tid: nat)
    | Run(tid: nat)

  const SPIN_COUNT: nat := 3000

  function Init(threads: nat): State {
    State(0, None, 0, 0, seq(threads, _ => Thread(Idle, 0)))
  }

  /** A caller may start a call when idle, and may leave only what it has entered. */
  predicate Enabled(s: State, a: Action) {
    && a.tid < |s.threads|
    && var t := s.threads[a.tid];
       match a
       case CallEnter(_) => t.pc == Idle
       case CallTryEnter(_) => t.pc == Idle
       case CallLeave(_) => t.pc == Idle && t.held > 0
       case Run(_) => t.pc != Idle && t.pc != Aborted && (t.pc == Wait ==> s.tokens > 0)
  }

  function Apply(s: State, a: Action): State
    requires Enabled(s, a)
  {
    match a
    case CallEnter(i) => Goto(s, i, SpinReadOwner(SPIN_COUNT))
    case CallTryEnter(i) => Goto(s, i, TryReadOwner)
    case CallLeave(i) => Goto(s, i, LeaveCheckOwner)
    case Run(i) => Advance(s, i)
  }

  function Goto(s: State, i: nat, pc: Pc): State
    requires i < |s.threads|
  {
    s.(threads := s.threads[i := s.threads[i].(pc := pc)])
  }

  /** Returns from a call that left the thread with `held` acquisitions. */
  function Return(s: State, i: nat, held: nat): State
    requires i < |s.threads|
  {
    s.(threads := s.threads[i := Thread(Idle, held)])
  }

  function Check(s: State, i: nat, ok: bool, next: Pc): State
    requires i < |s.threads|
  {
    Goto(s, i, if ok then next else Aborted)
  }

  /** One shared access of thread `i`. */
  function Advance(s: State, i: nat): State
    requires Enabled(s, Run(i))
  {
    var t := s.threads[i];
    match t.pc
    case SpinReadOwner(n) =>
      Goto(s, i, if s.owner == Some(i) then Reenter else SpinLoad(n))
    case SpinLoad(n) =>
      Goto(s, i, if s.lockQueue == 0 then SpinCas(n) else SpinYield(n))
    case SpinCas(n) =>
      if s.lockQueue == 0 then Goto(s.(lockQueue := 1), i, SetOwner) else Goto(s, i, SpinYield(n))
    case SpinYield(n) =>
      Goto(s, i, if n > 1 then SpinReadOwner(n - 1) else Enqueue)
    case Reenter => Goto(s.(lockQueue := s.lockQueue + 1), i, SetOwner)
    case Enqueue =>
      Goto(s.(lockQueue := s.lockQueue + 1), i, if s.lockQueue + 1 > 1 then CheckNotOwner else SetOwner)
    case CheckNotOwner => Check(s, i, s.owner != Some(i), Wait)
    case Wait => Goto(s.(tokens := s.tokens - 1), i, CheckNoOwner)
    case CheckNoOwner => Check(s, i, s.owner == None, CheckNoRecursion)
    case CheckNoRecursion => Check(s, i, s.recursion == 0, SetOwner)
    case SetOwner => Goto(s.(owner := Some(i)), i, LoadRecursion)
    case LoadRecursion => Goto(s, i, StoreRecursion(s.recursion))
    case StoreRecursion(r) => Return(s.(recursion := r + 1), i, t.held + 1)
    case TryReadOwner =>
      Goto(s, i, if s.owner == Some(i) then TryReenter else TryCas)
    case TryCas =>
      if s.lockQueue == 0 then Goto(s.(lockQueue := 1), i, TrySetOwner) else Return(s, i, t.held)
    case TrySetOwner => Goto(s.(owner := Some(i)), i, TryCheckRecursion)
    case TryCheckRecursion => Check(s, i, s.recursion == 0, LoadRecursion)
    case TryReenter => Goto(s.(lockQueue := s.lockQueue + 1), i, LoadRecursion)
    case LeaveCheckOwner => Check(s, i, s.owner == Some(i), LeaveCheckCount)
    case LeaveCheckCount => Check(s, i, s.recursion >= 0, LeaveLoad)
    case LeaveLoad => Goto(s, i, LeaveStore(s.recursion))
    case LeaveStore(r) => Goto(s.(recursion := r - 1), i, LeaveTest)
    case LeaveTest => Goto(s, i, if s.recursion == 0 then ClearOwner else Dequeue)
    case ClearOwner => Goto(s.(owner := None), i, Dequeue)
    case Dequeue =>
      var left := if t.held > 0 then t.held - 1 else 0;
      s.(lockQueue := s.lockQueue - 1,
      threads := s.threads[i := Thread(if s.lockQueue - 1 > 0 then TestRecursion else Idle, left)])
    case TestRecursion =>
      if s.recursion == 0 then Goto(s, i, Signal) else Return(s, i, t.held)
    case Signal => Return(s.(tokens := s.tokens + 1), i, t.held)
  }

  // ----- Runs -----

  predicate IsRun(s: State, run: seq<Action>)
    decreases |run|
  {
    run == [] || (Enabled(s, run[0]) && IsRun(Apply(s, run[0]), run[1..]))
  }

  function After(s: State, run: seq<Action>): State
    requires IsRun(s, run)
    decreases |run|
  {
    if run == [] then s else After(Apply(s, run[0]), run[1..])
  }

  // ----- What a thread's position means -----

  /** Its share of `lock_queue_`: acquisitions not given back, plus one while it waits or takes possession. */
  function Share(t: Thread): nat {
    t.held + (if IsWaiter(t) || TakingPossession(t) then 1 else 0)
  }

  predicate IsWaiter(t: Thread) {
    t.pc.CheckNotOwner? || t.pc.Wait?
  }

  /** The lock was won or handed over, and the call has not returned yet. */
  predicate TakingPossession(t: Thread) {
    || t.pc.CheckNoOwner? || t.pc.CheckNoRecursion? || t.pc.SetOwner? || t.pc.LoadRecursion? || t.pc.StoreRecursion?
    || t.pc.TrySetOwner? || t.pc.TryCheckRecursion?
  }

  /** The thread gave the lock back and still owes a wake-up. */
  predicate OwesWakeUp(t: Thread) {
    t.pc.TestRecursion? || t.pc.Signal?
  }

  /** Between a successful acquire and the end of its final release. */
  predicate HasLock(t: Thread) {
    t.held > 0 || TakingPossession(t) || OwesWakeUp(t)
  }

  predicate InLeave(t: Thread) {
    || t.pc.LeaveCheckOwner? || t.pc.LeaveCheckCount? || t.pc.LeaveLoad? || t.pc.LeaveStore?
    || t.pc.LeaveTest? || t.pc.ClearOwner? || t.pc.Dequeue?
  }

  /** What `recursion_` must hold while `t` has the lock. */
  function DepthOf(t: Thread): int {
    if t.pc.LeaveTest? || t.pc.ClearOwner? || t.pc.Dequeue? then t.held - 1 else t.held
  }

  /** Whether `owning_thread_` must name the thread that has the lock. */
  predicate NamedOwner(t: Thread) {
    || t.pc.LoadRecursion? || t.pc.StoreRecursion? || t.pc.TryCheckRecursion?
    || (t.held > 0 && !(t.pc.Dequeue? && t.held == 1))
  }

  /** Which positions are possible with how many acquisitions. */
  predicate ThreadOk(t: Thread) {
    && !t.pc.Aborted?
    && (IsWaiter(t) || t.pc.SpinLoad? || t.pc.SpinCas? || t.pc.SpinYield? || t.pc.Enqueue? ==> t.held == 0)
    && (t.pc.CheckNoOwner? || t.pc.CheckNoRecursion? || t.pc.Signal? ==> t.held == 0)
    && (t.pc.TryCas? || t.pc.TrySetOwner? || t.pc.TryCheckRecursion? ==> t.held == 0)
    && (t.pc.Reenter? || t.pc.TryReenter? || InLeave(t) ==> t.held > 0)
    && (t.pc.StoreRecursion? || t.pc.LeaveStore? ==> t.pc.loaded == t.held)
    && (t.pc.ClearOwner? ==> t.held == 1)
  }

  function Shares(ts: seq<Thread>): nat {
    if ts == [] then 0 else Share(ts[0]) + Shares(ts[1..])
  }

  function Holders(ts: seq<Thread>): nat {
    if ts == [] then 0 else (if HasLock(ts[0]) then 1 else 0) + Holders(ts[1..])
  }

  ghost predicate Inv(s: State) {
    && (forall i | 0 <= i < |s.threads| :: ThreadOk(s.threads[i]))
    && s.lockQueue == Shares(s.threads)
    && s.tokens + Holders(s.threads) == (if s.lockQueue > 0 then 1 else 0)
    && (forall i | 0 <= i < |s.threads| && HasLock(s.threads[i]) ::
          && s.recursion == DepthOf(s.threads[i])
          && s.owner == (if NamedOwner(s.threads[i]) then Some(i) else None))
    && (Holders(s.threads) == 0 ==> s.owner == None && s.recursion == 0)
  }

  // ----- Counting lemmas -----

  lemma {:induction false} SharesUpdate(ts: seq<Thread>, i: nat, t: Thread)
    requires i < |ts|
    ensures Shares(ts[i := t]) == Shares(ts) - Share(ts[i]) + Share(t)
    ensures Shares(ts) >= Share(ts[i])
  {
    if i == 0 {
      assert ts[i := t][1..] == ts[1..];
    } else {
      assert ts[i := t][1..] == ts[1..][i - 1 := t];
      SharesUpdate(ts[1..], i - 1, t);
    }
  }

  lemma {:induction false} HoldersUpdate(ts: seq<Thread>, i: nat, t: Thread)
    requires i < |ts|
    ensures Holders(ts[i := t]) == Holders(ts) - (if HasLock(ts[i]) then 1 else 0) + (if HasLock(t) then 1 else 0)
    ensures Holders(ts) >= if HasLock(ts[i]) then 1 else 0
  {
    if i == 0 {
      assert ts[i := t][1..] == ts[1..];
    } else {
      assert ts[i := t][1..] == ts[1..][i - 1 := t];
      HoldersUpdate(ts[1..], i - 1, t);
    }
  }

  lemma {:induction false} TwoHolders(ts: seq<Thread>, i: nat, j: nat)
    requires i < j < |ts| && HasLock(ts[i]) && HasLock(ts[j])
    ensures Holders(ts) >= 2
  {
    if i == 0 {
      HoldersUpdate(ts[1..], j - 1, ts[j]);
    } else {
      TwoHolders(ts[1..], i - 1, j - 1);
    }
  }

  lemma {:induction false} SomeHolder(ts: seq<Thread>) returns (i: nat)
    requires Holders(ts) > 0
    ensures i < |ts| && HasLock(ts[i])
  {
    if HasLock(ts[0]) {
      i := 0;
    } else {
      var j := SomeHolder(ts[1..]);
      i := j + 1;
    }
  }

  lemma {:induction false} IdleSums(ts: seq<Thread>)
    requires forall i | 0 <= i < |ts| :: ts[i] == Thread(Idle, 0)
    ensures Shares(ts) == 0 && Holders(ts) == 0
  {
    if ts != [] {
      assert ts[0] == Thread(Idle, 0);
      IdleSums(ts[1..]);
    }
  }

  lemma OnlyHolder(s: State, i: nat, j: nat)
    requires Inv(s) && i < |s.threads| && j < |s.threads|
    requires HasLock(s.threads[i]) && HasLock(s.threads[j])
    ensures i == j
  {
    if i < j { TwoHolders(s.threads, i, j); }
    if j < i { TwoHolders(s.threads, j, i); }
  }

  // ----- Every step keeps the invariant -----

  /** If nobody but `i` has the lock, then nobody but `i` is named or counted. */
  lemma OthersAreOut(s: State, i: nat)
    requires Inv(s) && i < |s.threads|
    requires HasLock(s.threads[i]) || Holders(s.threads) == 0
    ensures forall j | 0 <= j < |s.threads| && j != i :: !HasLock(s.threads[j])
  {
    forall j | 0 <= j < |s.threads| && j != i
      ensures !HasLock(s.threads[j])
    {
      HoldersUpdate(s.threads, j, s.threads[j]);
      if HasLock(s.threads[j]) { OnlyHolder(s, i, j); }
    }
  }

  function Holds(t: Thread): nat {
    if HasLock(t) then 1 else 0
  }

  function Busy(lockQueue: int): nat {
    if lockQueue > 0 then 1 else 0
  }

  /** The invariant as thread `i` sees it: its own position against the shared fields. */
  ghost predicate SeenBy(s: State, i: nat) {
    && i < |s.threads|
    && var t := s.threads[i];
       && ThreadOk(t)
       && 0 <= Share(t) <= s.lockQueue
       && s.tokens + Holds(t) <= Busy(s.lockQueue)
       && (HasLock(t) ==> s.recursion == DepthOf(t) && s.owner == if NamedOwner(t) then Some(i) else None)
       && (!HasLock(t) ==> s.owner != Some(i))
       && (s.lockQueue == 0 || s.tokens > 0 ==> s.owner == None && s.recursion == 0)
  }

  /** What one step of thread `i` does to the shared fields, in terms of its position before and after. */
  ghost predicate Effect(s: State, s': State, i: nat) {
    && i < |s.threads| && |s'.threads| == |s.threads|
    && s'.threads == s.threads[i := s'.threads[i]]
    && var t, t' := s.threads[i], s'.threads[i];
       && ThreadOk(t')
       && s'.lockQueue - s.lockQueue == Share(t') - Share(t)
       && s'.tokens + Holds(t') - Busy(s'.lockQueue) == s.tokens + Holds(t) - Busy(s.lockQueue)
       && (HasLock(t') ==>
             s'.recursion == DepthOf(t') && s'.owner == if NamedOwner(t') then Some(i) else None)
       && (!HasLock(t') && HasLock(t) ==> s'.owner == None && s'.recursion == 0)
       && (!HasLock(t') && !HasLock(t) ==> s'.owner == s.owner && s'.recursion == s.recursion)
       && (HasLock(t') && !HasLock(t) ==> s.lockQueue == 0 || s.tokens > 0)
  }

  predicate InSpinLoop(pc: Pc) {
    pc.SpinReadOwner? || pc.SpinLoad? || pc.SpinCas? || pc.SpinYield? || pc.Reenter? || pc.Enqueue?
  }

  predicate InQueue(pc: Pc) {
    pc.CheckNotOwner? || pc.Wait? || pc.CheckNoOwner? || pc.CheckNoRecursion?
  }

  predicate InTryEnter(pc: Pc) {
    pc.TryReadOwner? || pc.TryCas? || pc.TrySetOwner? || pc.TryCheckRecursion? || pc.TryReenter?
  }

  lemma CallEffect(s: State, a: Action)
    requires Enabled(s, a) && SeenBy(s, a.tid) && !a.Run?
    ensures Effect(s, Apply(s, a), a.tid)
  {
  }

  lemma SpinEffect(s: State, i: nat)
    requires Enabled(s, Run(i)) && SeenBy(s, i) && InSpinLoop(s.threads[i].pc)
    ensures Effect(s, Advance(s, i), i)
  {
    if s.threads[i].pc.SpinCas? || s.threads[i].pc.Enqueue? { CountUpEffect(s, i); }
  }

  lemma CountUpEffect(s: State, i: nat)
    requires Enabled(s, Run(i)) && SeenBy(s, i)
    requires s.threads[i].pc.SpinCas? || s.threads[i].pc.Enqueue?
    ensures Effect(s, Advance(s, i), i)
  {
  }

  lemma QueueEffect(s: State, i: nat)
    requires Enabled(s, Run(i)) && SeenBy(s, i) && InQueue(s.threads[i].pc)
    ensures Effect(s, Advance(s, i), i)
  {
  }

  lemma PossessEffect(s: State, i: nat)
    requires Enabled(s, Run(i)) && SeenBy(s, i)
    requires var pc := s.threads[i].pc; pc.SetOwner? || pc.LoadRecursion? || pc.StoreRecursion?
    ensures Effect(s, Advance(s, i), i)
  {
  }

  lemma TryEnterEffect(s: State, i: nat)
    requires Enabled(s, Run(i)) && SeenBy(s, i) && InTryEnter(s.threads[i].pc)
    ensures Effect(s, Advance(s, i), i)
  {
    if s.threads[i].pc.TryCas? || s.threads[i].pc.TrySetOwner? { TryAcquireEffect(s, i); }
  }

  lemma TryAcquireEffect(s: State, i: nat)
    requires Enabled(s, Run(i)) && SeenBy(s, i)
    requires s.threads[i].pc.TryCas? || s.threads[i].pc.TrySetOwner?
    ensures Effect(s, Advance(s, i), i)
  {
  }

  lemma LeaveEffect(s: State, i: nat)
    requires Enabled(s, Run(i)) && SeenBy(s, i)
    requires InLeave(s.threads[i]) && !s.threads[i].pc.Dequeue?
    ensures Effect(s, Advance(s, i), i)
  {
  }

  lemma ReleaseEffect(s: State, i: nat)
    requires Enabled(s, Run(i)) && SeenBy(s, i)
    requires s.threads[i].pc.Dequeue? || OwesWakeUp(s.threads[i])
    ensures Effect(s, Advance(s, i), i)
  {
  }

  lemma StepEffect(s: State, a: Action)
    requires Enabled(s, a) && SeenBy(s, a.tid)
    ensures Effect(s, Apply(s, a), a.tid)
  {
    var i := a.tid;
    var t := s.threads[i];
    if !a.Run? {
      CallEffect(s, a);
    } else if InSpinLoop(t.pc) {
      SpinEffect(s, i);
    } else if InQueue(t.pc) {
      QueueEffect(s, i);
    } else if InTryEnter(t.pc) {
      TryEnterEffect(s, i);
    } else if t.pc.Dequeue? || OwesWakeUp(t) {
      ReleaseEffect(s, i);
    } else if InLeave(t) {
      LeaveEffect(s, i);
    } else {
      PossessEffect(s, i);
    }
  }

  lemma SeesInv(s: State, i: nat)
    requires Inv(s) && i < |s.threads|
    ensures SeenBy(s, i)
  {
    var t := s.threads[i];
    SharesUpdate(s.threads, i, t);
    HoldersUpdate(s.threads, i, t);
    if Holders(s.threads) > 0 {
      var k := SomeHolder(s.threads);
    }
  }

  lemma StepKeepsInv(s: State, a: Action)
    requires Inv(s) && Enabled(s, a)
    ensures Inv(Apply(s, a))
  {
    var i, s' := a.tid, Apply(s, a);
    SeesInv(s, i);
    StepEffect(s, a);
    EffectKeepsInv(s, s', i);
  }

  lemma EffectKeepsInv(s: State, s': State, i: nat)
    requires Inv(s) && Effect(s, s', i)
    ensures Inv(s')
  {
    var t, t' := s.threads[i], s'.threads[i];
    SharesUpdate(s.threads, i, t');
    HoldersUpdate(s.threads, i, t');
    if HasLock(t) || Holders(s.threads) == 0 {
      OthersAreOut(s, i);
    }
  }

  lemma InitInv(threads: nat)
    ensures Inv(Init(threads))
  {
    IdleSums(Init(threads).threads);
  }

  lemma {:induction false} RunKeepsInv(s: State, run: seq<Action>)
    requires Inv(s) && IsRun(s, run)
    ensures Inv(After(s, run))
    decreases |run|
  {
    if run != [] {
      StepKeepsInv(s, run[0]);
      RunKeepsInv(Apply(s, run[0]), run[1..]);
    }
  }

  // ----- Main results, for every number of threads and every interleaving -----

  /** Mutual exclusion: at most one thread is between a successful acquire and its final release. */
  lemma MutualExclusion(threads: nat, run: seq<Action>, i: nat, j: nat)
    requires IsRun(Init(threads), run)
    requires i < j < |After(Init(threads), run).threads|
    ensures var s := After(Init(threads), run);
            !(HasLock(s.threads[i]) && HasLock(s.threads[j]))
  {
    InitInv(threads);
    RunKeepsInv(Init(threads), run);
    var s := After(Init(threads), run);
    if HasLock(s.threads[i]) && HasLock(s.threads[j]) {
      TwoHolders(s.threads, i, j);
    }
  }

  /** No check of Enter, TryEnter or Leave ever fails: what it checks holds where a thread gets to it. */
  lemma ChecksNeverFail(threads: nat, run: seq<Action>, i: nat)
    requires IsRun(Init(threads), run) && i < |After(Init(threads), run).threads|
    ensures var s := After(Init(threads), run);
            var pc := s.threads[i].pc;
            && pc != Aborted
            && (pc == CheckNotOwner ==> s.owner != Some(i))
            && (pc == CheckNoOwner ==> s.owner == None)
            && (pc == CheckNoRecursion || pc == TryCheckRecursion ==> s.recursion == 0)
            && (pc == LeaveCheckOwner ==> s.owner == Some(i))
            && (pc == LeaveCheckCount ==> s.recursion >= 0)
  {
    InitInv(threads);
    RunKeepsInv(Init(threads), run);
    SeesInv(After(Init(threads), run), i);
    hide Inv, Init;
  }

  /** While a thread is inside and between calls, it is the named owner and `recursion_` is its depth. */
  lemma OwnerAndDepth(threads: nat, run: seq<Action>, i: nat)
    requires IsRun(Init(threads), run) && i < |After(Init(threads), run).threads|
    requires After(Init(threads), run).threads[i].pc == Idle
    ensures var s := After(Init(threads), run);
            && (s.owner == Some(i) <==> s.threads[i].held > 0)
            && (s.threads[i].held > 0 ==> s.recursion == s.threads[i].held)
  {
    InitInv(threads);
    RunKeepsInv(Init(threads), run);
    var s := After(Init(threads), run);
    if s.threads[i].held == 0 && Holders(s.threads) > 0 {
      var k := SomeHolder(s.threads);
    }
  }

  /** `lock_queue_` is acquisitions plus waiters, and there is never more than one token. */
  lemma CounterAccounting(threads: nat, run: seq<Action>)
    requires IsRun(Init(threads), run)
    ensures var s := After(Init(threads), run);
            s.lockQueue == Shares(s.threads) && s.tokens <= 1
  {
    InitInv(threads);
    RunKeepsInv(Init(threads), run);
  }

  /** No lost wake-up: with nobody in possession and no token under way, the counter is 0 and nobody waits. */
  lemma NoLostWakeUp(threads: nat, run: seq<Action>)
    requires IsRun(Init(threads), run)
    ensures var s := After(Init(threads), run);
            (forall i | 0 <= i < |s.threads| :: !HasLock(s.threads[i])) && s.tokens == 0
            ==> s.lockQueue == 0 && forall i | 0 <= i < |s.threads| :: !IsWaiter(s.threads[i])
  {
    InitInv(threads);
    RunKeepsInv(Init(threads), run);
    var s := After(Init(threads), run);
    if (forall i | 0 <= i < |s.threads| :: !HasLock(s.threads[i])) && s.tokens == 0 {
      if Holders(s.threads) > 0 {
        var k := SomeHolder(s.threads);
      }
      forall i | 0 <= i < |s.threads| ensures !IsWaiter(s.threads[i]) {
        SharesUpdate(s.threads, i, s.threads[i]);
      }
    }
  }

  /** A blocked thread always has another thread that can move, or that is inside by its own choice. */
  lemma NoDeadlock(threads: nat, run: seq<Action>, i: nat)
    requires IsRun(Init(threads), run) && i < |After(Init(threads), run).threads|
    requires After(Init(threads), run).threads[i].pc == Wait
    requires After(Init(threads), run).tokens == 0
    ensures var s := After(Init(threads), run);
            exists j | 0 <= j < |s.threads| ::
              && j != i && HasLock(s.threads[j])
              && (Enabled(s, Run(j)) || Enabled(s, CallLeave(j)))
  {
    InitInv(threads);
    RunKeepsInv(Init(threads), run);
    var s := After(Init(threads), run);
    SharesUpdate(s.threads, i, s.threads[i]);
    var j := SomeHolder(s.threads);
    SeesInv(s, j);
    DriveStep(s, j);
    hide Inv, Enabled, SeenBy;
  }

  // ----- A waiter is never stuck -----

  /** How far a thread in possession is from having given everything back. */
  function Distance(t: Thread): nat {
    20 * t.held +
    match t.pc
    case SpinReadOwner(_) => 35
    case Reenter => 34
    case CheckNoOwner => 35
    case CheckNoRecursion => 34
    case SetOwner => 33
    case LoadRecursion => 32
    case StoreRecursion(_) => 31
    case TryReadOwner => 34
    case TrySetOwner => 34
    case TryCheckRecursion => 33
    case TryReenter => 33
    case TestRecursion => 12
    case Signal => 11
    case Idle => 10
    case LeaveCheckOwner => 8
    case LeaveCheckCount => 7
    case LeaveLoad => 6
    case LeaveStore(_) => 5
    case LeaveTest => 4
    case ClearOwner => 3
    case Dequeue => 2
    case _ => 0
  }

  /** Finish the current call, then leave. */
  function Drive(s: State, j: nat): Action
    requires j < |s.threads|
  {
    if s.threads[j].pc == Idle then CallLeave(j) else Run(j)
  }

  lemma DriveStep(s: State, j: nat)
    requires SeenBy(s, j) && HasLock(s.threads[j])
    ensures Enabled(s, Drive(s, j))
    ensures var s' := Apply(s, Drive(s, j));
            && |s'.threads| == |s.threads| && s'.threads == s.threads[j := s'.threads[j]]
            && Distance(s'.threads[j]) < Distance(s.threads[j])
  {
    if InLeave(s.threads[j]) { DriveLeave(s, j); }
  }

  lemma DriveLeave(s: State, j: nat)
    requires SeenBy(s, j) && HasLock(s.threads[j]) && InLeave(s.threads[j])
    ensures Enabled(s, Drive(s, j))
    ensures var s' := Apply(s, Drive(s, j));
            && |s'.threads| == |s.threads| && s'.threads == s.threads[j := s'.threads[j]]
            && Distance(s'.threads[j]) < Distance(s.threads[j])
  {
  }

  /** The thread in possession can give the lock back, which leaves a token for the waiter `i`. */
  lemma DriveOut(s: State, i: nat, j: nat) returns (run: seq<Action>)
    requires Inv(s) && i < |s.threads| && s.threads[i] == Thread(Wait, 0)
    requires j < |s.threads| && HasLock(s.threads[j])
    ensures IsRun(s, run)
    ensures var s' := After(s, run); Inv(s') && |s'.threads| == |s.threads| && s'.threads[i] == s.threads[i]
                                     && s'.tokens == 1
    decreases Distance(s.threads[j])
  {
    SeesInv(s, j);
    DriveStep(s, j);
    var a := Drive(s, j);
    var s' := Apply(s, a);
    StepKeepsInv(s, a);
    SharesUpdate(s'.threads, i, s'.threads[i]);
    if HasLock(s'.threads[j]) {
      var rest := DriveOut(s', i, j);
      run := [a] + rest;
    } else {
      run := [a];
      assert run[1..] == [];
      OthersAreOut(s, j);
      if Holders(s'.threads) > 0 {
        var k := SomeHolder(s'.threads);
      }
    }
  }

  lemma {:induction false} AfterConcat(s: State, first: seq<Action>, second: seq<Action>)
    requires IsRun(s, first) && IsRun(After(s, first), second)
    ensures IsRun(s, first + second) && After(s, first + second) == After(After(s, first), second)
    decreases |first|
  {
    if first == [] {
      assert first + second == second;
    } else {
      assert (first + second)[1..] == first[1..] + second;
      AfterConcat(Apply(s, first[0]), first[1..], second);
    }
  }

  /** A thread that won the lock returns from its call with one acquisition more. */
  lemma Possess(s: State, i: nat) returns (run: seq<Action>)
    requires Inv(s) && i < |s.threads| && TakingPossession(s.threads[i])
    ensures IsRun(s, run)
    ensures var s' := After(s, run); |s'.threads| == |s.threads| && s'.threads[i] == Thread(Idle, s.threads[i].held + 1)
    decreases Distance(s.threads[i])
  {
    SeesInv(s, i);
    DriveStep(s, i);
    var s' := Apply(s, Run(i));
    StepKeepsInv(s, Run(i));
    if s.threads[i].pc.StoreRecursion? {
      run := [Run(i)];
      assert run[1..] == [];
    } else {
      var rest := Possess(s', i);
      run := [Run(i)] + rest;
      assert run[1..] == rest;
    }
  }

  lemma TakeToken(s: State, i: nat) returns (run: seq<Action>)
    requires Inv(s) && i < |s.threads| && s.threads[i] == Thread(Wait, 0) && s.tokens == 1
    ensures IsRun(s, run)
    ensures var s' := After(s, run); |s'.threads| == |s.threads| && s'.threads[i] == Thread(Idle, 1)
  {
    StepKeepsInv(s, Run(i));
    var rest := Possess(Apply(s, Run(i)), i);
    run := [Run(i)] + rest;
    assert run[1..] == rest;
  }

  lemma CanAcquire(s: State, i: nat) returns (run: seq<Action>)
    requires Inv(s) && i < |s.threads| && s.threads[i].pc == Wait
    ensures IsRun(s, run)
    ensures var s' := After(s, run); |s'.threads| == |s.threads| && s'.threads[i] == Thread(Idle, 1)
  {
    SharesUpdate(s.threads, i, s.threads[i]);
    if s.tokens == 0 {
      var j := SomeHolder(s.threads);
      var first := DriveOut(s, i, j);
      var second := TakeToken(After(s, first), i);
      AfterConcat(s, first, second);
      run := first + second;
    } else {
      run := TakeToken(s, i);
    }
  }

  /** The check before the wait lets a waiter pass. */
  lemma ReachWait(s: State, i: nat)
    requires Inv(s) && i < |s.threads| && s.threads[i].pc == CheckNotOwner
    ensures Enabled(s, Run(i)) && Inv(Apply(s, Run(i)))
    ensures var s' := Apply(s, Run(i)); |s'.threads| == |s.threads| && s'.threads[i].pc == Wait
  {
    SeesInv(s, i);
    StepKeepsInv(s, Run(i));
  }

  /** From every reachable state, every waiter has a continuation in which it gets the lock. */
  lemma WaiterCanAcquire(threads: nat, run: seq<Action>, i: nat) returns (more: seq<Action>)
    requires IsRun(Init(threads), run) && i < |After(Init(threads), run).threads|
    requires IsWaiter(After(Init(threads), run).threads[i])
    ensures IsRun(After(Init(threads), run), more)
    ensures var s' := After(After(Init(threads), run), more);
            i < |s'.threads| && s'.threads[i] == Thread(Idle, 1)
  {
    InitInv(threads);
    RunKeepsInv(Init(threads), run);
    var s := After(Init(threads), run);
    if s.threads[i].pc == Wait {
      more := CanAcquire(s, i);
    } else {
      ReachWait(s, i);
      var rest := CanAcquire(Apply(s, Run(i)), i);
      more := [Run(i)] + rest;
      assert more[1..] == rest;
    }
  }

  // ----- What a call has done when it returns -----

  /**
   The call a thread made last: `before` are its acquisitions at the call, and `refused` says that
   another thread had the lock, or was waiting for it, where TryEnter compared and swapped.
   */
  datatype Call = NoCall | Entering(before: nat) | Trying(before: nat, refused: bool) | Leaving(before: nat)

  /** Some other thread has acquisitions that are not given back, takes possession, or waits. */
  ghost predicate Contended(s: State, i: nat) {
    exists j | 0 <= j < |s.threads| :: j != i && Share(s.threads[j]) > 0
  }

  ghost function Noted(s: State, a: Action, i: nat, call: Call): Call
    requires Enabled(s, a)
  {
    if a.tid != i then call
    else
      match a
      case CallEnter(_) => Entering(s.threads[i].held)
      case CallTryEnter(_) => Trying(s.threads[i].held, false)
      case CallLeave(_) => Leaving(s.threads[i].held)
      case Run(_) => if call.Trying? && s.threads[i].pc.TryCas? then call.(refused := Contended(s, i)) else call
  }

  ghost function LastCall(s: State, run: seq<Action>, i: nat, call: Call): Call
    requires IsRun(s, run)
    decreases |run|
  {
    if run == [] then call else LastCall(Apply(s, run[0]), run[1..], i, Noted(s, run[0], i, call))
  }

  /** Where a thread can be in its call, and what it holds there. */
  ghost predicate Midway(t: Thread, call: Call) {
    match call
    case NoCall => t == Thread(Idle, 0)
    case Entering(before) =>
      if t.pc == Idle then t.held == before + 1
      else t.held == before
           && (InSpinLoop(t.pc) || InQueue(t.pc) || t.pc.SetOwner? || t.pc.LoadRecursion? || t.pc.StoreRecursion?)
    case Trying(before, refused) =>
      && (refused ==> t.pc == Idle && before == 0)
      && (if t.pc == Idle then t.held == before + (if refused then 0 else 1)
          else t.held == before && (InTryEnter(t.pc) || t.pc.LoadRecursion? || t.pc.StoreRecursion?))
    case Leaving(before) =>
      if InLeave(t) then t.held == before
      else (t.pc == Idle || OwesWakeUp(t)) && t.held == before - 1
  }

  lemma {:induction false} OthersShare(ts: seq<Thread>, i: nat)
    requires i < |ts|
    ensures Shares(ts) > Share(ts[i]) <==> exists j | 0 <= j < |ts| :: j != i && Share(ts[j]) > 0
  {
    SharesUpdate(ts, i, Thread(Idle, 0));
    var rest := ts[i := Thread(Idle, 0)];
    if Shares(rest) > 0 {
      var j := SomeShare(rest);
      assert j != i && Share(ts[j]) > 0;
    }
    forall j | 0 <= j < |ts| && j != i && Share(ts[j]) > 0 ensures Shares(rest) > 0 {
      SharesUpdate(rest, j, rest[j]);
    }
  }

  lemma {:induction false} SomeShare(ts: seq<Thread>) returns (j: nat)
    requires Shares(ts) > 0
    ensures j < |ts| && Share(ts[j]) > 0
  {
    if Share(ts[0]) > 0 {
      j := 0;
    } else {
      j := SomeShare(ts[1..]);
      j := j + 1;
    }
  }

  /** The counter says whether the lock is contended. */
  lemma CounterContended(s: State, i: nat)
    requires Inv(s) && i < |s.threads|
    ensures SeenBy(s, i) && (Contended(s, i) <==> s.lockQueue > Share(s.threads[i]))
  {
    SeesInv(s, i);
    OthersShare(s.threads, i);
  }

  lemma CallKeepsMidway(s: State, a: Action, i: nat, call: Call)
    requires Enabled(s, a) && a.tid == i && SeenBy(s, i) && Midway(s.threads[i], call) && !a.Run?
    ensures Midway(Apply(s, a).threads[i], Noted(s, a, i, call))
  {
  }

  lemma EnteringKeepsMidway(s: State, i: nat, call: Call)
    requires Enabled(s, Run(i)) && SeenBy(s, i) && Midway(s.threads[i], call) && call.Entering?
    ensures Midway(Advance(s, i).threads[i], call)
  {
  }

  lemma TryingKeepsMidway(s: State, i: nat, call: Call)
    requires Enabled(s, Run(i)) && SeenBy(s, i) && Midway(s.threads[i], call) && call.Trying?
    requires Contended(s, i) <==> s.lockQueue > Share(s.threads[i])
    ensures Midway(Advance(s, i).threads[i], Noted(s, Run(i), i, call))
  {
    hide Contended;
  }

  lemma LeavingKeepsMidway(s: State, i: nat, call: Call)
    requires Enabled(s, Run(i)) && SeenBy(s, i) && Midway(s.threads[i], call) && call.Leaving?
    ensures Midway(Advance(s, i).threads[i], call)
  {
  }

  lemma StepKeepsMidway(s: State, a: Action, i: nat, call: Call)
    requires Inv(s) && Enabled(s, a) && i < |s.threads| && Midway(s.threads[i], call)
    ensures i < |Apply(s, a).threads| && Midway(Apply(s, a).threads[i], Noted(s, a, i, call))
  {
    CounterContended(s, i);
    if a.tid == i {
      hide Contended, Inv, Advance, SeenBy;
      match a
      case Run(_) =>
        match call {
          case NoCall =>
          case Entering(_) => EnteringKeepsMidway(s, i, call);
          case Trying(_, _) => TryingKeepsMidway(s, i, call);
          case Leaving(_) => LeavingKeepsMidway(s, i, call);
        }
      case _ => CallKeepsMidway(s, a, i, call);
    } else {
      hide Contended, Inv, SeenBy, Midway;
      OthersStay(s, a, i);
    }
  }

  lemma OthersStay(s: State, a: Action, i: nat)
    requires Enabled(s, a) && a.tid != i && i < |s.threads|
    ensures i < |Apply(s, a).threads| && Apply(s, a).threads[i] == s.threads[i]
  {
  }

  lemma {:induction false} RunKeepsMidway(s: State, run: seq<Action>, i: nat, call: Call)
    requires Inv(s) && IsRun(s, run) && i < |s.threads| && Midway(s.threads[i], call)
    ensures i < |After(s, run).threads| && Midway(After(s, run).threads[i], LastCall(s, run, i, call))
    decreases |run|
  {
    if run != [] {
      hide Inv, Midway, Noted;
      StepKeepsInv(s, run[0]);
      StepKeepsMidway(s, run[0], i, call);
      RunKeepsMidway(Apply(s, run[0]), run[1..], i, Noted(s, run[0], i, call));
    }
  }

  /**
   What a call that has returned has done, in every run: Enter acquires; Leave gives back one
   acquisition; TryEnter acquires unless another thread had the lock or was waiting for it at the
   compare-and-swap, which a thread that has the lock already does not get to.
   */
  lemma CallResult(threads: nat, run: seq<Action>, i: nat)
    requires IsRun(Init(threads), run) && i < |After(Init(threads), run).threads|
    requires After(Init(threads), run).threads[i].pc == Idle
    ensures i < threads
    ensures var held := After(Init(threads), run).threads[i].held;
            match LastCall(Init(threads), run, i, NoCall)
            case NoCall => held == 0
            case Entering(before) => held == before + 1
            case Trying(before, refused) => (refused ==> before == 0) && held == before + if refused then 0 else 1
            case Leaving(before) => held == before - 1
  {
    InitInv(threads);
    SameThreads(Init(threads), run);
    RunKeepsMidway(Init(threads), run, i, NoCall);
  }

  lemma {:induction false} SameThreads(s: State, run: seq<Action>)
    requires IsRun(s, run)
    ensures |After(s, run).threads| == |s.threads|
    decreases |run|
  {
    if run != [] { SameThreads(Apply(s, run[0]), run[1..]); }
  }

  // ----- Calls that are not interrupted -----

  /** Thread i makes a call and then k accesses, with no other thread moving. */
  function Alone(call: Action, k: nat): (run: seq<Action>)
    ensures |run| == k + 1 && run[0] == call && forall j | 0 < j <= k :: run[j] == Run(call.tid)
  {
    [call] + seq(k, _ => Run(call.tid))
  }

  /** k accesses of thread i. */
  ghost predicate Goes(s: State, i: nat, k: nat, t: State)
    decreases k
  {
    if k == 0 then s == t else Enabled(s, Run(i)) && Goes(Advance(s, i), i, k - 1, t)
  }

  lemma {:induction false} GoesIsRun(s: State, i: nat, k: nat, t: State)
    requires Goes(s, i, k, t)
    ensures IsRun(s, seq(k, _ => Run(i))) && After(s, seq(k, _ => Run(i))) == t
    decreases k
  {
    if k > 0 {
      GoesIsRun(Advance(s, i), i, k - 1, t);
      assert seq(k, _ => Run(i))[1..] == seq(k - 1, _ => Run(i));
    }
  }

  lemma AloneIsRun(s: State, call: Action, k: nat, t: State)
    requires !call.Run? && Enabled(s, call) && Goes(Apply(s, call), call.tid, k, t)
    ensures IsRun(s, Alone(call, k)) && After(s, Alone(call, k)) == t
  {
    GoesIsRun(Apply(s, call), call.tid, k, t);
    assert Alone(call, k)[1..] == seq(k, _ => Run(call.tid));
  }

  /** The lock with one acquisition more for thread i. */
  function Acquired(s: State, i: nat): State
    requires i < |s.threads|
  {
    s.(lockQueue := s.lockQueue + 1, owner := Some(i), recursion := s.threads[i].held + 1,
       threads := s.threads[i := Thread(Idle, s.threads[i].held + 1)])
  }

  /** The lock with one acquisition less, and with a token where somebody waits for the last one. */
  function Released(s: State, i: nat): State
    requires i < |s.threads| && s.threads[i].held > 0
  {
    var left := s.threads[i].held - 1;
    s.(lockQueue := s.lockQueue - 1, owner := if left == 0 then None else Some(i), recursion := left,
       tokens := s.tokens + (if left == 0 && s.lockQueue > 1 then 1 else 0),
       threads := s.threads[i := Thread(Idle, left)])
  }

  /** One access, and then the others. */
  lemma GoesOn(s: State, i: nat, k: nat, t: State)
    requires Enabled(s, Run(i)) && Goes(Advance(s, i), i, k, t)
    ensures Goes(s, i, k + 1, t)
  {
  }

  lemma {:induction false} GoesThrough(s: State, i: nat, k: nat, u: State, m: nat, t: State)
    requires Goes(s, i, k, u) && Goes(u, i, m, t)
    ensures Goes(s, i, k + m, t)
    decreases k
  {
    hide Advance, Enabled;
    if k > 0 { GoesThrough(Advance(s, i), i, k - 1, u, m, t); }
  }

  lemma GotoTwice(s: State, i: nat, a: Pc, b: Pc)
    requires i < |s.threads|
    ensures Goto(Goto(s, i, a), i, b) == Goto(s, i, b)
  {
  }

  /** Going on from a position that an access leads to. */
  lemma GoesFrom(s: State, i: nat, pc: Pc, k: nat, u: State, next: Pc, t: State)
    requires i < |s.threads| && |u.threads| == |s.threads| && Enabled(Goto(s, i, pc), Run(i))
    requires Advance(Goto(s, i, pc), i) == Goto(u, i, next) && Goes(Goto(u, i, next), i, k, t)
    ensures Goes(Goto(s, i, pc), i, k + 1, t)
  {
    hide Advance, Enabled, Goto;
  }

  /** The last three accesses of a call that acquires. */
  lemma TakesLock(s: State, i: nat)
    requires i < |s.threads| && s.recursion == s.threads[i].held
    ensures s.owner == Some(i) ==> Goes(Goto(s, i, LoadRecursion), i, 2, Acquired(s.(lockQueue := s.lockQueue - 1), i))
    ensures Goes(Goto(s, i, SetOwner), i, 3, Acquired(s.(lockQueue := s.lockQueue - 1), i))
  {
    var t := Acquired(s.(lockQueue := s.lockQueue - 1), i);
    var u := s.(owner := Some(i));
    StoresRecursion(u, i);
    SetsOwner(s, i);
    GoesFrom(u, i, LoadRecursion, 1, u, StoreRecursion(s.recursion), t);
    GoesFrom(s, i, SetOwner, 2, u, LoadRecursion, t);
  }

  lemma SetsOwner(s: State, i: nat)
    requires i < |s.threads|
    ensures Advance(Goto(s, i, SetOwner), i) == Goto(s.(owner := Some(i)), i, LoadRecursion)
    ensures Advance(Goto(s, i, LoadRecursion), i) == Goto(s, i, StoreRecursion(s.recursion))
  {
    GotoTwice(s, i, SetOwner, LoadRecursion);
    GotoTwice(s, i, LoadRecursion, StoreRecursion(s.recursion));
  }

  lemma StoresRecursion(s: State, i: nat)
    requires i < |s.threads| && s.recursion == s.threads[i].held && s.owner == Some(i)
    ensures Goes(Goto(s, i, StoreRecursion(s.recursion)), i, 1, Acquired(s.(lockQueue := s.lockQueue - 1), i))
  {
    var u := Goto(s, i, StoreRecursion(s.recursion));
    assert Goes(Advance(u, i), i, 0, Advance(u, i));
  }

  /** Enter of a free lock. */
  lemma EntersFree(s: State, i: nat, n: nat)
    requires i < |s.threads| && s.threads[i].held == 0 && s.lockQueue == 0 && s.owner != Some(i) && s.recursion == 0
    ensures Goes(Goto(s, i, SpinReadOwner(n)), i, 6, Acquired(s, i))
  {
    var u := s.(lockQueue := 1);
    assert u.(lockQueue := 0) == s;
    Looks(s, i, n);
    TakesLock(u, i);
    GoesFrom(s, i, SpinCas(n), 3, u, SetOwner, Acquired(s, i));
    GoesFrom(s, i, SpinLoad(n), 4, s, SpinCas(n), Acquired(s, i));
    GoesFrom(s, i, SpinReadOwner(n), 5, s, SpinLoad(n), Acquired(s, i));
  }

  /** One turn of the spin loop. */
  lemma Looks(s: State, i: nat, n: nat)
    requires i < |s.threads| && s.owner != Some(i)
    ensures Advance(Goto(s, i, SpinReadOwner(n)), i) == Goto(s, i, SpinLoad(n))
    ensures Advance(Goto(s, i, SpinLoad(n)), i) == Goto(s, i, if s.lockQueue == 0 then SpinCas(n) else SpinYield(n))
    ensures s.lockQueue == 0 ==> Advance(Goto(s, i, SpinCas(n)), i) == Goto(s.(lockQueue := 1), i, SetOwner)
  {
  }

  lemma EntersAgain(s: State, i: nat, n: nat)
    requires i < |s.threads| && s.owner == Some(i) && s.recursion == s.threads[i].held
    ensures Goes(Goto(s, i, SpinReadOwner(n)), i, 5, Acquired(s, i))
  {
    var u := s.(lockQueue := s.lockQueue + 1);
    assert u.(lockQueue := s.lockQueue) == s;
    TakesLock(u, i);
    GoesFrom(s, i, Reenter, 3, u, SetOwner, Acquired(s, i));
    GoesFrom(s, i, SpinReadOwner(n), 4, s, Reenter, Acquired(s, i));
  }

  /** The spin loop on a lock that stays taken. */
  lemma {:induction false} Spins(s: State, i: nat, n: nat)
    requires i < |s.threads| && s.owner != Some(i) && s.lockQueue > 0 && n > 0
    ensures Goes(Goto(s, i, SpinReadOwner(n)), i, 3 * n, Goto(s, i, Enqueue))
  {
    Looks(s, i, n);
    Yields(s, i, n);
    var t, next := Goto(s, i, Enqueue), if n > 1 then SpinReadOwner(n - 1) else Enqueue;
    if n > 1 { Spins(s, i, n - 1); }
    GoesFrom(s, i, SpinYield(n), 3 * (n - 1), s, next, t);
    GoesFrom(s, i, SpinLoad(n), 3 * (n - 1) + 1, s, SpinYield(n), t);
    GoesFrom(s, i, SpinReadOwner(n), 3 * (n - 1) + 2, s, SpinLoad(n), t);
  }

  lemma Yields(s: State, i: nat, n: nat)
    requires i < |s.threads|
    ensures Advance(Goto(s, i, SpinYield(n)), i) == Goto(s, i, if n > 1 then SpinReadOwner(n - 1) else Enqueue)
  {
  }

  lemma QueuesUp(s: State, i: nat)
    requires i < |s.threads| && s.owner != Some(i) && s.lockQueue > 0
    ensures Goes(Goto(s, i, Enqueue), i, 2, Goto(s.(lockQueue := s.lockQueue + 1), i, Wait))
  {
    var u := s.(lockQueue := s.lockQueue + 1);
    var t := Goto(u, i, Wait);
    assert Advance(Goto(u, i, CheckNotOwner), i) == t;
    GoesFrom(u, i, CheckNotOwner, 0, u, Wait, t);
    GoesFrom(s, i, Enqueue, 1, u, CheckNotOwner, t);
  }

  lemma TryLooks(s: State, i: nat)
    requires i < |s.threads|
    ensures Advance(Goto(s, i, TryReadOwner), i) == Goto(s, i, if s.owner == Some(i) then TryReenter else TryCas)
    ensures Advance(Goto(s, i, TryReenter), i) == Goto(s.(lockQueue := s.lockQueue + 1), i, LoadRecursion)
    ensures Advance(Goto(s, i, TryCas), i) ==
            if s.lockQueue == 0 then Goto(s.(lockQueue := 1), i, TrySetOwner) else Goto(s, i, Idle)
  {
  }

  lemma TryTakes(s: State, i: nat)
    requires i < |s.threads| && s.recursion == 0
    ensures Advance(Goto(s, i, TrySetOwner), i) == Goto(s.(owner := Some(i)), i, TryCheckRecursion)
    ensures Advance(Goto(s, i, TryCheckRecursion), i) == Goto(s, i, LoadRecursion)
  {
  }

  lemma CanGo(s: State, i: nat, pc: Pc)
    requires i < |s.threads| && pc != Idle && pc != Aborted && pc != Wait
    ensures Enabled(Goto(s, i, pc), Run(i)) && |Goto(s, i, pc).threads| == |s.threads|
  {
  }

  lemma TriesFree(s: State, i: nat)
    requires i < |s.threads| && s.threads[i].held == 0 && s.lockQueue == 0 && s.owner != Some(i) && s.recursion == 0
    ensures Goes(Goto(s, i, TryReadOwner), i, 6, Acquired(s, i))
  {
    var u := s.(lockQueue := 1);
    var v := u.(owner := Some(i));
    assert v.(lockQueue := 0, owner := s.owner) == s && Acquired(v.(lockQueue := 0), i) == Acquired(s, i);
    TakesLock(v, i);
    TryLooks(s, i);
    TryTakes(u, i);
    TryTakes(v, i);
    CanGo(v, i, TryCheckRecursion);
    CanGo(u, i, TrySetOwner);
    CanGo(s, i, TryCas);
    CanGo(s, i, TryReadOwner);
    hide Advance, Goto, Goes, Acquired, Enabled;
    GoesFrom(v, i, TryCheckRecursion, 2, v, LoadRecursion, Acquired(s, i));
    GoesFrom(u, i, TrySetOwner, 3, v, TryCheckRecursion, Acquired(s, i));
    GoesFrom(s, i, TryCas, 4, u, TrySetOwner, Acquired(s, i));
    GoesFrom(s, i, TryReadOwner, 5, s, TryCas, Acquired(s, i));
  }

  lemma TriesAgain(s: State, i: nat)
    requires i < |s.threads| && s.owner == Some(i) && s.recursion == s.threads[i].held
    ensures Goes(Goto(s, i, TryReadOwner), i, 4, Acquired(s, i))
  {
    var u := s.(lockQueue := s.lockQueue + 1);
    assert u.(lockQueue := s.lockQueue) == s;
    TakesLock(u, i);
    TryLooks(s, i);
    CanGo(s, i, TryReenter);
    CanGo(s, i, TryReadOwner);
    hide Advance, Goto, Goes, Acquired, Enabled;
    GoesFrom(s, i, TryReenter, 2, u, LoadRecursion, Acquired(s, i));
    GoesFrom(s, i, TryReadOwner, 3, s, TryReenter, Acquired(s, i));
  }

  lemma TriesTaken(s: State, i: nat)
    requires i < |s.threads| && s.threads[i].pc == Idle && s.owner != Some(i) && s.lockQueue != 0
    ensures Goes(Goto(s, i, TryReadOwner), i, 2, s)
  {
    assert Goto(s, i, Idle) == s;
    assert Goes(s, i, 0, s);
    GoesFrom(s, i, TryCas, 0, s, Idle, s);
    GoesFrom(s, i, TryReadOwner, 1, s, TryCas, s);
  }

  /** Leave up to the decrement of the counter. */
  lemma LeavesLevel(s: State, i: nat)
    requires i < |s.threads| && s.owner == Some(i) && s.recursion == s.threads[i].held > 0
    ensures var left := s.recursion - 1;
            var u := s.(recursion := left, owner := if left == 0 then None else Some(i));
            Goes(Goto(s, i, LeaveCheckOwner), i, if left == 0 then 6 else 5, Goto(u, i, Dequeue))
  {
    var left := s.recursion - 1;
    var v := s.(recursion := left);
    var u, k := v.(owner := if left == 0 then None else Some(i)), if left == 0 then 2 else 1;
    var t := Goto(u, i, Dequeue);
    assert Goes(t, i, 0, t);
    if left == 0 {
      GoesFrom(v, i, ClearOwner, 0, u, Dequeue, t);
      GoesFrom(v, i, LeaveTest, 1, v, ClearOwner, t);
    } else {
      GoesFrom(v, i, LeaveTest, 0, u, Dequeue, t);
    }
    LeavesFirst(s, i);
    GoesFrom(s, i, LeaveStore(s.recursion), k, v, LeaveTest, t);
    GoesFrom(s, i, LeaveLoad, k + 1, s, LeaveStore(s.recursion), t);
    GoesFrom(s, i, LeaveCheckCount, k + 2, s, LeaveLoad, t);
    GoesFrom(s, i, LeaveCheckOwner, k + 3, s, LeaveCheckCount, t);
  }

  lemma LeavesFirst(s: State, i: nat)
    requires i < |s.threads| && s.owner == Some(i) && s.recursion >= 0
    ensures Advance(Goto(s, i, LeaveCheckOwner), i) == Goto(s, i, LeaveCheckCount)
    ensures Advance(Goto(s, i, LeaveCheckCount), i) == Goto(s, i, LeaveLoad)
    ensures Advance(Goto(s, i, LeaveLoad), i) == Goto(s, i, LeaveStore(s.recursion))
    ensures Advance(Goto(s, i, LeaveStore(s.recursion)), i) == Goto(s.(recursion := s.recursion - 1), i, LeaveTest)
  {
  }

  lemma Dequeues(s: State, i: nat)
    requires i < |s.threads| && s.threads[i].held > 0
    ensures var u := s.(lockQueue := s.lockQueue - 1, threads := s.threads[i := Thread(Idle, s.threads[i].held - 1)]);
            Advance(Goto(s, i, Dequeue), i) == Goto(u, i, if s.lockQueue - 1 > 0 then TestRecursion else Idle)
  {
  }

  lemma Wakes(s: State, i: nat)
    requires i < |s.threads|
    ensures Advance(Goto(s, i, TestRecursion), i) == Goto(s, i, if s.recursion == 0 then Signal else Idle)
    ensures Advance(Goto(s, i, Signal), i) == Goto(s.(tokens := s.tokens + 1), i, Idle)
  {
  }

  /** Leave from the decrement of the counter on. */
  lemma LeavesQueue(s: State, i: nat)
    requires i < |s.threads| && s.threads[i].held > 0 && s.recursion == s.threads[i].held - 1
    requires s.owner == if s.recursion == 0 then None else Some(i)
    ensures Goes(Goto(s, i, Dequeue), i, if s.lockQueue <= 1 then 1 else if s.recursion == 0 then 3 else 2,
                 Released(s, i))
  {
    var t := Released(s, i);
    var u := t.(tokens := s.tokens);
    assert Goto(u, i, Idle) == u && Goto(t, i, Idle) == t;
    assert Goes(t, i, 0, t);
    Dequeues(s, i);
    Wakes(u, i);
    CanGo(s, i, Dequeue);
    CanGo(u, i, TestRecursion);
    CanGo(u, i, Signal);
    hide Advance, Goto, Goes, Enabled;
    if s.lockQueue <= 1 {
      GoesFrom(s, i, Dequeue, 0, t, Idle, t);
    } else if s.recursion == 0 {
      GoesFrom(u, i, Signal, 0, t, Idle, t);
      GoesFrom(u, i, TestRecursion, 1, u, Signal, t);
      GoesFrom(s, i, Dequeue, 2, u, TestRecursion, t);
    } else {
      GoesFrom(u, i, TestRecursion, 0, t, Idle, t);
      GoesFrom(s, i, Dequeue, 1, u, TestRecursion, t);
    }
  }

  /** What a thread between calls sees of the lock. */
  lemma IdleSees(s: State, i: nat)
    requires Inv(s) && i < |s.threads| && s.threads[i].pc == Idle
    ensures s.owner == Some(i) <==> s.threads[i].held > 0
    ensures s.threads[i].held > 0 ==> s.recursion == s.threads[i].held
    ensures s.threads[i].held == 0 && !Contended(s, i) ==> s.lockQueue == 0 && s.recursion == 0
    ensures Contended(s, i) <==> s.lockQueue > s.threads[i].held
    ensures s.lockQueue >= s.threads[i].held
  {
    CounterContended(s, i);
  }

  lemma Reached(threads: nat, run: seq<Action>, i: nat)
    requires IsRun(Init(threads), run) && i < |After(Init(threads), run).threads|
    ensures Inv(After(Init(threads), run))
  {
    InitInv(threads);
    RunKeepsInv(Init(threads), run);
  }

  /** Enter, not interrupted: a free lock and one that is its own it takes at once. */
  lemma EnterAlone(threads: nat, run: seq<Action>, i: nat)
    requires IsRun(Init(threads), run) && i < |After(Init(threads), run).threads|
    requires var s := After(Init(threads), run);
             s.threads[i].pc == Idle && (s.threads[i].held > 0 || !Contended(s, i))
    ensures var s := After(Init(threads), run);
            var call := Alone(CallEnter(i), if s.threads[i].held > 0 then 5 else 6);
            IsRun(s, call) && After(s, call) == Acquired(s, i)
  {
    hide *;
    Reached(threads, run, i);
    var s := After(Init(threads), run);
    EnterAt(s, i);
  }

  lemma EnterAt(s: State, i: nat)
    requires Inv(s) && i < |s.threads| && s.threads[i].pc == Idle && (s.threads[i].held > 0 || !Contended(s, i))
    ensures var call := Alone(CallEnter(i), if s.threads[i].held > 0 then 5 else 6);
            IsRun(s, call) && After(s, call) == Acquired(s, i)
  {
    IdleSees(s, i);
    assert Enabled(s, CallEnter(i)) && Apply(s, CallEnter(i)) == Goto(s, i, SpinReadOwner(3000));
    hide Inv, Contended, Goes, Goto, Advance, Acquired, Alone;
    if s.threads[i].held > 0 { EntersAgain(s, i, 3000); } else { EntersFree(s, i, 3000); }
    AloneIsRun(s, CallEnter(i), if s.threads[i].held > 0 then 5 else 6, Acquired(s, i));
  }

  /** Where another thread contends for the lock it looks 3000 times, three accesses each, and then waits. */
  lemma EnterWaits(threads: nat, run: seq<Action>, i: nat)
    requires IsRun(Init(threads), run) && i < |After(Init(threads), run).threads|
    requires After(Init(threads), run).threads[i] == Thread(Idle, 0) && Contended(After(Init(threads), run), i)
    ensures var s := After(Init(threads), run);
            var call := Alone(CallEnter(i), 3 * 3000 + 2);
            IsRun(s, call)
            && After(s, call) == s.(lockQueue := s.lockQueue + 1, threads := s.threads[i := Thread(Wait, 0)])
  {
    Reached(threads, run, i);
    var s := After(Init(threads), run);
    IdleSees(s, i);
    assert Enabled(s, CallEnter(i)) && Apply(s, CallEnter(i)) == Goto(s, i, SpinReadOwner(3000));
    var t := Goto(s.(lockQueue := s.lockQueue + 1), i, Wait);
    assert t == s.(lockQueue := s.lockQueue + 1, threads := s.threads[i := Thread(Wait, 0)]);
    hide Inv, Contended, Goes, Goto, Advance, Alone, IsRun, After;
    Spins(s, i, 3000);
    QueuesUp(s, i);
    GoesThrough(Goto(s, i, SpinReadOwner(3000)), i, 3 * 3000, Goto(s, i, Enqueue), 2, t);
    AloneIsRun(s, CallEnter(i), 3 * 3000 + 2, t);
  }

  /** TryEnter, not interrupted: a lock that is free of others or its own it acquires; else it changes nothing. */
  lemma TryEnterAlone(threads: nat, run: seq<Action>, i: nat)
    requires IsRun(Init(threads), run) && i < |After(Init(threads), run).threads|
    requires After(Init(threads), run).threads[i].pc == Idle
    ensures var s := After(Init(threads), run);
            var k := if s.threads[i].held > 0 then 4 else if Contended(s, i) then 2 else 6;
            IsRun(s, Alone(CallTryEnter(i), k))
            && After(s, Alone(CallTryEnter(i), k)) ==
               if s.threads[i].held == 0 && Contended(s, i) then s else Acquired(s, i)
  {
    hide *;
    Reached(threads, run, i);
    TryAt(After(Init(threads), run), i);
  }

  lemma TryAt(s: State, i: nat)
    requires Inv(s) && i < |s.threads| && s.threads[i].pc == Idle
    ensures var k := if s.threads[i].held > 0 then 4 else if Contended(s, i) then 2 else 6;
            IsRun(s, Alone(CallTryEnter(i), k))
            && After(s, Alone(CallTryEnter(i), k)) ==
               if s.threads[i].held == 0 && Contended(s, i) then s else Acquired(s, i)
  {
    IdleSees(s, i);
    assert Enabled(s, CallTryEnter(i)) && Apply(s, CallTryEnter(i)) == Goto(s, i, TryReadOwner);
    hide Inv, Contended, Goes, Goto, Advance, Acquired, Alone, IsRun, After;
    if s.threads[i].held > 0 {
      TriesAgain(s, i);
      AloneIsRun(s, CallTryEnter(i), 4, Acquired(s, i));
    } else if Contended(s, i) {
      TriesTaken(s, i);
      AloneIsRun(s, CallTryEnter(i), 2, s);
    } else {
      TriesFree(s, i);
      AloneIsRun(s, CallTryEnter(i), 6, Acquired(s, i));
    }
  }

  /** Leave, not interrupted: one acquisition less, and a token exactly where it was the last one and others contend. */
  lemma LeaveAlone(threads: nat, run: seq<Action>, i: nat)
    requires IsRun(Init(threads), run) && i < |After(Init(threads), run).threads|
    requires var t := After(Init(threads), run).threads[i]; t.pc == Idle && t.held > 0
    ensures var s := After(Init(threads), run);
            var k := if s.threads[i].held > 1 then 7 else if Contended(s, i) then 9 else 7;
            && IsRun(s, Alone(CallLeave(i), k)) && After(s, Alone(CallLeave(i), k)) == Released(s, i)
            && Released(s, i).tokens == s.tokens + if s.threads[i].held == 1 && Contended(s, i) then 1 else 0
  {
    hide *;
    Reached(threads, run, i);
    LeaveAt(After(Init(threads), run), i);
  }

  lemma Leaves(s: State, i: nat) returns (k: nat)
    requires i < |s.threads| && s.owner == Some(i) && s.recursion == s.threads[i].held > 0
    requires s.lockQueue >= s.threads[i].held
    ensures k == (if s.threads[i].held == 1 && s.lockQueue > 1 then 9 else 7)
    ensures Goes(Goto(s, i, LeaveCheckOwner), i, k, Released(s, i))
  {
    var left := s.recursion - 1;
    var u := s.(recursion := left, owner := if left == 0 then None else Some(i));
    assert Released(u, i) == Released(s, i);
    hide Goes, Goto, Released;
    LeavesLevel(s, i);
    LeavesQueue(u, i);
    var m := if s.lockQueue <= 1 then 1 else if left == 0 then 3 else 2;
    GoesThrough(Goto(s, i, LeaveCheckOwner), i, if left == 0 then 6 else 5, Goto(u, i, Dequeue), m, Released(s, i));
    k := (if left == 0 then 6 else 5) + m;
  }

  lemma LeaveAt(s: State, i: nat)
    requires Inv(s) && i < |s.threads| && s.threads[i].pc == Idle && s.threads[i].held > 0
    ensures var k := if s.threads[i].held > 1 then 7 else if Contended(s, i) then 9 else 7;
            && IsRun(s, Alone(CallLeave(i), k)) && After(s, Alone(CallLeave(i), k)) == Released(s, i)
            && Released(s, i).tokens == s.tokens + if s.threads[i].held == 1 && Contended(s, i) then 1 else 0
  {
    IdleSees(s, i);
    assert Enabled(s, CallLeave(i)) && Apply(s, CallLeave(i)) == Goto(s, i, LeaveCheckOwner);
    hide Inv, Contended, Goes, Goto, Advance, Alone, IsRun, After, Enabled, Apply;
    var k := Leaves(s, i);
    AloneIsRun(s, CallLeave(i), k, Released(s, i));
  }
}

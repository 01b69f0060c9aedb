/**
 diskcache.cc: locks, open streams and size accounting of a disk cache.  An open stream is a
 DiskCacheAdapter, named by a handle; destroying it releases it.  `disk` gives the size of each
 file.  Which entries CheckLimit tries to evict, and which files cannot be opened or removed, are
 parameters.
 */
module DiskCache {
  import opened Common

  type Id = string

  datatype LockState = LS_UNLOCKED | LS_LOCKED | LS_UNLOCKING

  datatype Entry = Entry(lockState: LockState, accessors: int, size: int, streams: nat)

  datatype Stream = Stream(id: Id, index: nat, writes: bool)

  /** An entry CheckLimit picks, and the indexes whose files it fails to remove. */
  datatype Victim = Victim(id: Id, stuck: set<nat>)

  datatype State = State(maxCache: nat, totalSize: int, totalAccessors: int, entries: map<Id, Entry>,
                         open: map<nat, Stream>, disk: map<(Id, nat), nat>)

  // ----- What each operation does -----

  function FileSize(s: State, id: Id, index: nat): nat {
    if (id, index) in s.disk then s.disk[(id, index)] else 0
  }

  predicate Idle(e: Entry) {
    e.lockState == LS_UNLOCKED && e.accessors <= 0
  }

  /** The disk without the first n files of an entry, but for those that are stuck. */
  ghost function Without(disk: map<(Id, nat), nat>, id: Id, n: nat, stuck: set<nat>): map<(Id, nat), nat> {
    map f | f in disk && !(f.0 == id && f.1 < n && f.1 !in stuck) :: disk[f]
  }

  /** The entry goes even where some of its files cannot be removed. */
  ghost function AfterDelete(s: State, id: Id, stuck: set<nat>): State {
    if id in s.entries && Idle(s.entries[id]) then
      s.(totalSize := s.totalSize - s.entries[id].size,
         entries := s.entries - {id},
         disk := Without(s.disk, id, s.entries[id].streams, stuck))
    else s
  }

  /** What DeleteResource returns: nothing to delete, or an idle entry all of whose files could be removed. */
  ghost predicate Deletes(s: State, id: Id, stuck: set<nat>) {
    id in s.entries ==>
      && Idle(s.entries[id])
      && (forall i: nat | i < s.entries[id].streams && i in stuck :: (id, i) !in s.disk)
  }

  /**
   Deleting an idle entry takes it and exactly those of its files that are not stuck, and succeeds
   exactly when none of its files is left; anything else is left as it was.
   */
  lemma DeletesExactly(s: State, id: Id, stuck: set<nat>)
    ensures var t := AfterDelete(s, id, stuck);
            && (Deletes(s, id, stuck) <==>
                  id !in s.entries || (Idle(s.entries[id])
                                       && forall i: nat | i < s.entries[id].streams :: (id, i) !in t.disk))
            && (forall f | f in s.disk :: f !in t.disk <==>
                  f.0 == id && id in s.entries && Idle(s.entries[id])
                  && f.1 < s.entries[id].streams && f.1 !in stuck)
            && (forall f | f in t.disk :: f in s.disk && t.disk[f] == s.disk[f])
            && (id in t.entries <==> id in s.entries && !Idle(s.entries[id]))
  {
  }

  /** CheckLimit stops when the cache fits, when nothing is left to try, and when a deletion fails. */
  ghost function AfterCheckLimit(s: State, victims: seq<Victim>): State
    decreases |victims|
  {
    if s.totalSize <= s.maxCache || victims == [] then s
    else
      var v := victims[0];
      var t := AfterDelete(s, v.id, v.stuck);
      if Deletes(s, v.id, v.stuck) then AfterCheckLimit(t, victims[1..]) else t
  }

  /** What CheckLimit returns. */
  ghost predicate Fits(s: State, victims: seq<Victim>)
    decreases |victims|
  {
    || s.totalSize <= s.maxCache
    || (&& victims != []
        && Deletes(s, victims[0].id, victims[0].stuck)
        && Fits(AfterDelete(s, victims[0].id, victims[0].stuck), victims[1..]))
  }

  /** The entries CheckLimit deletes. */
  ghost function Evicted(s: State, victims: seq<Victim>): set<Id>
    decreases |victims|
  {
    if s.totalSize <= s.maxCache || victims == [] then {}
    else
      var v := victims[0];
      (if v.id in s.entries && Idle(s.entries[v.id]) then {v.id} else {})
      + if Deletes(s, v.id, v.stuck) then Evicted(AfterDelete(s, v.id, v.stuck), victims[1..]) else {}
  }

  /** Only an idle entry is deleted, and only over the limit. */
  lemma {:induction false} NeverEvicted(s: State, victims: seq<Victim>, id: Id)
    requires id in s.entries ==> s.totalSize <= s.maxCache || !Idle(s.entries[id])
    ensures id !in Evicted(s, victims)
    ensures id !in s.entries ==> id !in AfterCheckLimit(s, victims).entries
    decreases |victims|
  {
    if s.totalSize > s.maxCache && victims != [] {
      var v := victims[0];
      NeverEvicted(AfterDelete(s, v.id, v.stuck), victims[1..], id);
    }
  }

  lemma {:induction false} EvictedExactly(s: State, victims: seq<Victim>, id: Id)
    ensures id in s.entries ==> (id in AfterCheckLimit(s, victims).entries <==> id !in Evicted(s, victims))
    decreases |victims|
  {
    if s.totalSize > s.maxCache && victims != [] {
      var v := victims[0];
      var t := AfterDelete(s, v.id, v.stuck);
      if id in t.entries { EvictedExactly(t, victims[1..], id); } else { NeverEvicted(t, victims[1..], id); }
    }
  }

  lemma WithinLimit(s: State, victims: seq<Victim>)
    ensures s.totalSize <= s.maxCache ==> AfterCheckLimit(s, victims) == s && Fits(s, victims)
  {
  }

  function Created(s: State, id: Id): State {
    if id in s.entries then s else s.(entries := s.entries[id := Entry(LS_UNLOCKED, 0, 0, 0)])
  }

  ghost predicate Lockable(s: State, id: Id) {
    id in s.entries ==> s.entries[id].lockState != LS_LOCKED
                        && (s.entries[id].lockState == LS_UNLOCKED ==> s.entries[id].accessors <= 0)
  }

  /** What LockResource returns. */
  ghost predicate Locks(s: State, id: Id, victims: seq<Victim>) {
    Lockable(s, id) && Fits(Created(s, id), victims)
  }

  /** The new lock state is lost where the entry itself has been evicted. */
  ghost function AfterLock(s: State, id: Id, victims: seq<Victim>): State {
    var t := Created(s, id);
    if !Lockable(s, id) then t
    else
      var u := AfterCheckLimit(t, victims);
      if !Fits(t, victims) || id !in u.entries then u
      else u.(entries := u.entries[id := u.entries[id].(lockState := LS_LOCKED)])
  }

  ghost function AfterUnlock(s: State, id: Id, victims: seq<Victim>): State
    requires id in s.entries
  {
    var e := s.entries[id];
    if e.lockState != LS_LOCKED then s
    else if e.accessors > 0 then s.(entries := s.entries[id := e.(lockState := LS_UNLOCKING)])
    else AfterCheckLimit(s.(entries := s.entries[id := e.(lockState := LS_UNLOCKED)]), victims)
  }

  ghost predicate Writable(s: State, id: Id)
    requires id in s.entries
  {
    s.entries[id].lockState == LS_LOCKED
  }

  function Max(a: nat, b: nat): nat {
    if a < b then b else a
  }

  /** Opening a stream for writing truncates the file and takes its size off the books. */
  ghost function AfterWrite(s: State, id: Id, index: nat, handle: nat): State
    requires id in s.entries
  {
    var e := s.entries[id];
    var previous := Min(FileSize(s, id, index), e.size);
    if !Writable(s, id) then s
    else
      s.(totalSize := s.totalSize - previous,
         totalAccessors := s.totalAccessors + 1,
         entries := s.entries[id := e.(streams := Max(e.streams, index + 1), size := e.size - previous,
                                       accessors := e.accessors + 1)],
         open := s.open[handle := Stream(id, index, true)],
         disk := s.disk[(id, index) := 0])
  }

  ghost predicate Readable(s: State, id: Id, index: nat)
    requires id in s.entries
  {
    s.entries[id].lockState == LS_UNLOCKED && index < s.entries[id].streams && (id, index) in s.disk
  }

  ghost function AfterRead(s: State, id: Id, index: nat, handle: nat): State
    requires id in s.entries
  {
    var e := s.entries[id];
    if !Readable(s, id, index) then s
    else
      s.(totalAccessors := s.totalAccessors + 1,
         entries := s.entries[id := e.(accessors := e.accessors + 1)],
         open := s.open[handle := Stream(id, index, false)])
  }

  /** The owner of a writing stream appends to its file. */
  ghost function AfterAppend(s: State, handle: nat, bytes: nat): State
    requires handle in s.open
  {
    var f := (s.open[handle].id, s.open[handle].index);
    if s.open[handle].writes && f in s.disk then s.(disk := s.disk[f := s.disk[f] + bytes]) else s
  }

  /** The last writer of an entry whose lock is being given up. */
  predicate LastWriter(s: State, handle: nat)
    requires handle in s.open
  {
    var id := s.open[handle].id;
    id in s.entries && s.entries[id].lockState == LS_UNLOCKING && s.entries[id].accessors == 1
  }

  /** The stream is closed: a writer's file is put back on the books. */
  function AfterClose(s: State, handle: nat): State
    requires handle in s.open
  {
    var st := s.open[handle];
    var closed := s.(open := s.open - {handle});
    if st.id !in s.entries then closed
    else
      var e := s.entries[st.id];
      var t := closed.(totalAccessors := s.totalAccessors - 1);
      if e.lockState == LS_UNLOCKED then
        t.(entries := s.entries[st.id := e.(accessors := e.accessors - 1)])
      else
        var newSize := FileSize(s, st.id, st.index);
        t.(totalSize := s.totalSize + newSize,
           entries := s.entries[st.id := Entry(if LastWriter(s, handle) then LS_UNLOCKED else e.lockState,
                                               e.accessors - 1, e.size + newSize, e.streams)])
  }

  ghost function AfterRelease(s: State, handle: nat, victims: seq<Victim>): State
    requires handle in s.open
  {
    if LastWriter(s, handle) then AfterCheckLimit(AfterClose(s, handle), victims) else AfterClose(s, handle)
  }

  // ----- The invariant -----

  ghost function Sum(m: map<Id, int>): int
    decreases |m|
  {
    if m == map[] then 0
    else
      var k :| k in m;
      assert |m - {k}| < |m| by { Smaller(m, k); }
      m[k] + Sum(m - {k})
  }

  lemma Smaller(m: map<Id, int>, k: Id)
    requires k in m
    ensures |m - {k}| < |m|
  {
    assert m == (m - {k})[k := m[k]];
  }

  lemma {:induction false} SumWithout(m: map<Id, int>, k: Id)
    requires k in m
    ensures Sum(m) == m[k] + Sum(m - {k})
    decreases |m|
  {
    var j :| j in m && Sum(m) == m[j] + Sum(m - {j});
    if j != k {
      Smaller(m, j);
      Smaller(m, k);
      SumWithout(m - {j}, k);
      SumWithout(m - {k}, j);
      assert m - {j} - {k} == m - {k} - {j};
    }
  }

  lemma SumWith(m: map<Id, int>, k: Id, v: int)
    ensures Sum(m[k := v]) == v + Sum(m) - (if k in m then m[k] else 0)
  {
    SumWithout(m[k := v], k);
    assert m[k := v] - {k} == m - {k};
    if k in m { SumWithout(m, k); } else { assert m - {k} == m; }
  }

  ghost function Sizes(entries: map<Id, Entry>): map<Id, int> {
    map id | id in entries :: entries[id].size
  }

  ghost function Accessors(entries: map<Id, Entry>): map<Id, int> {
    map id | id in entries :: entries[id].accessors
  }

  ghost function OpenOn(open: map<nat, Stream>, id: Id): set<nat> {
    set h | h in open && open[h].id == id
  }

  ghost predicate Books(s: State) {
    && s.totalSize == Sum(Sizes(s.entries))
    && s.totalAccessors == Sum(Accessors(s.entries))
  }

  /** An entry counts its open streams; it has writers or readers as its lock state says. */
  ghost predicate Held(entries: map<Id, Entry>, open: map<nat, Stream>) {
    && (forall id | id in entries :: entries[id].accessors == |OpenOn(open, id)|)
    && (forall id | id in entries :: entries[id].lockState == LS_UNLOCKING ==> entries[id].accessors > 0)
    && (forall id | id in entries :: entries[id].size >= 0)
    && (forall h | h in open :: open[h].id in entries
                                && (open[h].writes <==> entries[open[h].id].lockState != LS_UNLOCKED))
  }

  ghost predicate Inv(s: State) {
    Books(s) && Held(s.entries, s.open)
  }

  lemma SetEntry(entries: map<Id, Entry>, id: Id, e: Entry)
    ensures Sum(Sizes(entries[id := e])) == Sum(Sizes(entries)) + e.size - if id in entries then entries[id].size else 0
    ensures Sum(Accessors(entries[id := e])) ==
            Sum(Accessors(entries)) + e.accessors - if id in entries then entries[id].accessors else 0
  {
    assert Sizes(entries[id := e]) == Sizes(entries)[id := e.size];
    assert Accessors(entries[id := e]) == Accessors(entries)[id := e.accessors];
    SumWith(Sizes(entries), id, e.size);
    SumWith(Accessors(entries), id, e.accessors);
  }

  lemma DropEntry(entries: map<Id, Entry>, id: Id)
    requires id in entries
    ensures Sum(Sizes(entries - {id})) == Sum(Sizes(entries)) - entries[id].size
    ensures Sum(Accessors(entries - {id})) == Sum(Accessors(entries)) - entries[id].accessors
  {
    assert Sizes(entries - {id}) == Sizes(entries) - {id};
    assert Accessors(entries - {id}) == Accessors(entries) - {id};
    SumWithout(Sizes(entries), id);
    SumWithout(Accessors(entries), id);
  }

  lemma Opened(open: map<nat, Stream>, h: nat, st: Stream, id: Id)
    requires h !in open
    ensures |OpenOn(open[h := st], id)| == |OpenOn(open, id)| + if st.id == id then 1 else 0
  {
    assert OpenOn(open[h := st], id) == OpenOn(open, id) + if st.id == id then {h} else {};
  }

  lemma Closed(open: map<nat, Stream>, h: nat, id: Id)
    requires h in open
    ensures |OpenOn(open - {h}, id)| == |OpenOn(open, id)| - if open[h].id == id then 1 else 0
  {
    assert OpenOn(open - {h}, id) == OpenOn(open, id) - if open[h].id == id then {h} else {};
  }

  lemma NoneOpen(open: map<nat, Stream>, id: Id)
    ensures |OpenOn(open, id)| == 0 <==> forall h | h in open :: open[h].id != id
  {
    assert forall h | h in open && open[h].id == id :: h in OpenOn(open, id);
    if |OpenOn(open, id)| != 0 {
      var h :| h in OpenOn(open, id);
      assert open[h].id == id;
    }
  }

  /** What no open stream belongs to may go. */
  lemma DeleteKeepsInv(s: State, id: Id, stuck: set<nat>)
    requires Inv(s)
    ensures Inv(AfterDelete(s, id, stuck))
  {
    hide OpenOn, Sum, Sizes, Accessors;
    if id in s.entries && Idle(s.entries[id]) {
      DropEntry(s.entries, id);
      NoneOpen(s.open, id);
      assert Held(s.entries - {id}, s.open);
    }
  }

  /** Eviction leaves the other entries and the open streams as they are. */
  lemma {:induction false} CheckLimitKeepsInv(s: State, victims: seq<Victim>)
    requires Inv(s)
    ensures var t := AfterCheckLimit(s, victims);
            && Inv(t) && t.open == s.open && t.maxCache == s.maxCache
            && (forall id | id in t.entries :: id in s.entries && t.entries[id] == s.entries[id])
    decreases |victims|
  {
    hide Inv;
    if s.totalSize > s.maxCache && victims != [] {
      var v := victims[0];
      DeleteKeepsInv(s, v.id, v.stuck);
      CheckLimitKeepsInv(AfterDelete(s, v.id, v.stuck), victims[1..]);
    }
  }

  lemma CreateKeepsInv(s: State, id: Id)
    requires Inv(s)
    ensures Inv(Created(s, id))
  {
    hide OpenOn, Sum, Sizes, Accessors;
    if id !in s.entries {
      SetEntry(s.entries, id, Entry(LS_UNLOCKED, 0, 0, 0));
      NoneOpen(s.open, id);
      assert Held(Created(s, id).entries, s.open);
    }
  }

  /** A change of lock state that suits the open streams. */
  lemma SetLockState(s: State, id: Id, l: LockState)
    requires Inv(s) && id in s.entries
    requires s.entries[id].accessors > 0 ==> (l != LS_UNLOCKED <==> s.entries[id].lockState != LS_UNLOCKED)
    requires l == LS_UNLOCKING ==> s.entries[id].accessors > 0
    ensures Inv(s.(entries := s.entries[id := s.entries[id].(lockState := l)]))
  {
    hide OpenOn, Sum;
    SetEntry(s.entries, id, s.entries[id].(lockState := l));
    NoneOpen(s.open, id);
  }

  lemma LockKeepsInv(s: State, id: Id, victims: seq<Victim>)
    requires Inv(s)
    ensures Inv(AfterLock(s, id, victims))
  {
    hide Inv, AfterCheckLimit;
    var t := Created(s, id);
    CreateKeepsInv(s, id);
    if Lockable(s, id) {
      CheckLimitKeepsInv(t, victims);
      var u := AfterCheckLimit(t, victims);
      if id in u.entries {
        SetLockState(u, id, LS_LOCKED);
      }
    }
  }

  lemma UnlockKeepsInv(s: State, id: Id, victims: seq<Victim>)
    requires Inv(s) && id in s.entries
    ensures Inv(AfterUnlock(s, id, victims))
  {
    var e := s.entries[id];
    assert e.accessors >= 0;
    hide AfterCheckLimit, Books, Held;
    if e.lockState == LS_LOCKED {
      if e.accessors > 0 {
        SetLockState(s, id, LS_UNLOCKING);
      } else {
        SetLockState(s, id, LS_UNLOCKED);
        CheckLimitKeepsInv(s.(entries := s.entries[id := e.(lockState := LS_UNLOCKED)]), victims);
      }
    }
  }

  /** One more open stream of the kind the entry allows. */
  lemma OpenKeepsHeld(entries: map<Id, Entry>, open: map<nat, Stream>, h: nat, st: Stream, e: Entry)
    requires Held(entries, open) && h !in open && st.id in entries
    requires e.lockState == entries[st.id].lockState && e.accessors == entries[st.id].accessors + 1 && e.size >= 0
    requires st.writes <==> e.lockState != LS_UNLOCKED
    ensures Held(entries[st.id := e], open[h := st])
  {
    hide OpenOn;
    forall id | id in entries ensures |OpenOn(open[h := st], id)| == entries[st.id := e][id].accessors {
      Opened(open, h, st, id);
    }
  }

  lemma WriteKeepsInv(s: State, id: Id, index: nat, handle: nat)
    requires Inv(s) && id in s.entries && handle !in s.open
    ensures Inv(AfterWrite(s, id, index, handle))
  {
    hide OpenOn, Sum;
    if Writable(s, id) {
      var e := AfterWrite(s, id, index, handle).entries[id];
      SetEntry(s.entries, id, e);
      OpenKeepsHeld(s.entries, s.open, handle, Stream(id, index, true), e);
    }
  }

  lemma ReadKeepsInv(s: State, id: Id, index: nat, handle: nat)
    requires Inv(s) && id in s.entries && handle !in s.open
    ensures Inv(AfterRead(s, id, index, handle))
  {
    hide OpenOn, Sum;
    if Readable(s, id, index) {
      var e := AfterRead(s, id, index, handle).entries[id];
      SetEntry(s.entries, id, e);
      OpenKeepsHeld(s.entries, s.open, handle, Stream(id, index, false), e);
    }
  }

  /** One stream less; a lock that was being given up goes with the last one. */
  lemma CloseKeepsHeld(entries: map<Id, Entry>, open: map<nat, Stream>, h: nat, e: Entry)
    requires Held(entries, open) && h in open && open[h].id in entries
    requires var was := entries[open[h].id];
             && e.accessors == was.accessors - 1 && e.size >= 0
             && e.lockState == (if was.lockState == LS_UNLOCKING && was.accessors == 1 then LS_UNLOCKED
                                else was.lockState)
    ensures Held(entries[open[h].id := e], open - {h})
  {
    hide OpenOn;
    var id := open[h].id;
    forall i | i in entries ensures |OpenOn(open - {h}, i)| == entries[id := e][i].accessors {
      Closed(open, h, i);
    }
    NoneOpen(open - {h}, id);
  }

  lemma CloseKeepsInv(s: State, handle: nat)
    requires Inv(s) && handle in s.open
    ensures Inv(AfterClose(s, handle))
  {
    hide OpenOn, Sum, Sizes, Accessors;
    var id := s.open[handle].id;
    var e' := AfterClose(s, handle).entries[id];
    SetEntry(s.entries, id, e');
    CloseKeepsHeld(s.entries, s.open, handle, e');
  }

  lemma ReleaseKeepsInv(s: State, handle: nat, victims: seq<Victim>)
    requires Inv(s) && handle in s.open
    ensures Inv(AfterRelease(s, handle, victims))
  {
    hide Inv, AfterClose, AfterCheckLimit;
    CloseKeepsInv(s, handle);
    CheckLimitKeepsInv(AfterClose(s, handle), victims);
  }

  // ----- Runs -----

  datatype Event =
    | Lock(id: Id, victims: seq<Victim>)
    | Write(id: Id, index: nat, handle: nat)
    | Append(handle: nat, bytes: nat)
    | Unlock(id: Id, victims: seq<Victim>)
    | Read(id: Id, index: nat, handle: nat)
    | Release(handle: nat, victims: seq<Victim>)
    | Delete(id: Id, stuck: set<nat>)

  /** Calls on present ids and live streams; handles name one stream at a time. */
  ghost predicate Enabled(s: State, e: Event) {
    match e
    case Lock(_, _) => true
    case Write(id, _, handle) => id in s.entries && handle !in s.open
    case Append(handle, _) => handle in s.open
    case Unlock(id, _) => id in s.entries
    case Read(id, _, handle) => id in s.entries && handle !in s.open
    case Release(handle, _) => handle in s.open
    case Delete(_, _) => true
  }

  ghost function Step(s: State, e: Event): State
    requires Enabled(s, e)
  {
    match e
    case Lock(id, victims) => AfterLock(s, id, victims)
    case Write(id, index, handle) => AfterWrite(s, id, index, handle)
    case Append(handle, bytes) => AfterAppend(s, handle, bytes)
    case Unlock(id, victims) => AfterUnlock(s, id, victims)
    case Read(id, index, handle) => AfterRead(s, id, index, handle)
    case Release(handle, victims) => AfterRelease(s, handle, victims)
    case Delete(id, stuck) => AfterDelete(s, id, stuck)
  }

  function Start(maxCache: nat): State {
    State(maxCache, 0, 0, map[], map[], map[])
  }

  ghost predicate Reaches(maxCache: nat, events: seq<Event>, s: State) {
    if events == [] then s == Start(maxCache)
    else
      var last := |events| - 1;
      exists p :: Reaches(maxCache, events[..last], p) && Enabled(p, events[last]) && s == Step(p, events[last])
  }

  /** A granted lock holds exactly when its entry is not evicted; within the limit, or not idle, it is not. */
  lemma LockHolds(s: State, id: Id, victims: seq<Victim>)
    requires Locks(s, id, victims)
    ensures var t, created := AfterLock(s, id, victims), Created(s, id);
            && (id in t.entries && t.entries[id].lockState == LS_LOCKED <==> id !in Evicted(created, victims))
            && (s.totalSize <= s.maxCache || !Idle(created.entries[id]) ==> id !in Evicted(created, victims))
  {
    EvictedExactly(Created(s, id), victims, id);
    if s.totalSize <= s.maxCache || !Idle(Created(s, id).entries[id]) { NeverEvicted(Created(s, id), victims, id); }
  }

  /** As the one candidate an entry loses its own lock exactly when it is idle and its size would make the cache fit. */
  lemma LockLosesItself(s: State, id: Id)
    requires id in s.entries
    ensures var victims := [Victim(id, {})];
            Locks(s, id, victims) && id !in AfterLock(s, id, victims).entries <==>
            Idle(s.entries[id]) && s.maxCache < s.totalSize <= s.maxCache + s.entries[id].size
  {
    var victims := [Victim(id, {})];
    assert victims[1..] == [];
    var t := AfterDelete(s, id, {});
    assert AfterCheckLimit(t, []) == t && (Fits(t, []) <==> t.totalSize <= t.maxCache);
  }

  lemma AppendKeepsInv(s: State, handle: nat, bytes: nat)
    requires Inv(s) && handle in s.open
    ensures Inv(AfterAppend(s, handle, bytes))
  {
    hide Sum;
  }

  lemma StepKeepsInv(s: State, e: Event)
    requires Inv(s) && Enabled(s, e)
    ensures Inv(Step(s, e))
  {
    hide Inv, AfterLock, AfterWrite, AfterUnlock, AfterRead, AfterRelease, AfterDelete;
    match e
    case Lock(id, victims) => LockKeepsInv(s, id, victims);
    case Write(id, index, handle) => WriteKeepsInv(s, id, index, handle);
    case Append(handle, bytes) => AppendKeepsInv(s, handle, bytes);
    case Unlock(id, victims) => UnlockKeepsInv(s, id, victims);
    case Read(id, index, handle) => ReadKeepsInv(s, id, index, handle);
    case Release(handle, victims) => ReleaseKeepsInv(s, handle, victims);
    case Delete(id, stuck) => DeleteKeepsInv(s, id, stuck);
  }

  lemma {:induction false} ReachesInv(maxCache: nat, events: seq<Event>, s: State)
    requires Reaches(maxCache, events, s)
    ensures Inv(s)
    decreases |events|
  {
    if events != [] {
      hide Inv, Step;
      var last := |events| - 1;
      var p :| Reaches(maxCache, events[..last], p) && Enabled(p, events[last]) && s == Step(p, events[last]);
      ReachesInv(maxCache, events[..last], p);
      StepKeepsInv(p, events[last]);
    }
  }

  /** In every run: no entry has a reader and a writer open together, and the entry of an open stream exists. */
  lemma ReadersOrWriters(maxCache: nat, events: seq<Event>, s: State, g: nat, h: nat)
    requires Reaches(maxCache, events, s) && g in s.open && h in s.open && s.open[g].id == s.open[h].id
    ensures s.open[g].writes == s.open[h].writes
    ensures s.open[g].id in s.entries && s.entries[s.open[g].id].accessors > 0
  {
    ReachesInv(maxCache, events, s);
    NoneOpen(s.open, s.open[g].id);
  }

  /** In every run the totals are the sums over the entries, and each entry counts its open streams. */
  lemma TotalsAreSums(maxCache: nat, events: seq<Event>, s: State)
    requires Reaches(maxCache, events, s)
    ensures s.totalSize == Sum(Sizes(s.entries)) && s.totalAccessors == Sum(Accessors(s.entries))
    ensures forall id | id in s.entries :: s.entries[id].accessors == |OpenOn(s.open, id)| && s.entries[id].size >= 0
  {
    ReachesInv(maxCache, events, s);
  }

  /** Whatever a step erases had no open stream left. */
  lemma ErasedIsClosed(maxCache: nat, events: seq<Event>, s: State, e: Event, id: Id)
    requires Reaches(maxCache, events, s) && Enabled(s, e)
    requires id in s.entries && id !in Step(s, e).entries
    ensures OpenOn(Step(s, e).open, id) == {}
  {
    hide Step;
    ReachesInv(maxCache, events, s);
    StepKeepsInv(s, e);
  }

  // ----- What callers see of the locks -----

  /** The ids whose last granted Lock has not been followed by a granted Unlock, as long as they have an entry. */
  ghost function LockedAfter(p: State, e: Event, locked: set<Id>): set<Id>
    requires Enabled(p, e)
  {
    var ids :=
      match e
      case Lock(id, victims) => if Locks(p, id, victims) then locked + {id} else locked
      case Unlock(id, _) => if Writable(p, id) then locked - {id} else locked
      case _ => locked;
    ids * Step(p, e).entries.Keys
  }

  /** A run, with the ids its callers have locked. */
  ghost predicate ReachesLocked(maxCache: nat, events: seq<Event>, s: State, locked: set<Id>) {
    if events == [] then s == Start(maxCache) && locked == {}
    else
      var last := |events| - 1;
      exists p, l ::
        && ReachesLocked(maxCache, events[..last], p, l)
        && Enabled(p, events[last]) && s == Step(p, events[last]) && locked == LockedAfter(p, events[last], l)
  }

  ghost predicate LockStates(s: State, locked: set<Id>) {
    && locked <= s.entries.Keys
    && (forall id | id in s.entries :: s.entries[id].lockState == LS_LOCKED <==> id in locked)
  }

  lemma LockKeepsLockStates(s: State, id: Id, victims: seq<Victim>, locked: set<Id>)
    requires Inv(s) && LockStates(s, locked)
    ensures LockStates(AfterLock(s, id, victims), LockedAfter(s, Event.Lock(id, victims), locked))
  {
    hide Inv, AfterCheckLimit, Fits;
    CreateKeepsInv(s, id);
    CheckLimitKeepsInv(Created(s, id), victims);
  }

  lemma UnlockKeepsLockStates(s: State, id: Id, victims: seq<Victim>, locked: set<Id>)
    requires Inv(s) && id in s.entries && LockStates(s, locked)
    ensures LockStates(AfterUnlock(s, id, victims), LockedAfter(s, Unlock(id, victims), locked))
  {
    hide OpenOn, Books, AfterCheckLimit;
    if Writable(s, id) && s.entries[id].accessors <= 0 {
      SetLockState(s, id, LS_UNLOCKED);
      CheckLimitKeepsInv(s.(entries := s.entries[id := s.entries[id].(lockState := LS_UNLOCKED)]), victims);
    }
  }

  lemma ReleaseKeepsLockStates(s: State, handle: nat, victims: seq<Victim>, locked: set<Id>)
    requires Inv(s) && handle in s.open && LockStates(s, locked)
    ensures LockStates(AfterRelease(s, handle, victims), LockedAfter(s, Release(handle, victims), locked))
  {
    hide Inv, AfterCheckLimit;
    CloseKeepsInv(s, handle);
    CheckLimitKeepsInv(AfterClose(s, handle), victims);
  }

  /** A step changes the lock states as its caller was told. */
  lemma StepKeepsLockStates(s: State, e: Event, locked: set<Id>)
    requires Inv(s) && Enabled(s, e) && LockStates(s, locked)
    ensures LockStates(Step(s, e), LockedAfter(s, e, locked))
  {
    hide Inv, AfterLock, AfterUnlock, AfterRelease;
    match e
    case Lock(id, victims) => LockKeepsLockStates(s, id, victims, locked);
    case Unlock(id, victims) => UnlockKeepsLockStates(s, id, victims, locked);
    case Release(handle, victims) => ReleaseKeepsLockStates(s, handle, victims, locked);
    case _ =>
  }

  lemma {:induction false} RunKeepsLockStates(maxCache: nat, events: seq<Event>, s: State, locked: set<Id>)
    requires ReachesLocked(maxCache, events, s, locked)
    ensures Inv(s) && LockStates(s, locked)
    decreases |events|
  {
    if events != [] {
      hide Inv, Step, LockStates, LockedAfter;
      var last := |events| - 1;
      var p, l :|
        && ReachesLocked(maxCache, events[..last], p, l)
        && Enabled(p, events[last]) && s == Step(p, events[last]) && locked == LockedAfter(p, events[last], l);
      RunKeepsLockStates(maxCache, events[..last], p, l);
      StepKeepsInv(p, events[last]);
      StepKeepsLockStates(p, events[last], l);
    } else {
      StartKeepsAll(maxCache);
    }
  }

  lemma StartKeepsAll(maxCache: nat)
    ensures Inv(Start(maxCache)) && LockStates(Start(maxCache), {})
  {
  }

  /** Some stream is open on the entry for reading (or for writing). */
  ghost predicate AnyOpen(s: State, id: Id, writes: bool) {
    exists h | h in s.open :: s.open[h].id == id && s.open[h].writes == writes
  }

  /**
   Which calls are granted, in every run, by what callers did before.  Locking: nobody has the lock
   and nobody reads, and the cache fits.  Writing and unlocking: somebody has the lock.  Reading:
   nobody has the lock or writes, and the file is there.  Deleting: nobody has the lock, reads or writes.
   */
  lemma GrantedExactly(maxCache: nat, events: seq<Event>, s: State, locked: set<Id>, id: Id)
    requires ReachesLocked(maxCache, events, s, locked)
    ensures forall victims ::
              Locks(s, id, victims) <==> id !in locked && !AnyOpen(s, id, false) && Fits(Created(s, id), victims)
    ensures id in s.entries ==>
              && (Writable(s, id) <==> id in locked)
              && (forall index: nat :: Readable(s, id, index) <==>
                    && id !in locked && !AnyOpen(s, id, true)
                    && index < s.entries[id].streams && (id, index) in s.disk)
              && (Idle(s.entries[id]) <==> id !in locked && !AnyOpen(s, id, true) && !AnyOpen(s, id, false))
  {
    RunKeepsLockStates(maxCache, events, s, locked);
    NoneOpen(s.open, id);
    hide OpenOn, Books, Fits;
  }

  /** Closing a stream evicts exactly where it was the last one of an entry that has been unlocked meanwhile. */
  lemma ReleaseEvicts(maxCache: nat, events: seq<Event>, s: State, handle: nat, victims: seq<Victim>)
    requires Reaches(maxCache, events, s) && handle in s.open
    ensures var id, closed := s.open[handle].id, AfterRelease(s, handle, []);
            && id in s.entries
            && AfterRelease(s, handle, victims) ==
               if s.entries[id].lockState == LS_UNLOCKING && OpenOn(s.open, id) == {handle}
               then AfterCheckLimit(closed, victims) else closed
  {
    ReachesInv(maxCache, events, s);
    var open := OpenOn(s.open, s.open[handle].id);
    hide AfterCheckLimit, AfterClose;
    assert AfterCheckLimit(AfterClose(s, handle), []) == AfterClose(s, handle) by { NoVictims(AfterClose(s, handle)); }
    assert handle in open && (|open| == 1 ==> open - {handle} == {}) by {
      assert |open - {handle}| == |open| - 1;
    }
  }

  lemma NoVictims(s: State)
    ensures AfterCheckLimit(s, []) == s
  {
  }

  /** A run from s to t. */
  ghost predicate Leads(s: State, events: seq<Event>, t: State) {
    if events == [] then s == t
    else
      var last := |events| - 1;
      exists p :: Leads(s, events[..last], p) && Enabled(p, events[last]) && t == Step(p, events[last])
  }

  lemma {:induction false} LeadsWithoutLock(s: State, events: seq<Event>, t: State, id: Id)
    requires Inv(s) && Leads(s, events, t) && forall e | e in events :: !(e.Lock? && e.id == id)
    requires id in s.entries ==> s.entries[id].lockState != LS_LOCKED
    ensures Inv(t) && (id in t.entries ==> t.entries[id].lockState != LS_LOCKED)
    decreases |events|
  {
    if events != [] {
      var last := |events| - 1;
      var e := events[last];
      var p :| Leads(s, events[..last], p) && Enabled(p, e) && t == Step(p, e);
      LeadsWithoutLock(s, events[..last], p, id);
      StepKeepsInv(p, e);
      UnlockedStays(p, e, id);
    }
  }

  lemma UnlockedStays(s: State, e: Event, id: Id)
    requires Inv(s) && Enabled(s, e) && !(e.Lock? && e.id == id)
    requires id in s.entries ==> s.entries[id].lockState != LS_LOCKED
    ensures id in Step(s, e).entries ==> Step(s, e).entries[id].lockState != LS_LOCKED
  {
    var locked := set i | i in s.entries && s.entries[i].lockState == LS_LOCKED;
    StepKeepsLockStates(s, e, locked);
    hide Inv, Step;
  }

  /**
   A granted Unlock, in every run: until the id is locked again no write opens on it; and once its
   streams are closed, in any order, it is evicted or unlocked, and what it has on disk can be read.
   */
  lemma UnlockCompletes(maxCache: nat, before: seq<Event>, s: State, id: Id, victims: seq<Victim>,
                        more: seq<Event>, t: State)
    requires Reaches(maxCache, before, s) && id in s.entries && Writable(s, id)
    requires Leads(Step(s, Unlock(id, victims)), more, t) && forall e | e in more :: !(e.Lock? && e.id == id)
    ensures id in t.entries ==> !Writable(t, id)
    ensures id in t.entries && OpenOn(t.open, id) == {} ==>
              && t.entries[id].lockState == LS_UNLOCKED
              && (forall index: nat | index < t.entries[id].streams && (id, index) in t.disk :: Readable(t, id, index))
  {
    ReachesInv(maxCache, before, s);
    StepKeepsInv(s, Unlock(id, victims));
    UnlockUnlocks(s, id, victims);
    hide Step;
    LeadsWithoutLock(Step(s, Unlock(id, victims)), more, t, id);
  }

  lemma UnlockUnlocks(s: State, id: Id, victims: seq<Victim>)
    requires Inv(s) && id in s.entries && Writable(s, id)
    ensures var t := Step(s, Unlock(id, victims)); id in t.entries ==> t.entries[id].lockState != LS_LOCKED
  {
    var locked := set i | i in s.entries && s.entries[i].lockState == LS_LOCKED;
    StepKeepsLockStates(s, Unlock(id, victims), locked);
    hide Inv, Step;
  }

  // ----- The books and the disk -----

  ghost predicate BeingWritten(open: map<nat, Stream>, id: Id, index: nat) {
    exists h | h in open :: open[h] == Stream(id, index, true)
  }

  /** The bytes of a file that nobody is writing. */
  ghost function Settled(s: State, id: Id, index: nat): nat {
    if BeingWritten(s.open, id, index) then 0 else FileSize(s, id, index)
  }

  ghost function SettledBelow(s: State, id: Id, n: nat): nat {
    if n == 0 then 0 else SettledBelow(s, id, n - 1) + Settled(s, id, n - 1)
  }

  /** No file has two writers; no file lies outside its entry; sizes are those on disk. */
  ghost predicate Accurate(s: State) {
    && (forall h | h in s.open && s.open[h].writes :: (s.open[h].id, s.open[h].index) in s.disk)
    && (forall g, h | g in s.open && h in s.open && g != h && s.open[g].writes :: s.open[g] != s.open[h])
    && (forall f | f in s.disk :: f.0 in s.entries && f.1 < s.entries[f.0].streams)
    && (forall id | id in s.entries :: s.entries[id].size == SettledBelow(s, id, s.entries[id].streams))
  }

  ghost predicate NoneStuck(victims: seq<Victim>) {
    forall v | v in victims :: v.stuck == {}
  }

  /** One writer to a file at a time, and every file can be removed. */
  ghost predicate Disciplined(s: State, e: Event)
    requires Enabled(s, e)
  {
    match e
    case Write(id, index, _) => Writable(s, id) ==> !BeingWritten(s.open, id, index)
    case Lock(_, victims) => NoneStuck(victims)
    case Unlock(_, victims) => NoneStuck(victims)
    case Release(_, victims) => NoneStuck(victims)
    case Delete(_, stuck) => stuck == {}
    case _ => true
  }

  lemma {:induction false} SameBelow(s: State, t: State, id: Id, n: nat)
    requires forall i: nat | i < n :: Settled(s, id, i) == Settled(t, id, i)
    ensures SettledBelow(s, id, n) == SettledBelow(t, id, n)
  {
    if n > 0 { SameBelow(s, t, id, n - 1); }
  }

  /** Changing one file changes the total by as much; files from n to m that hold nothing do not count. */
  lemma {:induction false} ChangeBelow(s: State, t: State, id: Id, k: nat, n: nat, m: nat)
    requires n <= m && k < m
    requires forall i: nat | i < m && i != k :: Settled(s, id, i) == Settled(t, id, i)
    requires forall i: nat | n <= i < m :: Settled(s, id, i) == 0
    ensures SettledBelow(t, id, m) == SettledBelow(s, id, n) + Settled(t, id, k) - Settled(s, id, k)
    decreases m
  {
    if k == m - 1 {
      SameBelow(s, t, id, m - 1);
      EmptyAbove(s, id, n, m);
    } else if n == m {
      ChangeBelow(s, t, id, k, n - 1, m - 1);
    } else {
      ChangeBelow(s, t, id, k, n, m - 1);
    }
  }

  lemma {:induction false} EmptyAbove(s: State, id: Id, n: nat, m: nat)
    requires n <= m && forall i: nat | n <= i < m :: Settled(s, id, i) == 0
    ensures SettledBelow(s, id, m) == SettledBelow(s, id, n)
    decreases m
  {
    if n < m { EmptyAbove(s, id, n, m - 1); }
  }

  lemma {:induction false} PartBelow(s: State, id: Id, k: nat, n: nat)
    requires k < n
    ensures Settled(s, id, k) <= SettledBelow(s, id, n)
  {
    if k < n - 1 { PartBelow(s, id, k, n - 1); }
  }

  lemma WriterAdded(open: map<nat, Stream>, h: nat, st: Stream, id: Id, i: nat)
    requires h !in open
    ensures BeingWritten(open[h := st], id, i) <==> BeingWritten(open, id, i) || st == Stream(id, i, true)
  {
    var after := open[h := st];
    if BeingWritten(open, id, i) {
      var g :| g in open && open[g] == Stream(id, i, true);
      assert g in after && after[g] == Stream(id, i, true);
    }
    if st == Stream(id, i, true) { assert h in after && after[h] == st; }
  }

  lemma IsWritten(open: map<nat, Stream>, h: nat, id: Id, i: nat)
    requires h in open
    ensures open[h] == Stream(id, i, true) ==> BeingWritten(open, id, i)
  {
  }

  lemma WriterRemoved(open: map<nat, Stream>, h: nat, id: Id, i: nat)
    requires h in open
    requires forall g | g in open && g != h && open[g].writes :: open[g] != open[h]
    ensures BeingWritten(open - {h}, id, i) <==> BeingWritten(open, id, i) && open[h] != Stream(id, i, true)
  {
    if BeingWritten(open, id, i) && open[h] != Stream(id, i, true) {
      var g :| g in open && open[g] == Stream(id, i, true);
      assert g in open - {h};
    }
  }

  /** The file about to be overwritten is covered by the entry's size: the assertion before the clamp holds. */
  lemma PreviousSizeCovered(s: State, id: Id, index: nat)
    requires Accurate(s) && id in s.entries && !BeingWritten(s.open, id, index)
    ensures FileSize(s, id, index) <= s.entries[id].size
  {
    if (id, index) in s.disk { PartBelow(s, id, index, s.entries[id].streams); }
  }

  lemma WriteKeepsAccurate(s: State, id: Id, index: nat, handle: nat)
    requires Accurate(s) && Enabled(s, Event.Write(id, index, handle))
    requires Writable(s, id) ==> !BeingWritten(s.open, id, index)
    ensures Accurate(AfterWrite(s, id, index, handle))
  {
    hide BeingWritten, SettledBelow;
    var t, st := AfterWrite(s, id, index, handle), Stream(id, index, true);
    if Writable(s, id) {
      PreviousSizeCovered(s, id, index);
      forall j: Id, i: nat ensures (j, i) != (id, index) ==> Settled(s, j, i) == Settled(t, j, i) {
        WriterAdded(s.open, handle, st, j, i);
      }
      WriterAdded(s.open, handle, st, id, index);
      hide Settled;
      ChangeBelow(s, t, id, index, s.entries[id].streams, t.entries[id].streams);
      forall j | j in s.entries && j != id ensures t.entries[j].size == SettledBelow(t, j, t.entries[j].streams) {
        SameBelow(s, t, j, s.entries[j].streams);
      }
      forall h | h in s.open ensures s.open[h] != st {
        IsWritten(s.open, h, id, index);
      }
    }
  }

  /** A step that neither opens nor closes a writer and leaves settled files and sizes alone. */
  lemma UntouchedAccurate(s: State, t: State)
    requires Accurate(s) && s.open == t.open
    requires forall id | id in t.entries :: id in s.entries && s.entries[id].size == t.entries[id].size
                                            && s.entries[id].streams == t.entries[id].streams
    requires forall f | f in t.disk :: f in s.disk && f.0 in t.entries
    requires forall h | h in t.open && t.open[h].writes :: (t.open[h].id, t.open[h].index) in t.disk
    requires forall id: Id, i: nat | id in t.entries :: Settled(s, id, i) == Settled(t, id, i)
    ensures Accurate(t)
  {
    hide Settled;
    forall id | id in t.entries ensures t.entries[id].size == SettledBelow(t, id, t.entries[id].streams) {
      SameBelow(s, t, id, s.entries[id].streams);
    }
  }

  lemma DeleteKeepsAccurate(s: State, id: Id, stuck: set<nat>)
    requires Inv(s) && Accurate(s) && stuck == {}
    ensures Accurate(AfterDelete(s, id, stuck))
  {
    if id in s.entries && Idle(s.entries[id]) {
      NoneOpen(s.open, id);
      hide Inv, SettledBelow, OpenOn;
      UntouchedAccurate(s, AfterDelete(s, id, stuck));
    }
  }

  lemma {:induction false} CheckLimitKeepsAccurate(s: State, victims: seq<Victim>)
    requires Inv(s) && Accurate(s) && NoneStuck(victims)
    ensures Accurate(AfterCheckLimit(s, victims))
    decreases |victims|
  {
    hide Inv, Accurate, AfterDelete;
    if s.totalSize > s.maxCache && victims != [] {
      var v := victims[0];
      assert v in victims;
      DeleteKeepsInv(s, v.id, v.stuck);
      DeleteKeepsAccurate(s, v.id, v.stuck);
      CheckLimitKeepsAccurate(AfterDelete(s, v.id, v.stuck), victims[1..]);
    }
  }

  lemma CreateKeepsAccurate(s: State, id: Id)
    requires Accurate(s)
    ensures Accurate(Created(s, id))
  {
    var t := Created(s, id);
    forall j | j in t.entries ensures t.entries[j].size == SettledBelow(t, j, t.entries[j].streams) {
      if j in s.entries { SameBelow(s, t, j, s.entries[j].streams); }
    }
  }

  lemma RelockAccurate(s: State, id: Id, l: LockState)
    requires Accurate(s) && id in s.entries
    ensures Accurate(s.(entries := s.entries[id := s.entries[id].(lockState := l)]))
  {
    UntouchedAccurate(s, s.(entries := s.entries[id := s.entries[id].(lockState := l)]));
  }

  lemma LockKeepsAccurate(s: State, id: Id, victims: seq<Victim>)
    requires Inv(s) && Accurate(s) && NoneStuck(victims)
    ensures Accurate(AfterLock(s, id, victims))
  {
    hide Inv, Accurate, AfterCheckLimit;
    CreateKeepsInv(s, id);
    CreateKeepsAccurate(s, id);
    CheckLimitKeepsAccurate(Created(s, id), victims);
    var u := AfterCheckLimit(Created(s, id), victims);
    if id in u.entries { RelockAccurate(u, id, LS_LOCKED); }
  }

  lemma UnlockKeepsAccurate(s: State, id: Id, victims: seq<Victim>)
    requires Inv(s) && Accurate(s) && id in s.entries && NoneStuck(victims)
    ensures Accurate(AfterUnlock(s, id, victims))
  {
    var e := s.entries[id];
    assert e.accessors >= 0;
    hide Inv, Accurate, AfterCheckLimit;
    RelockAccurate(s, id, LS_UNLOCKING);
    RelockAccurate(s, id, LS_UNLOCKED);
    if e.accessors == 0 {
      SetLockState(s, id, LS_UNLOCKED);
      CheckLimitKeepsAccurate(s.(entries := s.entries[id := e.(lockState := LS_UNLOCKED)]), victims);
    }
  }

  lemma ReadKeepsAccurate(s: State, id: Id, index: nat, handle: nat)
    requires Accurate(s) && Enabled(s, Event.Read(id, index, handle))
    ensures Accurate(AfterRead(s, id, index, handle))
  {
    hide BeingWritten, SettledBelow;
    var t := AfterRead(s, id, index, handle);
    if Readable(s, id, index) {
      forall j | j in s.entries ensures t.entries[j].size == SettledBelow(t, j, t.entries[j].streams) {
        forall i: nat ensures Settled(s, j, i) == Settled(t, j, i) {
          WriterAdded(s.open, handle, Stream(id, index, false), j, i);
        }
        SameBelow(s, t, j, s.entries[j].streams);
      }
    }
  }

  lemma AppendKeepsAccurate(s: State, handle: nat, bytes: nat)
    requires Accurate(s) && handle in s.open
    ensures Accurate(AfterAppend(s, handle, bytes))
  {
    var st := s.open[handle];
    assert st.writes ==> BeingWritten(s.open, st.id, st.index);
    UntouchedAccurate(s, AfterAppend(s, handle, bytes));
  }

  lemma ReleaseKeepsAccurate(s: State, handle: nat, victims: seq<Victim>)
    requires Inv(s) && Accurate(s) && handle in s.open && NoneStuck(victims)
    ensures Accurate(AfterRelease(s, handle, victims))
  {
    hide Inv, Accurate, AfterClose, AfterCheckLimit;
    CloseKeepsInv(s, handle);
    CloseKeepsAccurate(s, handle);
    CheckLimitKeepsAccurate(AfterClose(s, handle), victims);
  }

  lemma CloseKeepsAccurate(s: State, handle: nat)
    requires Inv(s) && Accurate(s) && handle in s.open
    ensures Accurate(AfterClose(s, handle))
  {
    var st := s.open[handle];
    assert st.id in s.entries && (st.writes <==> s.entries[st.id].lockState != LS_UNLOCKED);
    hide Inv, Accurate;
    ClosedAccurate(s, handle, AfterClose(s, handle));
  }

  /** Closing one stream, with a writer's file added to its entry's size. */
  lemma ClosedAccurate(s: State, handle: nat, u: State)
    requires Accurate(s) && handle in s.open && s.open[handle].id in s.entries
    requires u.open == s.open - {handle} && u.disk == s.disk && u.entries.Keys == s.entries.Keys
    requires forall id | id in s.entries :: u.entries[id].streams == s.entries[id].streams
    requires forall id | id in s.entries && id != s.open[handle].id :: u.entries[id].size == s.entries[id].size
    requires var st := s.open[handle];
             u.entries[st.id].size == s.entries[st.id].size + if st.writes then FileSize(s, st.id, st.index) else 0
    ensures Accurate(u)
  {
    hide BeingWritten, SettledBelow;
    var st := s.open[handle];
    forall j: Id, i: nat
      ensures Settled(u, j, i) == Settled(s, j, i) + if st == Stream(j, i, true) then FileSize(s, j, i) else 0
    {
      WriterRemoved(s.open, handle, j, i);
      if st == Stream(j, i, true) { IsWritten(s.open, handle, j, i); }
    }
    hide Settled;
    forall j | j in s.entries ensures u.entries[j].size == SettledBelow(u, j, u.entries[j].streams) {
      var n := s.entries[j].streams;
      if j == st.id && st.writes {
        ChangeBelow(s, u, j, st.index, n, n);
      } else {
        SameBelow(s, u, j, n);
      }
    }
  }

  lemma StepKeepsAccurate(s: State, e: Event)
    requires Inv(s) && Accurate(s) && Enabled(s, e) && Disciplined(s, e)
    ensures Accurate(Step(s, e))
  {
    hide Inv, Accurate, AfterLock, AfterWrite, AfterUnlock, AfterRead, AfterAppend, AfterRelease, AfterDelete;
    match e
    case Lock(id, victims) => LockKeepsAccurate(s, id, victims);
    case Write(id, index, handle) => WriteKeepsAccurate(s, id, index, handle);
    case Append(handle, bytes) => AppendKeepsAccurate(s, handle, bytes);
    case Unlock(id, victims) => UnlockKeepsAccurate(s, id, victims);
    case Read(id, index, handle) => ReadKeepsAccurate(s, id, index, handle);
    case Release(handle, victims) => ReleaseKeepsAccurate(s, handle, victims);
    case Delete(id, stuck) => DeleteKeepsAccurate(s, id, stuck);
  }

  /** A run in which no file is opened for writing while it is being written, and every deletion deletes. */
  ghost predicate ReachesDisciplined(maxCache: nat, events: seq<Event>, s: State) {
    if events == [] then s == Start(maxCache)
    else
      var last := |events| - 1;
      exists p ::
        && ReachesDisciplined(maxCache, events[..last], p)
        && Enabled(p, events[last]) && Disciplined(p, events[last]) && s == Step(p, events[last])
  }

  lemma {:induction false} DisciplinedAccurate(maxCache: nat, events: seq<Event>, s: State)
    requires ReachesDisciplined(maxCache, events, s)
    ensures Inv(s) && Accurate(s)
    decreases |events|
  {
    if events != [] {
      hide Inv, Accurate, Step;
      var last := |events| - 1;
      var p :|
        && ReachesDisciplined(maxCache, events[..last], p)
        && Enabled(p, events[last]) && Disciplined(p, events[last]) && s == Step(p, events[last]);
      DisciplinedAccurate(maxCache, events[..last], p);
      StepKeepsInv(p, events[last]);
      StepKeepsAccurate(p, events[last]);
    }
  }

  /** The assertion WriteResource makes before it clamps. */
  ghost predicate Covered(s: State, id: Id, index: nat)
    requires id in s.entries
  {
    FileSize(s, id, index) <= s.entries[id].size
  }

  /**
   In such runs an entry's size is what its settled files take on disk; so the assertion holds
   exactly when nobody is writing the file, or has not yet written more than those.
   */
  lemma SizesAreOnDisk(maxCache: nat, events: seq<Event>, s: State, id: Id, index: nat)
    requires ReachesDisciplined(maxCache, events, s) && id in s.entries
    ensures s.entries[id].size == SettledBelow(s, id, s.entries[id].streams)
    ensures Covered(s, id, index) <==>
            !BeingWritten(s.open, id, index) || FileSize(s, id, index) <= SettledBelow(s, id, s.entries[id].streams)
  {
    DisciplinedAccurate(maxCache, events, s);
    if !BeingWritten(s.open, id, index) { PreviousSizeCovered(s, id, index); }
  }

  /** The assertion holds now, and whatever any open stream may append next. */
  ghost predicate StaysCovered(s: State, id: Id, index: nat)
    requires id in s.entries
  {
    && Covered(s, id, index)
    && (forall h: nat, n: nat | h in s.open :: Covered(AfterAppend(s, h, n), id, index))
  }

  /**
   In a run without second writers so far, opening a file for writing is safe exactly when nobody is
   writing it: as long as somebody is, some amount of written bytes makes the assertion fail.
   */
  lemma AssertionExactly(maxCache: nat, events: seq<Event>, s: State, id: Id, index: nat)
    requires ReachesDisciplined(maxCache, events, s) && id in s.entries
    ensures StaysCovered(s, id, index) <==> !BeingWritten(s.open, id, index)
  {
    hide SettledBelow;
    DisciplinedAccurate(maxCache, events, s);
    if BeingWritten(s.open, id, index) {
      var h :| h in s.open && s.open[h] == Stream(id, index, true);
      assert !Covered(AfterAppend(s, h, s.entries[id].size + 1), id, index);
    } else {
      PreviousSizeCovered(s, id, index);
      forall h: nat, n: nat | h in s.open ensures Covered(AfterAppend(s, h, n), id, index) {
        AppendKeepsAccurate(s, h, n);
        PreviousSizeCovered(AfterAppend(s, h, n), id, index);
      }
    }
  }

  /** As Disciplined, with the assertion, however the writing goes on, in place of the one writer. */
  ghost predicate Safe(s: State, e: Event)
    requires Enabled(s, e)
  {
    if e.Write? then Writable(s, e.id) ==> StaysCovered(s, e.id, e.index) else Disciplined(s, e)
  }

  /** A run in which every opening for writing meets the assertion safely, and every deletion deletes. */
  ghost predicate ReachesSafely(maxCache: nat, events: seq<Event>, s: State) {
    if events == [] then s == Start(maxCache)
    else
      var last := |events| - 1;
      exists p ::
        && ReachesSafely(maxCache, events[..last], p)
        && Enabled(p, events[last]) && Safe(p, events[last]) && s == Step(p, events[last])
  }

  /**
   Over whole runs: the assertion is never at risk where a file is opened for writing exactly when
   no file is opened for writing while it is being written.
   */
  lemma {:induction false} SafeRunsExactly(maxCache: nat, events: seq<Event>, s: State)
    ensures ReachesSafely(maxCache, events, s) <==> ReachesDisciplined(maxCache, events, s)
    decreases |events|
  {
    if events != [] {
      hide Step, StaysCovered, BeingWritten;
      var last := |events| - 1;
      var before, e := events[..last], events[last];
      forall p ensures ReachesSafely(maxCache, before, p) <==> ReachesDisciplined(maxCache, before, p) {
        SafeRunsExactly(maxCache, before, p);
      }
      forall p | ReachesDisciplined(maxCache, before, p) && Enabled(p, e) ensures Safe(p, e) <==> Disciplined(p, e) {
        if e.Write? { AssertionExactly(maxCache, before, p, e.id, e.index); }
      }
    }
  }

  /** A run in which a second writer of one file makes the assertion fail. */
  lemma TwoWritersBreakTheAssertion() returns (events: seq<Event>, s: State)
    ensures Reaches(100, events, s) && Enabled(s, Event.Write("a", 0, 2)) && Writable(s, "a")
    ensures !Covered(s, "a", 0)
  {
    var e0, e1, e2 := Event.Lock("a", []), Event.Write("a", 0, 1), Event.Append(1, 5);
    var s1 := Step(Start(100), e0);
    var s2 := Step(s1, e1);
    s := Step(s2, e2);
    events := [e0, e1, e2];
    assert events[..2] == [e0, e1] && [e0, e1][..1] == [e0] && [e0][..0] == [];
    assert Reaches(100, [], Start(100));
    assert Reaches(100, [e0], s1);
    assert Reaches(100, [e0, e1], s2);
  }

  /** One more step of a run. */
  lemma ReachesMore(maxCache: nat, events: seq<Event>, s: State, e: Event) returns (t: State)
    requires Reaches(maxCache, events, s) && Enabled(s, e)
    ensures t == Step(s, e) && Reaches(maxCache, events + [e], t)
  {
    hide Step;
    t := Step(s, e);
    assert (events + [e])[..|events|] == events;
  }

  /** A cache of one locked entry with these streams open and these files. */
  function Lone(id: Id, size: int, streams: nat, accessors: nat, open: map<nat, Stream>,
                disk: map<(Id, nat), nat>): State
  {
    State(100, size, accessors, map[id := Entry(LS_LOCKED, accessors, size, streams)], open, disk)
  }

  lemma LoneLocks(id: Id)
    ensures Reaches(100, [Event.Lock(id, [])], Lone(id, 0, 0, 0, map[], map[]))
  {
    assert Reaches(100, [], Start(100));
    var t := ReachesMore(100, [], Start(100), Event.Lock(id, []));
    assert t.entries == map[id := Entry(LS_LOCKED, 0, 0, 0)];
    assert [] + [Event.Lock(id, [])] == [Event.Lock(id, [])];
  }

  /** A run to such a state goes on. */
  lemma LoneWrites(events: seq<Event>, s: State, id: Id, size: nat, streams: nat, accessors: nat, index: nat,
                   handle: nat)
    requires s == Lone(id, size, streams, accessors, s.open, s.disk) && Reaches(100, events, s) && handle !in s.open
    ensures Reaches(100, events + [Event.Write(id, index, handle)],
                    Lone(id, size - Min(FileSize(s, id, index), size), Max(streams, index + 1), accessors + 1,
                         s.open[handle := Stream(id, index, true)], s.disk[(id, index) := 0]))
  {
    hide Reaches, FileSize, Min, Max;
    var t := ReachesMore(100, events, s, Event.Write(id, index, handle));
    assert t.entries == map[id := t.entries[id]];
  }

  lemma LoneAppends(events: seq<Event>, s: State, id: Id, index: nat, handle: nat, bytes: nat)
    requires Reaches(100, events, s)
    requires handle in s.open && s.open[handle] == Stream(id, index, true) && (id, index) in s.disk
    ensures Reaches(100, events + [Append(handle, bytes)],
                    s.(disk := s.disk[(id, index) := s.disk[(id, index)] + bytes]))
  {
    hide Reaches;
    var _ := ReachesMore(100, events, s, Append(handle, bytes));
  }

  lemma LoneReleases(events: seq<Event>, s: State, id: Id, size: nat, streams: nat, accessors: nat, index: nat,
                     handle: nat)
    requires s == Lone(id, size, streams, accessors + 1, s.open, s.disk) && Reaches(100, events, s)
    requires handle in s.open && s.open[handle] == Stream(id, index, true)
    ensures Reaches(100, events + [Release(handle, [])],
                    Lone(id, size + FileSize(s, id, index), streams, accessors, s.open - {handle}, s.disk))
  {
    hide Reaches, FileSize;
    var t := ReachesMore(100, events, s, Release(handle, []));
    assert t.entries == map[id := t.entries[id]];
  }

  /** One file of ten bytes is settled, and a second one of eight bytes is being written. */
  lemma OneWriter(id: Id) returns (events: seq<Event>)
    ensures Reaches(100, events, Lone(id, 10, 2, 1, map[2 := Stream(id, 1, true)], map[(id, 0) := 10, (id, 1) := 8]))
  {
    hide Reaches;
    var first, second := map[1 := Stream(id, 0, true)], map[2 := Stream(id, 1, true)];
    LoneLocks(id);
    LoneWrites([Event.Lock(id, [])], Lone(id, 0, 0, 0, map[], map[]), id, 0, 0, 0, 0, 1);
    events := [Event.Lock(id, [])] + [Event.Write(id, 0, 1)];
    LoneAppends(events, Lone(id, 0, 1, 1, first, map[(id, 0) := 0]), id, 0, 1, 10);
    events := events + [Append(1, 10)];
    assert map[(id, 0) := 0][(id, 0) := 10] == map[(id, 0) := 10];
    LoneReleases(events, Lone(id, 0, 1, 1, first, map[(id, 0) := 10]), id, 0, 1, 0, 0, 1);
    events := events + [Release(1, [])];
    assert first - {1} == map[];
    LoneWrites(events, Lone(id, 10, 1, 0, map[], map[(id, 0) := 10]), id, 10, 1, 0, 1, 2);
    events := events + [Event.Write(id, 1, 2)];
    LoneAppends(events, Lone(id, 10, 2, 1, second, map[(id, 0) := 10, (id, 1) := 0]), id, 1, 2, 8);
    events := events + [Append(2, 8)];
    assert map[(id, 0) := 10, (id, 1) := 0][(id, 1) := 8] == map[(id, 0) := 10, (id, 1) := 8];
  }

  /** A run to such a state: b is the one idle entry, and the cache is over its limit by less than its size. */
  lemma OverLimit(a: Id, b: Id) returns (events: seq<Event>, s: State)
    requires a != b
    ensures Reaches(100, events, s) && a in s.entries && b in s.entries
    ensures s.entries.Keys == {a, b} && s.entries[a].lockState == LS_LOCKED && Idle(s.entries[b])
    ensures s.maxCache < s.totalSize <= s.maxCache + s.entries[b].size
  {
    hide Reaches;
    var first, disk := map[1 := Stream(b, 0, true)], map[(b, 0) := 50];
    LoneLocks(b);
    LoneWrites([Event.Lock(b, [])], Lone(b, 0, 0, 0, map[], map[]), b, 0, 0, 0, 0, 1);
    events := [Event.Lock(b, [])] + [Event.Write(b, 0, 1)];
    LoneAppends(events, Lone(b, 0, 1, 1, first, map[(b, 0) := 0]), b, 0, 1, 50);
    events := events + [Append(1, 50)];
    assert map[(b, 0) := 0][(b, 0) := 50] == disk;
    LoneReleases(events, Lone(b, 0, 1, 1, first, disk), b, 0, 1, 0, 0, 1);
    events := events + [Release(1, [])];
    assert first - {1} == map[];
    s := Lone(b, 50, 1, 0, map[], disk);
    var u := ReachesMore(100, events, s, Unlock(b, []));
    events := events + [Unlock(b, [])];
    var eb := Entry(LS_UNLOCKED, 0, 50, 1);
    assert u == State(100, 50, 0, map[b := eb], map[], disk);
    events, s := SecondEntry(a, b, events, u);
  }

  lemma SecondEntry(a: Id, b: Id, before: seq<Event>, u: State) returns (events: seq<Event>, s: State)
    requires a != b && Reaches(100, before, u)
    requires u == State(100, 50, 0, map[b := Entry(LS_UNLOCKED, 0, 50, 1)], map[], map[(b, 0) := 50])
    ensures Reaches(100, events, s)
    ensures s == State(100, 120, 0, map[a := Entry(LS_LOCKED, 0, 70, 1), b := Entry(LS_UNLOCKED, 0, 50, 1)], map[],
                       map[(b, 0) := 50, (a, 0) := 70])
  {
    hide Reaches;
    var eb, st := Entry(LS_UNLOCKED, 0, 50, 1), Stream(a, 0, true);
    s := ReachesMore(100, before, u, Event.Lock(a, []));
    events := before + [Event.Lock(a, [])];
    assert s == State(100, 50, 0, map[a := Entry(LS_LOCKED, 0, 0, 0), b := eb], map[], map[(b, 0) := 50]);
    s := ReachesMore(100, events, s, Event.Write(a, 0, 2));
    events := events + [Event.Write(a, 0, 2)];
    assert s == State(100, 50, 1, map[a := Entry(LS_LOCKED, 1, 0, 1), b := eb], map[2 := st],
                      map[(b, 0) := 50, (a, 0) := 0]);
    s := ReachesMore(100, events, s, Append(2, 70));
    events := events + [Append(2, 70)];
    assert s == State(100, 50, 1, map[a := Entry(LS_LOCKED, 1, 0, 1), b := eb], map[2 := st],
                      map[(b, 0) := 50, (a, 0) := 70]);
    s := ReachesMore(100, events, s, Release(2, []));
    events := events + [Release(2, [])];
  }

  /**
   The assertion may hold where a second writer opens a file and fail later: here for another file,
   with no stream open and nothing ever deleted.
   */
  lemma SecondWriterShowsLater(id: Id) returns (before: seq<Event>, p: State, events: seq<Event>, s: State)
    ensures Reaches(100, before, p) && Reaches(100, events, s)
    ensures var e := Event.Write(id, 1, 3);
            && Enabled(p, e) && Writable(p, id) && BeingWritten(p.open, id, 1) && Covered(p, id, 1)
            && events == before + [e] + [Release(2, [])] + [Release(3, [])]
    ensures s.open == map[] && id in s.entries && Writable(s, id) && !Covered(s, id, 0)
  {
    hide Reaches;
    before := OneWriter(id);
    var st, disk := Stream(id, 1, true), map[(id, 0) := 10, (id, 1) := 0];
    p := Lone(id, 10, 2, 1, map[2 := st], map[(id, 0) := 10, (id, 1) := 8]);
    assert p.open[2] == st;
    LoneWrites(before, p, id, 10, 2, 1, 1, 3);
    assert p.disk[(id, 1) := 0] == disk && map[2 := st][3 := st] == map[2 := st, 3 := st];
    events := before + [Event.Write(id, 1, 3)];
    LoneReleases(events, Lone(id, 2, 2, 2, map[2 := st, 3 := st], disk), id, 2, 2, 1, 1, 2);
    assert map[2 := st, 3 := st] - {2} == map[3 := st] && map[3 := st] - {3} == map[];
    events := events + [Release(2, [])];
    LoneReleases(events, Lone(id, 2, 2, 1, map[3 := st], disk), id, 2, 2, 0, 1, 3);
    events := events + [Release(3, [])];
    s := Lone(id, 2, 2, 0, map[], disk);
  }

  /** Directly after a deletion and a new creation the assertion fails exactly for files left behind with bytes. */
  lemma LeftoversExactly(maxCache: nat, events: seq<Event>, s: State, id: Id, stuck: set<nat>, index: nat)
    requires ReachesDisciplined(maxCache, events, s) && id in s.entries && Idle(s.entries[id])
    ensures var t := Created(AfterDelete(s, id, stuck), id);
            Covered(t, id, index) <==> index !in stuck || FileSize(s, id, index) == 0
  {
    DisciplinedAccurate(maxCache, events, s);
    hide SettledBelow;
  }

  // ----- The cache -----

  class DiskCache {
    const maxCache: nat
    var totalSize: int
    var totalAccessors: int
    var entries: map<Id, Entry>

    // the adapters alive, and the files
    var open: map<nat, Stream>
    var disk: map<(Id, nat), nat>

    function Value(): State
      reads this
    {
      State(maxCache, totalSize, totalAccessors, entries, open, disk)
    }

    constructor (maxCache: nat)
      ensures Value() == Start(maxCache)
    {
      this.maxCache := maxCache;
      totalSize, totalAccessors, entries, open, disk := 0, 0, map[], map[], map[];
    }

    method GetOrCreateEntry(id: Id, create: bool) returns (found: bool)
      modifies this`entries
      ensures Value() == if create then Created(old(Value()), id) else old(Value())
      ensures found <==> id in entries
    {
      if id !in entries && create {
        entries := entries[id := Entry(LS_UNLOCKED, 0, 0, 0)];
      }
      found := id in entries;
    }

    /**
     Where CheckLimit has erased the entry itself, the source writes to storage it has given up;
     that write reaches no entry.
     */
    method LockResource(id: Id, victims: seq<Victim>) returns (ok: bool)
      modifies this
      ensures Value() == AfterLock(old(Value()), id, victims)
      ensures ok <==> old(Locks(Value(), id, victims))
      ensures ok && id in entries ==> entries[id].lockState == LS_LOCKED
      ensures ok ==> (id in entries <==> old(id !in Evicted(Created(Value(), id), victims)))
    {
      hide AfterCheckLimit, Fits;
      var _ := GetOrCreateEntry(id, true);
      ghost var created := Value();
      WithinLimit(created, victims);
      EvictedExactly(created, victims, id);
      if entries[id].lockState == LS_LOCKED {
        return false;
      }
      if entries[id].lockState == LS_UNLOCKED && entries[id].accessors > 0 {
        return false;
      }
      if totalSize > maxCache {
        var fits := CheckLimit(victims);
        if !fits {
          return false;
        }
      }
      if id in entries {
        entries := entries[id := entries[id].(lockState := LS_LOCKED)];
      }
      return true;
    }

    /** `opens` says whether the file can be created. */
    method WriteResource(id: Id, index: nat, handle: nat, opens: bool) returns (ok: bool)
      requires Enabled(Value(), Event.Write(id, index, handle))
      modifies this
      ensures ok <==> old(Writable(Value(), id)) && opens
      ensures Value() == if ok then AfterWrite(old(Value()), id, index, handle) else old(Value())
    {
      var entry := entries[id];
      if entry.lockState != LS_LOCKED {
        return false;
      }
      var previousSize := FileSize(Value(), id, index);
      if previousSize > entry.size {
        previousSize := entry.size;
      }
      if !opens {
        return false;
      }
      disk := disk[(id, index) := 0];
      entries := entries[id := entry.(streams := Max(entry.streams, index + 1),
                                      size := entry.size - previousSize,
                                      accessors := entry.accessors + 1)];
      totalSize := totalSize - previousSize;
      totalAccessors := totalAccessors + 1;
      open := open[handle := Stream(id, index, true)];
      return true;
    }

    method UnlockResource(id: Id, victims: seq<Victim>) returns (ok: bool)
      requires id in entries
      modifies this
      ensures Value() == AfterUnlock(old(Value()), id, victims)
      ensures ok <==> old(Writable(Value(), id))
    {
      var entry := entries[id];
      if entry.lockState != LS_LOCKED {
        return false;
      }
      if entry.accessors > 0 {
        entries := entries[id := entry.(lockState := LS_UNLOCKING)];
      } else {
        entries := entries[id := entry.(lockState := LS_UNLOCKED)];
        var _ := CheckLimit(victims);
      }
      return true;
    }

    /** `opens` says whether a file that is there can be opened. */
    method ReadResource(id: Id, index: nat, handle: nat, opens: bool) returns (ok: bool)
      requires Enabled(Value(), Event.Read(id, index, handle))
      modifies this
      ensures ok <==> old(Readable(Value(), id, index)) && opens
      ensures Value() == if ok then AfterRead(old(Value()), id, index, handle) else old(Value())
    {
      var entry := entries[id];
      if entry.lockState != LS_UNLOCKED {
        return false;
      }
      if index >= entry.streams {
        return false;
      }
      if (id, index) !in disk || !opens {
        return false;
      }
      entries := entries[id := entry.(accessors := entry.accessors + 1)];
      totalAccessors := totalAccessors + 1;
      open := open[handle := Stream(id, index, false)];
      return true;
    }

    /** `stuck` are the indexes whose files cannot be removed. */
    method DeleteResource(id: Id, stuck: set<nat>) returns (ok: bool)
      modifies this
      ensures Value() == AfterDelete(old(Value()), id, stuck)
      ensures ok <==> old(Deletes(Value(), id, stuck))
    {
      if id !in entries {
        return true;
      }
      var entry := entries[id];
      if entry.lockState != LS_UNLOCKED || entry.accessors > 0 {
        return false;
      }
      ghost var before := disk;
      var index := 0;
      ok := true;
      while index < entry.streams
        invariant index <= entry.streams
        invariant Value() == old(Value()).(disk := disk)
        invariant disk == Without(before, id, index, stuck)
        invariant ok <==> forall i: nat | i < index && i in stuck :: (id, i) !in before
      {
        if (id, index) in disk {
          if index in stuck {
            ok := false;
          } else {
            disk := disk - {(id, index)};
          }
        }
        index := index + 1;
      }
      totalSize := totalSize - entry.size;
      entries := entries - {id};
    }

    /** The victims are tried in turn; where they run out, every resource is locked. */
    method CheckLimit(victims: seq<Victim>) returns (ok: bool)
      modifies this
      ensures Value() == AfterCheckLimit(old(Value()), victims)
      ensures ok <==> old(Fits(Value(), victims))
    {
      var i := 0;
      while totalSize > maxCache
        invariant i <= |victims|
        invariant AfterCheckLimit(Value(), victims[i..]) == AfterCheckLimit(old(Value()), victims)
        invariant Fits(Value(), victims[i..]) <==> old(Fits(Value(), victims))
        decreases |victims| - i
      {
        hide AfterDelete, Deletes;
        if i == |victims| {
          return false;
        }
        assert victims[i..][0] == victims[i] && victims[i..][1..] == victims[i + 1..];
        var deleted := DeleteResource(victims[i].id, victims[i].stuck);
        if !deleted {
          return false;
        }
        i := i + 1;
      }
      return true;
    }

    /** Runs when an adapter is destroyed. */
    method ReleaseResource(handle: nat, victims: seq<Victim>)
      requires handle in open
      modifies this
      ensures Value() == AfterRelease(old(Value()), handle, victims)
    {
      var id, index := open[handle].id, open[handle].index;
      open := open - {handle};
      if id !in entries {
        return;
      }
      ghost var before, e := entries, entries[id];
      entries := entries[id := entries[id].(accessors := entries[id].accessors - 1)];
      totalAccessors := totalAccessors - 1;
      if entries[id].lockState != LS_UNLOCKED {
        var newSize := FileSize(Value(), id, index);
        entries := entries[id := entries[id].(size := entries[id].size + newSize)];
        totalSize := totalSize + newSize;
        if entries[id].lockState == LS_UNLOCKING && entries[id].accessors == 0 {
          entries := entries[id := entries[id].(lockState := LS_UNLOCKED)];
          assert entries == before[id := Entry(LS_UNLOCKED, e.accessors - 1, e.size + newSize, e.streams)];
          var _ := CheckLimit(victims);
        } else {
          assert entries == before[id := Entry(e.lockState, e.accessors - 1, e.size + newSize, e.streams)];
        }
      }
    }
  }
}

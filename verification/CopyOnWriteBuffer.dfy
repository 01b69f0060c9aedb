/**
 copyonwritebuffer.h: handles that share a reference-counted Buffer and copy it before they
 change it.  `handles` is the set of all handles alive; World says how they may share.
 */
module CopyOnWriteBuffer {
  import opened Common
  import opened Words
  import opened Buffer

  /** What is done to one handle; Assign and AppendFrom take a second one. */
  datatype Edit =
    | Assign
    | Write(index: nat, value: byte)
    | SetData(bytes: seq<byte>)
    | AppendData(bytes: seq<byte>)
    | AppendFrom
    | SetSize(size: nat)
    | EnsureCapacity(capacity: nat)
    | Clear

  /** How a handle stands: its size, the capacity of its buffer if it has one, and whether others share it. */
  datatype Standing = Standing(size: nat, room: Option<nat>, shared: bool)

  function AtLeast(have: nat, want: nat): nat {
    if have < want then want else have
  }

  /** The capacity after making a size of n: copying a shared buffer leaves no headroom. */
  function Resized(s: Standing, n: nat): nat {
    if s.room.None? then n else if s.shared then AtLeast(s.room.value, n) else Grown(s.room.value, n, true)
  }

  /** The capacity a handle has after an edit, with a second one that stands as b. */
  function RoomAfter(e: Edit, s: Standing, b: Standing): Option<nat> {
    match e
    case Assign => b.room
    case Write(_, _) => s.room
    case SetData(bytes) =>
      if s.room.Some? && !s.shared then Some(Grown(s.room.value, |bytes|, true))
      else if bytes == [] then None else Some(|bytes|)
    case AppendData(bytes) => Some(Resized(s, s.size + |bytes|))
    case AppendFrom => Some(Resized(s, s.size + b.size))
    case SetSize(n) => if s.room.None? && n == 0 then None else Some(Resized(s, n))
    case EnsureCapacity(n) =>
      if s.room.Some? then Some(AtLeast(s.room.value, n)) else if n == 0 then None else Some(n)
    case Clear => if s.shared then None else s.room
  }

  /** Appending a handle to itself moves its bytes to new storage before they are read. */
  predicate Overtaken(s: Standing) {
    s.room.Some? && !s.shared && s.room.value < 2 * s.size
  }

  lemma AppendIsAppend(s: Standing, b: Standing, bytes: seq<byte>)
    requires |bytes| == b.size
    ensures RoomAfter(Edit.AppendFrom, s, b) == RoomAfter(Edit.AppendData(bytes), s, s)
  {
  }

  /** Assigning shares, and reserving what is there changes nothing; every other edit ends with a buffer of its own. */
  predicate Parts(e: Edit, s: Standing) {
    !e.Assign? && (e.EnsureCapacity? ==> s.room.None? || s.room.value < e.capacity)
  }

  /**
   A buffer of its own keeps its capacity, and when it grows for its contents does so by half at
   least; a copy of a shared one is as large as needed and as the old one; without a buffer there is
   none for nothing, and the room asked for otherwise.
   */
  lemma RoomRules(e: Edit, s: Standing, b: Standing)
    requires !e.Assign? && (s.room.None? ==> s.size == 0 && !s.shared) && (s.room.Some? ==> s.size <= s.room.value)
    requires e.Write? ==> s.room.Some?
    ensures var need := match e
                        case Write(_, _) => s.size
                        case SetData(bytes) => |bytes|
                        case AppendData(bytes) => s.size + |bytes|
                        case AppendFrom => s.size + b.size
                        case SetSize(n) => n
                        case EnsureCapacity(n) => n
                        case _ => 0;
            var r := RoomAfter(e, s, b);
            if s.room.None? then
              if need == 0 && !e.AppendData? && !e.AppendFrom? then r == None else r == Some(need)
            else if s.shared && (e.Clear? || e.SetData?) then
              if need == 0 then r == None else r == Some(need)
            else if need <= s.room.value then r == s.room
            else if s.shared || e.EnsureCapacity? then r == Some(need)
            else r.Some? && need <= r.value && 2 * r.value + 1 >= 3 * s.room.value
                 && (r.value > need ==> 2 * r.value <= 3 * s.room.value)
  {
  }

  /** A handle appended to itself is overtaken exactly where a buffer of its own has to grow for it. */
  lemma OvertakenExactly(s: Standing)
    ensures Overtaken(s) <==> s.room.Some? && !s.shared && RoomAfter(Edit.AppendFrom, s, s) != s.room
  {
  }

  // ----- How handles may share -----

  /** The other handles still show what they showed. */
  twostate predicate Keeps(hs: set<CopyOnWriteBuffer>)
    reads hs, set h | h in hs :: h.buffer, set h | h in hs && h.buffer != null :: h.buffer.data
  {
    forall g | g in hs ::
      && g.buffer == old(g.buffer) && g.Contents() == old(g.Contents())
      && (g.buffer != null ==> g.buffer.data == old(g.buffer.data))
  }

  /** One handle and the buffer it refers to. */
  ghost predicate Ok(h: CopyOnWriteBuffer, handles: set<CopyOnWriteBuffer>)
    reads h, h.buffer, handles
  {
    h.buffer != null ==>
      && h.buffer.IsConsistent()
      && h in h.buffer.owners && h.buffer.refCount == |h.buffer.owners|
      && h.buffer.owners <= handles
      && (forall g | g in handles && g in h.buffer.owners :: g.buffer == h.buffer)
  }

  /** Reference counts are exact, and buffers do not overlap. */
  ghost predicate World(handles: set<CopyOnWriteBuffer>)
    reads handles, set h | h in handles :: h.buffer
  {
    && (forall h | h in handles :: Ok(h, handles))
    && (forall g, h | g in handles && h in handles && g.buffer != null && h.buffer != null && g.buffer != h.buffer ::
          g.buffer.data != h.buffer.data)
  }

  /** A buffer a handle may be pointed at: another handle's, or a new one. */
  ghost predicate Sharable(b: BufferT, handles: set<CopyOnWriteBuffer>)
    reads b, handles, set h | h in handles :: h.buffer
  {
    || (exists h | h in handles :: h.buffer == b)
    || (&& b.IsConsistent() && b.owners == {} && b.refCount == 0
        && (forall h | h in handles :: h.buffer != b && (h.buffer != null ==> h.buffer.data != b.data)))
  }

  lemma Joinable(h: CopyOnWriteBuffer, handles: set<CopyOnWriteBuffer>)
    requires h in handles && h.buffer != null
    ensures Sharable(h.buffer, handles)
  {
  }

  lemma NewIsSharable(b: BufferT, handles: set<CopyOnWriteBuffer>)
    requires b.IsConsistent() && b.owners == {} && b.refCount == 0
    requires forall h | h in handles :: h.buffer != b && (h.buffer != null ==> h.buffer.data != b.data)
    ensures Sharable(b, handles)
  {
  }

  /** A handle without a buffer may join. */
  lemma Joins(h: CopyOnWriteBuffer, handles: set<CopyOnWriteBuffer>)
    requires World(handles) && h !in handles && h.buffer == null
    ensures World(handles + {h})
  {
    forall g | g in handles ensures Ok(g, handles + {h}) {
      assert Ok(g, handles);
    }
  }

  lemma Leaves(h: CopyOnWriteBuffer, handles: set<CopyOnWriteBuffer>)
    requires World(handles) && h in handles && h.buffer == null
    ensures World(handles - {h})
  {
    forall g | g in handles - {h} ensures Ok(g, handles - {h}) {
      assert Ok(g, handles);
    }
  }

  lemma OnlyOwner(h: object, owners: set<object>)
    requires h in owners && |owners| == 1
    ensures owners == {h}
  {
    assert |owners - {h}| == 0;
  }

  /** A buffer with one owner is reached through no other handle. */
  lemma Alone(h: CopyOnWriteBuffer, handles: set<CopyOnWriteBuffer>)
    requires World(handles) && h in handles && h.buffer != null && h.buffer.owners == {h}
    ensures forall g | g in handles && g != h && g.buffer != null ::
              g.buffer != h.buffer && g.buffer.data != h.buffer.data
  {
    forall g | g in handles && g != h && g.buffer != null ensures g.buffer != h.buffer {
      assert Ok(g, handles);
    }
  }

  // ----- The handle -----

  class CopyOnWriteBuffer {
    var buffer: BufferT?

    /** The bytes this handle shows. */
    ghost function Contents(): seq<byte>
      reads this, buffer, if buffer == null then {} else {buffer.data}
    {
      if buffer == null then [] else buffer.Contents()
    }

    /** What a change through this handle may touch. */
    ghost function Frame(): set<object>
      reads this, buffer
    {
      if buffer == null then {this}
      else
        var b: BufferT := buffer;
        {this, b, b.data}
    }

    predicate HasOneRef()
      requires buffer != null
      reads this, buffer
    {
      buffer.refCount == 1
    }

    ghost function Stands(): Standing
      reads this, buffer
    {
      if buffer == null then Standing(0, None, false)
      else Standing(buffer.size, Some(buffer.data.Length), !HasOneRef())
    }

    /** How this handle stands after an edit. */
    twostate predicate Now(e: Edit, b: Standing)
      reads this, buffer
    {
      && Stands().room == RoomAfter(e, old(Stands()), b)
      && (if Parts(e, old(Stands())) then !Stands().shared else e.Assign? || buffer == old(buffer))
    }

    /** The class's own check: a buffer it refers to has room for something. */
    predicate IsConsistent()
      reads this, buffer
    {
      buffer == null || buffer.data.Length > 0
    }

    constructor (ghost handles: set<CopyOnWriteBuffer>)
      requires World(handles)
      ensures World(handles + {this}) && buffer == null && IsConsistent()
    {
      buffer := null;
      new;
      Joins(this, handles);
    }

    constructor Copy(buf: CopyOnWriteBuffer, ghost handles: set<CopyOnWriteBuffer>)
      requires World(handles) && buf in handles
      modifies buf.buffer
      ensures World(handles + {this}) && buffer == buf.buffer
      ensures Keeps(handles)
    {
      buffer := null;
      new;
      hide World, Ok, Sharable;
      Joins(this, handles);
      if buf.buffer != null {
        Joinable(buf, handles + {this});
        Attach(buf.buffer, handles + {this});
      }
    }

    /** The destructor: the handle leaves the world. */
    method Destroy(ghost handles: set<CopyOnWriteBuffer>)
      requires World(handles) && this in handles
      modifies this, buffer
      ensures World(handles - {this}) && Keeps(handles - {this})
    {
      if buffer != null {
        Release(handles);
      }
      Leaves(this, handles);
    }

    /** Gives up the reference held. */
    method Release(ghost handles: set<CopyOnWriteBuffer>)
      requires World(handles) && this in handles && buffer != null
      modifies this, buffer`refCount, buffer`owners
      ensures World(handles) && buffer == null
      ensures old(buffer).owners == old(buffer.owners) - {this}
    {
      buffer.refCount, buffer.owners := buffer.refCount - 1, buffer.owners - {this};
      buffer := null;
    }

    /** Takes a reference. */
    method Attach(b: BufferT, ghost handles: set<CopyOnWriteBuffer>)
      requires World(handles) && this in handles && buffer == null && Sharable(b, handles)
      modifies this, b`refCount, b`owners
      ensures World(handles) && buffer == b && b.owners == old(b.owners) + {this} && b.refCount == old(b.refCount) + 1
    {
      b.refCount, b.owners := b.refCount + 1, b.owners + {this};
      buffer := b;
    }

    /** Copy assignment, and SetData from another handle: the handles now share. */
    method Assign(buf: CopyOnWriteBuffer, ghost handles: set<CopyOnWriteBuffer>)
      requires World(handles) && this in handles && buf in handles
      modifies Frame(), buf.Frame()
      ensures Now(Edit.Assign, old(buf.Stands()))
      ensures World(handles) && buffer == buf.buffer == old(buf.buffer) && IsConsistent() == old(buf.IsConsistent())
      ensures Keeps(handles - {this}) && Contents() == old(buf.Contents())
      ensures Frame() <= old(Frame() + buf.Frame())
    {
      hide World, Ok, Sharable;
      if buf != this && buffer != buf.buffer {
        if buffer != null {
          Release(handles);
        }
        if buf.buffer != null {
          Joinable(buf, handles);
          Attach(buf.buffer, handles);
        }
      }
    }

    /** Afterwards no other handle shares the buffer, and the bytes are the same. */
    method CloneDataIfReferenced(newCapacity: nat, ghost handles: set<CopyOnWriteBuffer>)
      requires World(handles) && this in handles && buffer != null
      modifies this, buffer`refCount, buffer`owners
      ensures World(handles) && buffer != null && buffer.owners == {this} && HasOneRef()
      ensures Contents() == old(Contents()) && buffer.size == old(buffer.size)
      ensures old(buffer).data == old(buffer.data)
      ensures if old(HasOneRef()) then buffer == old(buffer)
              else fresh(buffer) && fresh(buffer.data)
                   && buffer.data.Length == if buffer.size < newCapacity then newCapacity else buffer.size
      ensures Keeps(handles - {this})
    {
      assert Ok(this, handles);
      hide Sharable, World, Ok;
      if HasOneRef() {
        OnlyOwner(this, buffer.owners);
        return;
      }
      var b := new BufferT.Copied(buffer.data[..buffer.size], newCapacity);
      Release(handles);
      NewIsSharable(b, handles);
      Attach(b, handles);
    }

    /** Takes over a new buffer. */
    method Adopt(b: BufferT, ghost handles: set<CopyOnWriteBuffer>)
      requires World(handles) && this in handles
      requires b.IsConsistent() && b.owners == {} && b.refCount == 0
      requires b.Contents() == b.data[..b.size]
      requires forall h | h in handles :: h.buffer != b && (h.buffer != null ==> h.buffer.data != b.data)
      modifies this, buffer, b`refCount, b`owners
      ensures World(handles) && buffer == b && HasOneRef() && Contents() == old(b.Contents())
      ensures b.data == old(b.data) && b.size == old(b.size)
      ensures Keeps(handles - {this})
    {
      hide World, Ok, Sharable;
      if buffer != null {
        Release(handles);
      }
      NewIsSharable(b, handles);
      Attach(b, handles);
    }

    /** Indexed write. */
    method Write(index: nat, value: byte, ghost handles: set<CopyOnWriteBuffer>)
      requires World(handles) && this in handles && index < |Contents()|
      modifies Frame()
      ensures Now(Edit.Write(index, value), Stands())
      ensures World(handles) && Contents() == old(Contents())[index := value]
      ensures old(IsConsistent()) ==> IsConsistent()
      ensures Keeps(handles - {this}) && fresh(Frame() - old(Frame()))
    {
      assert Ok(this, handles);
      CloneDataIfReferenced(buffer.data.Length, handles);
      Alone(this, handles);
      buffer.Put(index, value);
    }

    method SetUnshared(bytes: seq<byte>, ghost handles: set<CopyOnWriteBuffer>)
      requires World(handles) && this in handles && buffer != null && buffer.owners == {this}
      modifies buffer, buffer.data
      ensures HasOneRef() && buffer.data.Length == Grown(old(buffer.data.Length), |bytes|, true)
      ensures World(handles) && Contents() == bytes && old(buffer.data.Length) <= buffer.data.Length
      ensures Keeps(handles - {this}) && (buffer.data == old(buffer.data) || fresh(buffer.data))
    {
      assert Ok(this, handles);
      Alone(this, handles);
      buffer.SetData(bytes);
    }

    method SetData(bytes: seq<byte>, ghost handles: set<CopyOnWriteBuffer>)
      requires World(handles) && this in handles
      modifies Frame()
      ensures Now(Edit.SetData(bytes), Stands())
      ensures World(handles) && Contents() == bytes
      ensures old(IsConsistent()) ==> IsConsistent()
      ensures Keeps(handles - {this}) && fresh(Frame() - old(Frame()))
    {
      assert Ok(this, handles);
      hide World, Ok, Sharable;
      if buffer == null || !HasOneRef() {
        if |bytes| > 0 {
          var b := new BufferT.Copied(bytes, |bytes|);
          Adopt(b, handles);
        } else if buffer != null {
          Release(handles);
        }
      } else {
        OnlyOwner(this, buffer.owners);
        SetUnshared(bytes, handles);
      }
    }

    method AppendUnshared(bytes: seq<byte>, ghost handles: set<CopyOnWriteBuffer>)
      requires World(handles) && this in handles && buffer != null && buffer.owners == {this}
      modifies buffer, buffer.data
      ensures HasOneRef() && buffer.data.Length == Grown(old(buffer.data.Length), old(buffer.size) + |bytes|, true)
      ensures World(handles) && Contents() == old(Contents()) + bytes && old(buffer.data.Length) <= buffer.data.Length
      ensures Keeps(handles - {this}) && (buffer.data == old(buffer.data) || fresh(buffer.data))
    {
      assert Ok(this, handles);
      Alone(this, handles);
      buffer.AppendData(bytes);
    }

    /** Appending nothing to a handle without a buffer gives it one without room; nothing else breaks the check. */
    method AppendData(bytes: seq<byte>, ghost handles: set<CopyOnWriteBuffer>)
      requires World(handles) && this in handles
      modifies Frame()
      ensures Now(Edit.AppendData(bytes), Stands())
      ensures World(handles) && Contents() == old(Contents()) + bytes
      ensures old(IsConsistent()) ==> (IsConsistent() <==> old(buffer) != null || bytes != [])
      ensures Keeps(handles - {this}) && fresh(Frame() - old(Frame()))
    {
      assert Ok(this, handles);
      hide World, Ok, Sharable;
      if buffer == null {
        var b := new BufferT.Copied(bytes, |bytes|);
        Adopt(b, handles);
        return;
      }
      var want := buffer.size + |bytes|;
      CloneDataIfReferenced(if buffer.data.Length < want then want else buffer.data.Length, handles);
      AppendUnshared(bytes, handles);
    }

    /** Appends what another handle shows; storage that has been given up holds arbitrary bytes. */
    method AppendFrom(buf: CopyOnWriteBuffer, ghost handles: set<CopyOnWriteBuffer>)
      requires World(handles) && this in handles && buf in handles
      modifies Frame()
      ensures Now(Edit.AppendFrom, old(buf.Stands()))
      ensures World(handles) && |Contents()| == |old(Contents())| + |old(buf.Contents())|
      ensures Contents()[..|old(Contents())|] == old(Contents())
      ensures buf != this || !old(Overtaken(Stands())) ==> Contents() == old(Contents()) + old(buf.Contents())
      ensures old(IsConsistent()) ==> (IsConsistent() <==> old(buffer) != null || old(buf.Contents()) != [])
      ensures Keeps(handles - {this}) && fresh(Frame() - old(Frame()))
    {
      assert Ok(buf, handles);
      hide World, Ok, Keeps, RoomAfter;
      var bytes := if buf.buffer == null then [] else buf.buffer.data[..buf.buffer.size];
      if buf == this && buffer != null && HasOneRef() && buffer.data.Length < 2 * buffer.size {
        var given := new byte[buffer.size];
        bytes := given[..];
      }
      AppendIsAppend(Stands(), buf.Stands(), bytes);
      AppendData(bytes, handles);
    }

    method ResizeUnshared(size: nat, ghost handles: set<CopyOnWriteBuffer>)
      requires World(handles) && this in handles && buffer != null && buffer.owners == {this}
      modifies buffer, buffer.data
      ensures HasOneRef() && buffer.data.Length == Grown(old(buffer.data.Length), size, true)
      ensures World(handles) && |Contents()| == size && old(buffer.data.Length) <= buffer.data.Length
      ensures if size <= |old(Contents())| then Contents() == old(Contents())[..size]
              else Contents()[..|old(Contents())|] == old(Contents())
      ensures Keeps(handles - {this}) && (buffer.data == old(buffer.data) || fresh(buffer.data))
    {
      assert Ok(this, handles);
      Alone(this, handles);
      buffer.SetSize(size);
    }

    /** Truncates, or adds bytes of any value. */
    method SetSize(size: nat, ghost handles: set<CopyOnWriteBuffer>)
      requires World(handles) && this in handles
      modifies Frame()
      ensures Now(Edit.SetSize(size), Stands())
      ensures World(handles) && |Contents()| == size
      ensures if size <= |old(Contents())| then Contents() == old(Contents())[..size]
              else Contents()[..|old(Contents())|] == old(Contents())
      ensures old(IsConsistent()) ==> IsConsistent()
      ensures Keeps(handles - {this}) && fresh(Frame() - old(Frame()))
    {
      assert Ok(this, handles);
      hide World, Ok, Sharable;
      if buffer == null {
        if size > 0 {
          var b := new BufferT(size, size);
          Adopt(b, handles);
        }
        return;
      }
      CloneDataIfReferenced(if buffer.data.Length < size then size else buffer.data.Length, handles);
      ResizeUnshared(size, handles);
    }

    method ReserveUnshared(capacity: nat, ghost handles: set<CopyOnWriteBuffer>)
      requires World(handles) && this in handles && buffer != null && buffer.owners == {this}
      modifies buffer, buffer.data
      ensures HasOneRef() && buffer.data.Length == Grown(old(buffer.data.Length), capacity, false)
      ensures World(handles) && Contents() == old(Contents())
      ensures buffer.data.Length >= capacity && old(buffer.data.Length) <= buffer.data.Length
      ensures Keeps(handles - {this}) && (buffer.data == old(buffer.data) || fresh(buffer.data))
    {
      assert Ok(this, handles);
      Alone(this, handles);
      buffer.EnsureCapacity(capacity);
    }

    method EnsureCapacity(capacity: nat, ghost handles: set<CopyOnWriteBuffer>)
      requires World(handles) && this in handles
      modifies Frame()
      ensures Now(Edit.EnsureCapacity(capacity), Stands())
      ensures World(handles) && Contents() == old(Contents())
      ensures capacity > 0 ==> buffer != null && buffer.data.Length >= capacity
      ensures old(IsConsistent()) ==> IsConsistent()
      ensures Keeps(handles - {this}) && fresh(Frame() - old(Frame()))
    {
      assert Ok(this, handles);
      hide World, Ok, Sharable;
      if buffer == null {
        if capacity > 0 {
          var b := new BufferT(0, capacity);
          Adopt(b, handles);
        }
        return;
      } else if capacity <= buffer.data.Length {
        return;
      }
      CloneDataIfReferenced(capacity, handles);
      ReserveUnshared(capacity, handles);
    }

    method ClearUnshared(ghost handles: set<CopyOnWriteBuffer>)
      requires World(handles) && this in handles && buffer != null && buffer.owners == {this}
      modifies buffer
      ensures World(handles) && Contents() == [] && HasOneRef() && buffer.data == old(buffer.data)
      ensures Keeps(handles - {this})
    {
      assert Ok(this, handles);
      Alone(this, handles);
      buffer.Clear();
    }

    method Clear(ghost handles: set<CopyOnWriteBuffer>)
      requires World(handles) && this in handles
      modifies Frame()
      ensures Now(Edit.Clear, Stands())
      ensures World(handles) && Contents() == []
      ensures old(IsConsistent()) ==> IsConsistent()
      ensures Keeps(handles - {this}) && fresh(Frame() - old(Frame()))
    {
      assert Ok(this, handles);
      hide World, Ok, Sharable;
      if buffer == null || !HasOneRef() {
        if buffer != null {
          Release(handles);
        }
      } else {
        OnlyOwner(this, buffer.owners);
        ClearUnshared(handles);
      }
    }

    /** operator==: equal bytes, except that no buffer differs from an empty one. */
    method Equal(buf: CopyOnWriteBuffer, ghost handles: set<CopyOnWriteBuffer>) returns (r: bool)
      requires World(handles) && this in handles && buf in handles
      ensures r <==> Contents() == buf.Contents() && (buffer == null <==> buf.buffer == null)
    {
      assert Ok(this, handles) && Ok(buf, handles);
      r := buffer == buf.buffer
           || (buffer != null && buf.buffer != null
               && buffer.data[..buffer.size] == buf.buffer.data[..buf.buffer.size]);
    }
  }

  // ----- Runs -----

  datatype Op = New | Copy(i: nat) | On(i: nat, edit: Edit, j: nat)

  /** The class only forbids an index out of range. */
  predicate LegalEdit(e: Edit, a: seq<byte>) {
    e.Write? ==> e.index < |a|
  }

  /** The edit on an independent byte sequence a, which becomes c; appended bytes that are lost are arbitrary. */
  ghost predicate Edited(e: Edit, a: seq<byte>, b: seq<byte>, c: seq<byte>, lost: bool)
    requires LegalEdit(e, a)
  {
    match e
    case Assign => c == b
    case Write(index, value) => c == a[index := value]
    case SetData(bytes) => c == bytes
    case AppendData(bytes) => c == a + bytes
    case AppendFrom => if lost then |c| == |a| + |b| && c[..|a|] == a else c == a + b
    case SetSize(size) => |c| == size && (if size <= |a| then c == a[..size] else c[..|a|] == a)
    case EnsureCapacity(_) => c == a
    case Clear => c == []
  }

  method Apply(e: Edit, h: CopyOnWriteBuffer, buf: CopyOnWriteBuffer, ghost handles: set<CopyOnWriteBuffer>)
    requires World(handles) && h in handles && buf in handles
    requires LegalEdit(e, h.Contents())
    modifies h.Frame(), buf.Frame()
    ensures World(handles) && Keeps(handles - {h})
    ensures Edited(e, old(h.Contents()), old(buf.Contents()), h.Contents(), h == buf && old(Overtaken(h.Stands())))
    ensures h.Now(e, old(buf.Stands())) && (e.Assign? ==> h.buffer == old(buf.buffer))
    ensures fresh(h.Frame() - old(h.Frame() + buf.Frame()))
  {
    hide World, Ok, Sharable, Keeps;
    match e
    case Assign => h.Assign(buf, handles);
    case Write(index, value) => h.Write(index, value, handles);
    case SetData(bytes) => h.SetData(bytes, handles);
    case AppendData(bytes) => h.AppendData(bytes, handles);
    case AppendFrom => h.AppendFrom(buf, handles);
    case SetSize(size) => h.SetSize(size, handles);
    case EnsureCapacity(capacity) => h.EnsureCapacity(capacity, handles);
    case Clear => h.Clear(handles);
  }

  /** What is seen of a handle at one moment. */
  datatype Shown = Shown(bytes: seq<byte>, buffer: BufferT?, room: Option<nat>)

  ghost function Seen(h: CopyOnWriteBuffer): Shown
    reads h, h.buffer, if h.buffer == null then {} else {h.buffer.data}
  {
    Shown(h.Contents(), h.buffer, h.Stands().room)
  }

  ghost predicate IsShared(v: seq<Shown>, i: nat)
    requires i < |v|
  {
    v[i].buffer != null && exists k :: 0 <= k < |v| && k != i && v[k].buffer == v[i].buffer
  }

  ghost function At(v: seq<Shown>, i: nat): Standing
    requires i < |v|
  {
    Standing(|v[i].bytes|, v[i].room, IsShared(v, i))
  }

  predicate Legal(op: Op, v: seq<Shown>) {
    match op
    case New => true
    case Copy(i) => i < |v|
    case On(i, e, j) => i < |v| && j < |v| && LegalEdit(e, v[i].bytes)
  }

  /** Which buffer an edited handle has, and what room in it. */
  ghost predicate Moved(i: nat, e: Edit, j: nat, v: seq<Shown>, w: seq<Shown>)
    requires i < |v| && j < |v| && |w| == |v|
  {
    && w[i].room == RoomAfter(e, At(v, i), At(v, j)) && (w[i].buffer == null <==> w[i].room.None?)
    && (if Parts(e, At(v, i)) then !IsShared(w, i)
        else w[i].buffer == if e.Assign? then v[j].buffer else v[i].buffer)
  }

  /** One operation: on bytes, it is that operation on an independent sequence. */
  ghost predicate ValueStep(op: Op, v: seq<Shown>, w: seq<Shown>)
    requires Legal(op, v)
  {
    match op
    case New => w == v + [Shown([], null, None)]
    case Copy(i) => w == v + [v[i]]
    case On(i, e, j) =>
      && |w| == |v| && w == v[i := w[i]]
      && Edited(e, v[i].bytes, v[j].bytes, w[i].bytes, i == j && Overtaken(At(v, i)))
      && Moved(i, e, j, v, w)
  }

  /** Who shares after an edit: only an assigned handle, and one that had all the room it asked for if it did before. */
  lemma SharesExactly(i: nat, e: Edit, j: nat, v: seq<Shown>, w: seq<Shown>)
    requires Legal(On(i, e, j), v) && ValueStep(On(i, e, j), v, w)
    ensures e.Assign? ==> w[i].buffer == v[j].buffer
    ensures !e.Assign? && !e.EnsureCapacity? ==> !IsShared(w, i)
    ensures e.EnsureCapacity? ==>
              if v[i].room.Some? && e.capacity <= v[i].room.value then w[i].buffer == v[i].buffer else !IsShared(w, i)
    ensures forall k | 0 <= k < |v| && k != i :: w[k] == v[k]
  {
  }

  ghost function Handles(hs: seq<CopyOnWriteBuffer>): set<CopyOnWriteBuffer> {
    set h | h in hs
  }

  ghost predicate Shows(hs: seq<CopyOnWriteBuffer>, v: seq<Shown>)
    reads hs, set h | h in hs :: h.buffer, set h | h in hs && h.buffer != null :: h.buffer.data
  {
    && |hs| == |v|
    && (forall i, j | 0 <= i < j < |hs| :: hs[i] != hs[j])
    && (forall i | 0 <= i < |hs| :: Seen(hs[i]) == v[i])
  }

  /** All that changes through the handles may touch lies in `region`. */
  ghost predicate Within(hs: seq<CopyOnWriteBuffer>, region: set<object>)
    reads hs, set h | h in hs :: h.buffer
  {
    forall h | h in hs :: h.Frame() <= region
  }

  /** A reference count above one means that another handle refers to the buffer. */
  lemma StandsAt(hs: seq<CopyOnWriteBuffer>, v: seq<Shown>, i: nat)
    requires World(Handles(hs)) && Shows(hs, v) && i < |hs|
    ensures hs[i].Stands() == At(v, i)
  {
    var h, all := hs[i], Handles(hs);
    assert Ok(h, all) && Seen(h) == v[i];
    if h.buffer != null {
      if h.HasOneRef() { OnlyOwner(h, h.buffer.owners); }
      forall k | 0 <= k < |hs| && k != i && v[k].buffer == v[i].buffer ensures !h.HasOneRef() {
        assert Seen(hs[k]) == v[k] && Ok(hs[k], all);
        assert hs[k] in h.buffer.owners;
      }
      if !h.HasOneRef() {
        var g := Another(h, h.buffer.owners);
        var k :| 0 <= k < |hs| && hs[k] == g;
        assert Seen(hs[k]) == v[k];
      }
    }
  }

  lemma Another(h: object, owners: set<object>) returns (g: object)
    requires h in owners && |owners| != 1
    ensures g in owners && g != h
  {
    assert |owners - {h}| == |owners| - 1;
    g :| g in owners - {h};
  }

  method Change(i: nat, e: Edit, j: nat, hs: seq<CopyOnWriteBuffer>, ghost v: seq<Shown>, ghost region: set<object>)
    returns (ghost w: seq<Shown>, ghost region': set<object>)
    requires World(Handles(hs)) && Shows(hs, v) && Legal(On(i, e, j), v) && Within(hs, region)
    modifies region
    ensures World(Handles(hs)) && Shows(hs, w) && ValueStep(On(i, e, j), v, w)
    ensures region <= region' && fresh(region' - region) && Within(hs, region')
  {
    StandsAt(hs, v, i);
    StandsAt(hs, v, j);
    hide World, Ok, Sharable, Edited, Overtaken, RoomAfter, Parts, IsShared;
    var h, buf := hs[i], hs[j];
    ghost var all := Handles(hs);
    assert Seen(h) == v[i] && Seen(buf) == v[j];
    assert h.Frame() <= region && buf.Frame() <= region;
    Apply(e, h, buf, all);
    w := v[i := Seen(h)];
    region' := region + h.Frame();
    forall k | 0 <= k < |hs| && k != i
      ensures Seen(hs[k]) == v[k] && hs[k].Frame() == old(hs[k].Frame())
    {
      assert hs[k] in all - {h};
    }
    StandsAt(hs, w, i);
  }

  method Add(hs: seq<CopyOnWriteBuffer>, ghost v: seq<Shown>, ghost region: set<object>)
    returns (hs': seq<CopyOnWriteBuffer>, ghost w: seq<Shown>, ghost region': set<object>)
    requires World(Handles(hs)) && Shows(hs, v) && Within(hs, region)
    ensures World(Handles(hs')) && Shows(hs', w) && w == v + [Shown([], null, None)]
    ensures region <= region' && fresh(region' - region) && Within(hs', region')
  {
    hide World, Ok, Sharable;
    var h := new CopyOnWriteBuffer(Handles(hs));
    hs', w, region' := hs + [h], v + [Seen(h)], region + {h};
    assert Handles(hs') == Handles(hs) + {h};
  }

  method AddCopy(i: nat, hs: seq<CopyOnWriteBuffer>, ghost v: seq<Shown>, ghost region: set<object>)
    returns (hs': seq<CopyOnWriteBuffer>, ghost w: seq<Shown>, ghost region': set<object>)
    requires World(Handles(hs)) && Shows(hs, v) && i < |hs| && Within(hs, region)
    modifies region
    ensures World(Handles(hs')) && Shows(hs', w) && w == v + [v[i]]
    ensures region <= region' && fresh(region' - region) && Within(hs', region')
  {
    hide World, Ok, Sharable;
    assert hs[i].Frame() <= region && hs[i] in Handles(hs) && Seen(hs[i]) == v[i];
    var h := new CopyOnWriteBuffer.Copy(hs[i], Handles(hs));
    hs', w, region' := hs + [h], v + [v[i]], region + {h};
    assert Handles(hs') == Handles(hs) + {h};
  }

  method Perform(op: Op, hs: seq<CopyOnWriteBuffer>, ghost v: seq<Shown>, ghost region: set<object>)
    returns (hs': seq<CopyOnWriteBuffer>, ghost w: seq<Shown>, ghost region': set<object>)
    requires World(Handles(hs)) && Shows(hs, v) && Legal(op, v) && Within(hs, region)
    modifies region
    ensures World(Handles(hs')) && Shows(hs', w) && ValueStep(op, v, w)
    ensures region <= region' && fresh(region' - region) && Within(hs', region')
  {
    assert |hs| == |v|;
    hide World, Ok, Sharable, Shows, Within, Edited, Moved;
    if op.New? {
      hs', w, region' := Add(hs, v, region);
    } else if op.Copy? {
      hs', w, region' := AddCopy(op.i, hs, v, region);
    } else {
      hs' := hs;
      w, region' := Change(op.i, op.edit, op.j, hs, v, region);
    }
  }

  method IsLegal(op: Op, hs: seq<CopyOnWriteBuffer>, ghost v: seq<Shown>) returns (r: bool)
    requires World(Handles(hs)) && Shows(hs, v)
    ensures r == Legal(op, v)
  {
    match op
    case New => r := true;
    case Copy(i) => r := i < |hs|;
    case On(i, e, j) =>
      if i >= |hs| || j >= |hs| {
        return false;
      }
      var a := hs[i];
      assert Ok(a, Handles(hs));
      match e
      case Write(index, _) => r := a.buffer != null && index < a.buffer.size;
      case _ => r := true;
  }

  /** A run on independent byte sequences; indexes out of range are left out. */
  ghost predicate ValueRun(ops: seq<Op>, trace: seq<seq<Shown>>) {
    && |trace| == |ops| + 1 && trace[0] == []
    && (forall k | 0 <= k < |ops| ::
          if Legal(ops[k], trace[k]) then ValueStep(ops[k], trace[k], trace[k + 1]) else trace[k + 1] == trace[k])
  }

  lemma EmptyRun()
    ensures ValueRun([], [[]])
  {
  }

  lemma RunMore(ops: seq<Op>, n: nat, trace: seq<seq<Shown>>, w: seq<Shown>)
    requires n < |ops| && ValueRun(ops[..n], trace)
    requires if Legal(ops[n], trace[n]) then ValueStep(ops[n], trace[n], w) else w == trace[n]
    ensures ValueRun(ops[..n + 1], trace + [w])
  {
    hide Legal, ValueStep;
  }

  /** The class's own check, for every handle. */
  ghost predicate AllConsistent(v: seq<Shown>) {
    forall i | 0 <= i < |v| :: v[i].room != Some(0)
  }

  /** Nothing is appended to a handle without a buffer. */
  predicate AppendsNothing(op: Op, v: seq<Shown>) {
    && op.On? && Legal(op, v) && v[op.i].buffer == null
    && ((op.edit.AppendData? && op.edit.bytes == []) || (op.edit.AppendFrom? && v[op.j].bytes == []))
  }

  /** What holds of handles at every moment. */
  ghost predicate Possible(v: seq<Shown>) {
    forall i | 0 <= i < |v| ::
      && (v[i].buffer == null <==> v[i].room.None?)
      && |v[i].bytes| <= if v[i].room.None? then 0 else v[i].room.value
  }

  lemma RoomFits(e: Edit, a: seq<byte>, s: Standing, b: seq<byte>, u: Standing, c: seq<byte>, lost: bool)
    requires LegalEdit(e, a) && Edited(e, a, b, c, lost)
    requires s.size == |a| <= (if s.room.None? then 0 else s.room.value)
    requires u.size == |b| <= (if u.room.None? then 0 else u.room.value)
    ensures var r := RoomAfter(e, s, u); |c| <= if r.None? then 0 else r.value
    ensures s.room != Some(0) && u.room != Some(0) ==>
              (RoomAfter(e, s, u) == Some(0) <==>
               s.room.None? && ((e.AppendData? && e.bytes == []) || (e.AppendFrom? && b == [])))
  {
  }

  lemma StepChecks(op: Op, v: seq<Shown>, w: seq<Shown>)
    requires Possible(v) && if Legal(op, v) then ValueStep(op, v, w) else w == v
    ensures Possible(w)
    ensures AllConsistent(v) ==> (AllConsistent(w) <==> !AppendsNothing(op, v))
  {
    if Legal(op, v) && op.On? {
      hide Edited, RoomAfter, Overtaken, IsShared, Parts;
      var i, j := op.i, op.j;
      RoomFits(op.edit, v[i].bytes, At(v, i), v[j].bytes, At(v, j), w[i].bytes, i == j && Overtaken(At(v, i)));
      assert forall k | 0 <= k < |v| && k != i :: w[k] == v[k];
    }
  }

  /**
   Every handle passes the class's own check all along a run exactly when nothing is ever appended
   empty to a handle without a buffer.
   */
  lemma CheckHoldsExactly(ops: seq<Op>, trace: seq<seq<Shown>>)
    requires ValueRun(ops, trace)
    ensures (forall k | 0 <= k <= |ops| :: AllConsistent(trace[k])) <==>
            (forall k | 0 <= k < |ops| :: !AppendsNothing(ops[k], trace[k]))
  {
    hide Legal, AppendsNothing, ValueStep, Possible, AllConsistent;
    assert Possible([]) && AllConsistent([]) by { ChecksNone(); }
    var k := 0;
    while k < |ops|
      invariant k <= |ops| && Possible(trace[k])
      invariant (forall i | 0 <= i <= k :: AllConsistent(trace[i])) <==>
                (forall i | 0 <= i < k :: !AppendsNothing(ops[i], trace[i]))
    {
      StepChecks(ops[k], trace[k], trace[k + 1]);
      k := k + 1;
    }
  }

  lemma ChecksNone()
    ensures Possible([]) && AllConsistent([])
  {
  }

  /** Any run: the handles show at the end what independent byte sequences would hold. */
  method Replay(ops: seq<Op>) returns (hs: seq<CopyOnWriteBuffer>, ghost trace: seq<seq<Shown>>)
    ensures ValueRun(ops, trace)
    ensures World(Handles(hs)) && Shows(hs, trace[|ops|])
  {
    hs, trace := [], [[]];
    ghost var region: set<object> := {};
    assert World(Handles(hs));
    hide World, ValueStep, Legal, ValueRun;
    EmptyRun();
    var n := 0;
    while n < |ops|
      invariant n <= |ops| && |trace| == n + 1 && ValueRun(ops[..n], trace)
      invariant World(Handles(hs)) && Shows(hs, trace[n]) && Within(hs, region) && fresh(region)
    {
      ghost var w := trace[n];
      var legal := IsLegal(ops[n], hs, trace[n]);
      if legal {
        hs, w, region := Perform(ops[n], hs, trace[n], region);
      }
      RunMore(ops, n, trace, w);
      trace := trace + [w];
      n := n + 1;
    }
    assert ops[..n] == ops;
  }
}

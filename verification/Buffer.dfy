/**
 buffer.h: a growable array of trivially copyable elements.  New storage is not initialised, so
 its elements are arbitrary.  The reference count of RefCountedObject is kept here as well.
 */
module Buffer {
  import opened Words

  /** The capacity EnsureCapacityWithHeadroom leaves. */
  function Grown(have: nat, want: nat, extraHeadroom: bool): nat {
    if want <= have then have
    else if extraHeadroom && want < have + have / 2 then have + have / 2
    else want
  }

  class BufferT {
    var size: nat
    var data: array<byte>

    var refCount: nat
    ghost var owners: set<object>

    // elements copied by reallocations, and the largest size there has been
    ghost var copied: nat
    ghost var largest: nat

    ghost function CostOf(): Cost
      reads this
    {
      Cost(size, data.Length, copied, largest)
    }

    predicate IsConsistent()
      reads this
    {
      size <= data.Length
    }

    ghost function Contents(): seq<byte>
      reads this, data
    {
      if IsConsistent() then data[..size] else []
    }

    /** A buffer of uninitialised elements. */
    constructor (size: nat, capacity: nat)
      ensures IsConsistent() && fresh(data) && this.size == size
      ensures data.Length == if size < capacity then capacity else size
      ensures refCount == 0 && owners == {} && copied == 0 && largest == size
    {
      this.size := size;
      data := new byte[if size < capacity then capacity else size];
      refCount, owners := 0, {};
      copied, largest := 0, size;
    }

    constructor Copied(bytes: seq<byte>, capacity: nat)
      ensures IsConsistent() && fresh(data) && Contents() == bytes
      ensures data.Length == if |bytes| < capacity then capacity else |bytes|
      ensures refCount == 0 && owners == {}
    {
      size := |bytes|;
      var d := new byte[if |bytes| < capacity then capacity else |bytes|];
      CopyInto(d, 0, bytes);
      data := d;
      refCount, owners := 0, {};
      copied, largest := 0, |bytes|;
    }

    method EnsureCapacityWithHeadroom(capacity: nat, extraHeadroom: bool)
      requires IsConsistent()
      modifies this`data, this`copied
      ensures IsConsistent() && Contents() == old(Contents())
      ensures data.Length == Grown(old(data.Length), capacity, extraHeadroom)
      ensures copied == old(copied) + if capacity <= old(data.Length) then 0 else size
      ensures if capacity <= old(data.Length) then data == old(data) else fresh(data)
    {
      if capacity <= data.Length {
        return;
      }
      var newCapacity := if extraHeadroom && capacity < data.Length + data.Length / 2
                         then data.Length + data.Length / 2 else capacity;
      var newData := new byte[newCapacity];
      CopyInto(newData, 0, data[..size]);
      copied := copied + size;
      data := newData;
    }

    method AppendData(bytes: seq<byte>)
      requires IsConsistent()
      modifies this`data, this`size, this`copied, this`largest, data
      ensures IsConsistent() && Contents() == old(Contents()) + bytes
      ensures CostOf() == Step(old(CostOf()), Growth.AppendData(|bytes|))
      ensures data == old(data) || fresh(data)
    {
      var newSize := size + |bytes|;
      EnsureCapacityWithHeadroom(newSize, true);
      ghost var before := data[..size];
      CopyInto(data, size, bytes);
      assert data[..newSize] == before + bytes;
      size := newSize;
      largest := if largest < size then size else largest;
    }

    method SetData(bytes: seq<byte>)
      requires IsConsistent()
      modifies this`data, this`size, this`copied, this`largest, data
      ensures IsConsistent() && Contents() == bytes
      ensures CostOf() == Step(old(CostOf()), Growth.SetData(|bytes|))
      ensures data == old(data) || fresh(data)
    {
      size := 0;
      AppendData(bytes);
    }

    /** Keeps what fits; new elements are arbitrary. */
    method SetSize(n: nat)
      requires IsConsistent()
      modifies this`data, this`size, this`copied, this`largest
      ensures IsConsistent() && size == n
      ensures if n <= old(size) then Contents() == old(Contents())[..n]
              else Contents()[..old(size)] == old(Contents())
      ensures CostOf() == Step(old(CostOf()), Growth.SetSize(n))
      ensures data == old(data) || fresh(data)
    {
      EnsureCapacityWithHeadroom(n, true);
      size := n;
      largest := if largest < size then size else largest;
    }

    method EnsureCapacity(capacity: nat)
      requires IsConsistent()
      modifies this`data, this`copied
      ensures IsConsistent() && Contents() == old(Contents())
      ensures data.Length == Grown(old(data.Length), capacity, false)
      ensures data == old(data) || fresh(data)
    {
      EnsureCapacityWithHeadroom(capacity, false);
    }

    method Clear()
      modifies this`size
      ensures IsConsistent() && Contents() == [] && CostOf() == Step(old(CostOf()), Growth.Clear)
    {
      size := 0;
    }

    method Put(index: nat, value: byte)
      requires IsConsistent() && index < size
      modifies data
      ensures Contents() == old(Contents())[index := value]
    {
      data[index] := value;
    }
  }

  /** memcpy to `at`. */
  method CopyInto(to: array<byte>, at: nat, bytes: seq<byte>)
    requires at + |bytes| <= to.Length
    modifies to
    ensures to[..at] == old(to[..at])
    ensures to[at..at + |bytes|] == bytes
    ensures to[at + |bytes|..] == old(to[at + |bytes|..])
  {
    var i := 0;
    while i < |bytes|
      invariant i <= |bytes|
      invariant forall k | 0 <= k < i :: to[at + k] == bytes[k]
      invariant forall k | 0 <= k < to.Length && !(at <= k < at + i) :: to[k] == old(to[k])
    {
      to[at + i] := bytes[i];
      i := i + 1;
    }
  }

  // ----- The cost of growing -----

  datatype Growth = AppendData(n: nat) | SetSize(n: nat) | SetData(n: nat) | Clear

  /** Size, capacity, elements copied by reallocations, largest size so far. */
  datatype Cost = Cost(size: nat, capacity: nat, copied: nat, largest: nat)

  ghost function Resized(c: Cost, kept: nat, size: nat): Cost {
    Cost(size, Grown(c.capacity, size, true),
         if size <= c.capacity then c.copied else c.copied + kept,
         if size > c.largest then size else c.largest)
  }

  ghost function Step(c: Cost, op: Growth): Cost {
    match op
    case AppendData(n) => Resized(c, c.size, c.size + n)
    case SetSize(n) => Resized(c, c.size, n)
    case SetData(n) => Resized(c, 0, n)
    case Clear => c.(size := 0)
  }

  ghost function Run(ops: seq<Growth>): Cost {
    if ops == [] then Cost(0, 0, 0, 0) else Step(Run(ops[..|ops| - 1]), ops[|ops| - 1])
  }

  /** Copying is paid for by the capacity, and the capacity by the largest size, over any run from an empty buffer. */
  lemma {:induction false} AmortisedGrowth(ops: seq<Growth>)
    ensures var c := Run(ops);
            && c.size <= c.capacity && c.size <= c.largest
            && c.copied <= 3 * c.capacity
            && 2 * c.capacity <= 3 * c.largest
  {
    if ops != [] { AmortisedGrowth(ops[..|ops| - 1]); }
  }
}

/** The growable buffer of core/src/buffer.c. */
module Buffer {
  import opened Bytes
  import opened Wrappers

  const SIZE_MAX: nat := 0xFFFF_FFFF_FFFF_FFFF

  // ----- growth -----

  /** The doubling loop: the first capacity that leaves room for n more bytes, or None where doubling would overflow. */
  function Grown(memory: nat, size: nat, n: nat): Option<nat>
    requires 1 <= memory <= SIZE_MAX && size <= memory
    decreases SIZE_MAX - memory
  {
    if memory - size >= n then Some(memory)
    else if memory > SIZE_MAX / 2 then None
    else Grown(2 * memory, size, n)
  }

  /** Growth is by doubling, no further than needed, and it succeeds whenever half the address space suffices. */
  lemma {:induction false} GrownBounds(memory: nat, size: nat, n: nat)
    requires 1 <= memory <= SIZE_MAX && size <= memory
    ensures size + n <= SIZE_MAX / 2 + 1 ==> Grown(memory, size, n).Some?
    ensures Grown(memory, size, n).Some? ==>
      var m := Grown(memory, size, n).value;
      && memory <= m <= SIZE_MAX && m - size >= n
      && (m > memory ==> m >= 2 * memory && m < 2 * (size + n) && memory < size + n)
    decreases SIZE_MAX - memory
  {
    if memory - size < n && memory <= SIZE_MAX / 2 {
      GrownBounds(2 * memory, size, n);
    }
  }

  function Doubled(memory: nat, k: nat): nat {
    if k == 0 then memory else 2 * Doubled(memory, k - 1)
  }

  lemma {:induction false} DoubledFirst(memory: nat, k: nat)
    ensures Doubled(2 * memory, k) == Doubled(memory, k + 1)
    ensures Doubled(memory, k) >= memory
  {
    if k > 0 {
      DoubledFirst(memory, k - 1);
    }
  }

  /** m is the first doubling with room for n more bytes, and no more than 64 bits can count. */
  ghost predicate FirstFit(memory: nat, size: nat, n: nat, m: nat, k: nat) {
    && m == Doubled(memory, k) && m <= 0xFFFF_FFFF_FFFF_FFFF && m - size >= n
    && forall j: nat :: j < k ==> Doubled(memory, j) - size < n
  }

  lemma {:induction false} GrownFits(memory: nat, size: nat, n: nat) returns (k: nat)
    requires 1 <= memory <= SIZE_MAX && size <= memory && Grown(memory, size, n).Some?
    ensures FirstFit(memory, size, n, Grown(memory, size, n).value, k)
    decreases SIZE_MAX - memory
  {
    if memory - size >= n {
      k := 0;
    } else {
      var k' := GrownFits(2 * memory, size, n);
      k := k' + 1;
      DoubledFirst(memory, k');
      forall j: nat | j < k ensures Doubled(memory, j) - size < n {
        if j > 0 {
          DoubledFirst(memory, j - 1);
        }
      }
    }
  }

  lemma {:induction false} FitIsGrown(memory: nat, size: nat, n: nat, m: nat, k: nat)
    requires 1 <= memory <= SIZE_MAX && size <= memory && FirstFit(memory, size, n, m, k)
    ensures Grown(memory, size, n) == Some(m)
    decreases k
  {
    if k > 0 {
      assert Doubled(memory, 0) - size < n;
      DoubledFirst(memory, k - 1);
      DoubledFirst(2 * memory, k - 1);
      forall j: nat | j < k - 1 ensures Doubled(2 * memory, j) - size < n {
        DoubledFirst(memory, j);
      }
      FitIsGrown(2 * memory, size, n, m, k - 1);
    }
  }

  /** The new capacity is the first doubling that leaves room; growth fails exactly when 64 bits cannot count it. */
  lemma GrownIff(memory: nat, size: nat, n: nat, m: nat)
    requires 1 <= memory <= SIZE_MAX && size <= memory
    ensures Grown(memory, size, n) == Some(m) <==> exists k :: FirstFit(memory, size, n, m, k)
  {
    if Grown(memory, size, n) == Some(m) {
      var k := GrownFits(memory, size, n);
    }
    if k :| FirstFit(memory, size, n, m, k) {
      FitIsGrown(memory, size, n, m, k);
    }
  }

  // ----- runs of appends -----

  /** The size, the capacity, and how many bytes growth has copied so far. */
  datatype State = State(size: nat, memory: nat, copied: nat)

  predicate Sound(s: State) {
    s.size <= s.memory && 1 <= s.memory <= SIZE_MAX
  }

  /** An append of n bytes; one that cannot be made changes nothing. */
  function Appended(s: State, n: nat): (r: State)
    requires Sound(s)
    ensures Sound(r)
  {
    GrownBounds(s.memory, s.size, n);
    if n == 0 || Grown(s.memory, s.size, n) == None then s
    else
      var m := Grown(s.memory, s.size, n).value;
      State(s.size + n, m, s.copied + if m > s.memory then s.size else 0)
  }

  function Run(s: State, sizes: seq<nat>): (r: State)
    requires Sound(s)
    ensures Sound(r)
  {
    if |sizes| == 0 then s else Appended(Run(s, sizes[..|sizes| - 1]), sizes[|sizes| - 1])
  }

  /** What has been copied is paid for by the capacity and by the size. */
  ghost predicate Paid(s: State, first: State) {
    && s.copied <= s.memory - first.memory
    && (s.copied > 0 ==> s.copied < 2 * s.size)
  }

  lemma AppendedIsPaid(s: State, first: State, n: nat)
    requires Sound(s) && Sound(first) && Paid(s, first)
    ensures Paid(Appended(s, n), first)
  {
    GrownBounds(s.memory, s.size, n);
  }

  /** Over any run of appends, growth copies fewer bytes than twice the final size. */
  lemma {:induction false} CopiesAreAmortized(first: State, sizes: seq<nat>)
    requires Sound(first) && first.copied == 0
    ensures Paid(Run(first, sizes), first)
    ensures Run(first, sizes).size > 0 ==> Run(first, sizes).copied < 2 * Run(first, sizes).size
  {
    hide Appended;
    if |sizes| > 0 {
      CopiesAreAmortized(first, sizes[..|sizes| - 1]);
      AppendedIsPaid(Run(first, sizes[..|sizes| - 1]), first, sizes[|sizes| - 1]);
    }
  }

  // ----- the buffer -----

  class Buffer {
    var data: array<byte>
    var dataSize: nat
    var memorySize: nat

    /** Bytes copied by growth since the buffer was made. */
    ghost var copied: nat

    /** The size is within the capacity, the capacity is at least 1, and all spare bytes are zero. */
    ghost predicate Valid()
      reads this, data
    {
      && memorySize == data.Length && Sound(Value())
      && forall i :: dataSize <= i < memorySize ==> data[i] == 0
    }

    ghost function Value(): State
      reads this
    {
      State(dataSize, memorySize, copied)
    }

    ghost function Contents(): seq<byte>
      requires Valid()
      reads this, data
    {
      data[..dataSize]
    }

    /** page is the page size of the system. */
    constructor Default(page: nat)
      requires 1 <= page <= SIZE_MAX
      ensures Valid() && fresh(data) && Contents() == [] && Value() == State(0, page, 0)
    {
      memorySize, dataSize, copied := page, 0, 0;
      data := new byte[page](_ => 0);
    }

    constructor WithLength(length: nat)
      requires length <= SIZE_MAX
      ensures Valid() && fresh(data) && Contents() == []
      ensures Value() == State(0, if length > 0 then length else 1, 0)
    {
      memorySize, dataSize, copied := if length > 0 then length else 1, 0, 0;
      data := new byte[if length > 0 then length else 1](_ => 0);
    }

    /** A page, or more when the data need more. */
    constructor WithData(bytes: seq<byte>, page: nat)
      requires 1 <= page <= SIZE_MAX && |bytes| <= SIZE_MAX
      ensures Valid() && fresh(data) && Contents() == bytes
      ensures Value() == State(|bytes|, if |bytes| > page then |bytes| else page, 0)
    {
      memorySize, dataSize, copied := if |bytes| > page then |bytes| else page, |bytes|, 0;
      data := new byte[if |bytes| > page then |bytes| else page](i => if 0 <= i < |bytes| then bytes[i] else 0);
      new;
      assert data[..dataSize] == bytes;
    }

    method AdjustStorage(n: nat)
      requires Valid()
      modifies this
      ensures Valid() && (data == old(data) || fresh(data))
      ensures Contents() == old(Contents()) && dataSize == old(dataSize)
      ensures match Grown(old(memorySize), dataSize, n)
        case None => memorySize == old(memorySize) && copied == old(copied)
        case Some(m) => memorySize == m && copied == old(copied) + if m > old(memorySize) then dataSize else 0
    {
      GrownBounds(memorySize, dataSize, n);
      if n <= memorySize - dataSize {
        return;
      }
      var newSize := memorySize;
      while newSize - dataSize < n
        invariant memorySize <= newSize <= SIZE_MAX && dataSize <= newSize
        invariant Grown(newSize, dataSize, n) == Grown(memorySize, dataSize, n)
        decreases SIZE_MAX - newSize
      {
        if newSize > SIZE_MAX / 2 {
          return;
        }
        newSize := newSize * 2;
      }
      var larger := new byte[newSize](_ => 0);
      forall i | 0 <= i < dataSize {
        larger[i] := data[i];
      }
      assert larger[..dataSize] == data[..dataSize];
      copied := copied + dataSize;
      data := larger;
      memorySize := newSize;
    }

    /** False for no bytes, and where the capacity cannot be doubled far enough; nothing changes then. */
    method Append(bytes: seq<byte>) returns (ok: bool)
      requires Valid()
      modifies this, data
      ensures Valid() && (data == old(data) || fresh(data))
      ensures Value() == Appended(old(Value()), |bytes|)
      ensures ok == (|bytes| > 0 && Grown(old(memorySize), old(dataSize), |bytes|).Some?)
      ensures Contents() == if ok then old(Contents()) + bytes else old(Contents())
    {
      GrownBounds(memorySize, dataSize, |bytes|);
      if |bytes| < 1 {
        return false;
      }
      AdjustStorage(|bytes|);
      if memorySize - dataSize < |bytes| {
        return false;
      }
      CopyIn(data, dataSize, bytes);
      dataSize := dataSize + |bytes|;
      ok := true;
    }

    /** memcpy behind the first bytes. */
    static method CopyIn(data: array<byte>, at: nat, bytes: seq<byte>)
      requires at + |bytes| <= data.Length
      modifies data
      ensures data[..at + |bytes|] == old(data[..at]) + bytes
      ensures forall k :: at + |bytes| <= k < data.Length ==> data[k] == old(data[k])
    {
      forall i | 0 <= i < |bytes| {
        data[at + i] := bytes[i];
      }
      assert data[..at] == old(data[..at]) && data[at..at + |bytes|] == bytes;
      assert data[..at + |bytes|] == data[..at] + data[at..at + |bytes|];
    }

    /** A range that does not lie in the data is left alone. */
    method Remove(start: nat, length: nat)
      requires Valid()
      modifies this, data
      ensures Valid() && data == old(data) && memorySize == old(memorySize) && copied == old(copied)
      ensures Contents() ==
        if start + length <= |old(Contents())| then old(Contents())[..start] + old(Contents())[start + length..]
        else old(Contents())
    {
      ghost var s := Contents();
      if length < 1 {
        assert start <= |s| ==> s[..start] + s[start..] == s;
        return;
      }
      if start > dataSize || length > dataSize - start {
        return;
      }
      TakeOut(start, length);
    }

    /** Moves the bytes behind the range to its start and clears the place that gets free. */
    method TakeOut(start: nat, length: nat)
      requires Valid() && start + length <= dataSize
      modifies this, data
      ensures Valid() && data == old(data) && memorySize == old(memorySize) && copied == old(copied)
      ensures Contents() == old(Contents())[..start] + old(Contents())[start + length..]
    {
      ghost var s := Contents();
      MoveLeft(data, start, start + length, dataSize);
      assert data[..dataSize - length] == s[..start] + s[start + length..];
      Blank(dataSize - length, length);
      dataSize := dataSize - length;
    }

    /** memmove of the bytes from..end to start. */
    static method MoveLeft(data: array<byte>, start: nat, from: nat, end: nat)
      requires start <= from <= end <= data.Length
      modifies data
      ensures data[..start + (end - from)] == old(data[..start]) + old(data[from..end])
      ensures forall k :: end <= k < data.Length ==> data[k] == old(data[k])
    {
      for i := 0 to end - from
        invariant data[..start + i] == old(data[..start]) + old(data[from..from + i])
        invariant forall k :: start + i <= k < data.Length ==> data[k] == old(data[k])
      {
        ghost var done := data[..start + i];
        data[start + i] := data[from + i];
        assert data[..start + i + 1] == done + [old(data[from + i])];
        assert old(data[from..from + i + 1]) == old(data[from..from + i]) + [old(data[from + i])];
      }
    }

    /** memset to zero. */
    method Blank(start: nat, length: nat)
      requires start + length <= data.Length
      modifies data
      ensures forall k :: start <= k < start + length ==> data[k] == 0
      ensures data[..start] == old(data[..start])
      ensures forall k :: start + length <= k < data.Length ==> data[k] == old(data[k])
    {
      forall k | start <= k < start + length {
        data[k] := 0;
      }
    }

    method RemoveEnd(length: nat)
      requires Valid()
      modifies this, data
      ensures Valid() && data == old(data) && memorySize == old(memorySize) && copied == old(copied)
      ensures Contents() ==
        if length <= |old(Contents())| then old(Contents())[..|old(Contents())| - length] else old(Contents())
    {
      if length < 1 || length > dataSize {
        return;
      }
      ghost var s := Contents();
      Blank(dataSize - length, length);
      dataSize := dataSize - length;
      assert data[..dataSize] == s[..dataSize];
    }

    method RemoveStart(length: nat)
      requires Valid()
      modifies this, data
      ensures Valid() && data == old(data) && memorySize == old(memorySize) && copied == old(copied)
      ensures Contents() == if length <= |old(Contents())| then old(Contents())[length..] else old(Contents())
    {
      Remove(0, length);
    }

    method Clear()
      requires Valid()
      modifies this, data
      ensures Valid() && data == old(data) && memorySize == old(memorySize) && copied == old(copied)
      ensures Contents() == []
    {
      for i := 0 to dataSize
        modifies data
        invariant forall k :: 0 <= k < i ==> data[k] == 0
        invariant forall k :: dataSize <= k < memorySize ==> data[k] == 0
      {
        data[i] := 0;
      }
      dataSize := 0;
    }

    /** buffer_copy into this buffer: the capacity is copied as well. */
    method CopyFrom(orig: Buffer)
      requires Valid() && orig.Valid()
      modifies this
      ensures Valid() && fresh(data) && memorySize == old(orig.memorySize) && copied == old(copied)
      ensures Contents() == old(orig.Contents())
    {
      var n := orig.dataSize;
      var capacity := if orig.memorySize > 0 then orig.memorySize else 1;
      var room := new byte[capacity](_ => 0);
      forall i | 0 <= i < n {
        room[i] := orig.data[i];
      }
      assert room[..n] == orig.data[..n];
      memorySize := capacity;
      data := room;
      dataSize := n;
    }
  }
}

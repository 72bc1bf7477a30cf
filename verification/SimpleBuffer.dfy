/**
 CSimpleBuffer: a reallocated byte array used as a FIFO queue.  realloc and new are taken to succeed.
 */
module ByteBuffer {
  import opened Bytes

  // ---- growth arithmetic ----

  /** The largest request whose size plus a quarter is still below 2^32. */
  const MAX_REQUEST: int := 3_435_973_836

  function Add32(a: int, b: int): uint32 {
    (a + b) % TWO_32
  }

  /** m_alloc_size as Extend computes it, every addition wrapping at 32 bits. */
  function AllocFor(offset: int, len: int): uint32 {
    var n := Add32(offset, len);
    Add32(n, n / 4)
  }

  /** A reallocation makes room for its request exactly up to the threshold. */
  lemma FitsIff(offset: uint32, len: uint32)
    ensures offset + len <= AllocFor(offset, len) <==> offset + len <= MAX_REQUEST
  {
    var n := Add32(offset, len);
    assert n == offset + len || n == offset + len - TWO_32;
    if offset + len < TWO_32 {
      assert n + n / 4 < TWO_32 <==> n <= MAX_REQUEST;
      assert Add32(n, n / 4) == n + n / 4 || Add32(n, n / 4) == n + n / 4 - TWO_32;
    }
  }

  /** Bookkeeping of all reallocations; every one is charged the whole old allocation. */
  datatype Growth = Growth(alloc: nat, copied: nat, reallocs: nat, request: nat)

  const NO_GROWTH := Growth(0, 0, 0, 0)

  function Reallocate(g: Growth, n: nat): Growth {
    Growth(AllocFor(n, 0), g.copied + g.alloc, g.reallocs + 1, n)
  }

  /** Pow is exponentiation: powers of a sum are products, and the first power is the base. */
  lemma {:induction false} PowSum(b: nat, d: nat, e: nat)
    ensures Pow(b, d + e) == Pow(b, d) * Pow(b, e) && Pow(b, 1) == b
  {
    assert Pow(b, 1) == b * Pow(b, 0);
    if d > 0 {
      PowSum(b, d - 1, e);
      assert Pow(b, d) == b * Pow(b, d - 1) && Pow(b, d + e) == b * Pow(b, d - 1 + e);
      hide Pow;
      assert b * (Pow(b, d - 1) * Pow(b, e)) == b * Pow(b, d - 1) * Pow(b, e);
    }
  }

  function Pow(b: nat, e: nat): nat {
    if e == 0 then 1 else b * Pow(b, e - 1)
  }

  ghost predicate Amortised(g: Growth) {
    if g.reallocs == 0 then g.alloc == g.copied == 0
    else
      && 1 <= g.request <= MAX_REQUEST
      && g.alloc == g.request + g.request / 4
      && g.copied <= 5 * g.request
      && Pow(5, g.reallocs - 1) <= Pow(4, g.reallocs - 1) * g.request
  }

  lemma ReallocateAmortised(g: Growth, n: nat)
    requires Amortised(g) && g.alloc < n <= MAX_REQUEST
    ensures Amortised(Reallocate(g, n))
    ensures n <= Reallocate(g, n).alloc
  {
    AllocExact(n, 0);
    hide AllocFor;
    if g.reallocs > 0 {
      PowerStep(Pow(5, g.reallocs - 1), Pow(4, g.reallocs - 1), g.request, n);
    }
  }

  lemma AllocExact(offset: uint32, len: uint32)
    requires offset + len <= MAX_REQUEST
    ensures AllocFor(offset, len) == offset + len + (offset + len) / 4
    ensures Add32(offset, len) == offset + len
    ensures Add32(offset + len, (offset + len) / 4) == offset + len + (offset + len) / 4
  {
    var n := Add32(offset, len);
    assert n == offset + len && n + n / 4 < TWO_32;
  }

  /** What Extend computes, in 32 bits, is the allocation the bookkeeping charges. */
  lemma GrowTo(g: Growth, offset: uint32, len: uint32)
    requires Amortised(g) && g.alloc < offset + len <= MAX_REQUEST
    ensures var g' := Reallocate(g, offset + len);
            var n := Add32(offset, len);
            && Amortised(g') && Add32(n, n / 4) == g'.alloc == offset + len + (offset + len) / 4
            && g'.copied == g.copied + g.alloc && g'.reallocs == g.reallocs + 1
  {
    ReallocateAmortised(g, offset + len);
    AllocExact(offset, len);
    AllocExact(offset + len, 0);
    hide Amortised, AllocFor, Add32;
  }

  lemma Add32Exact(a: uint32, b: uint32)
    ensures Add32(a, b) == if a + b < TWO_32 then a + b else a + b - TWO_32
  {
  }

  /** The guard of Write and its Extend, both with 32-bit wrap-around: the allocation in the end. */
  function GuardedAlloc(alloc: uint32, offset: uint32, len: uint32): uint32 {
    if Add32(offset, len) > alloc then AllocFor(offset, len) else alloc
  }

  /** Exactly which calls of Write find room for their bytes. */
  lemma WriteFitsIff(alloc: uint32, offset: uint32, len: uint32)
    requires offset <= alloc
    ensures offset + len <= GuardedAlloc(alloc, offset, len) <==>
            offset + len <= alloc || offset + len <= MAX_REQUEST
  {
    FitsIff(offset, len);
    Add32Exact(offset, len);
    hide Add32, AllocFor;
  }

  lemma PowerStep(p5: nat, p4: nat, r: nat, n: nat)
    requires p5 <= p4 * r && 5 * r <= 4 * n
    ensures 5 * p5 <= 4 * p4 * n
  {
    calc {
      5 * p5;
    <=
      5 * (p4 * r);
    ==
      p4 * (5 * r);
    <= { MulMonotone(p4, 5 * r, 4 * n); }
      p4 * (4 * n);
    ==
      4 * p4 * n;
    }
  }

  lemma MulMonotone(k: nat, a: nat, b: nat)
    requires a <= b
    ensures k * a <= k * b
  {
  }

  /** A request as Write and OnRead make it: reallocate only when it exceeds the allocation. */
  function Request(g: Growth, n: nat): Growth {
    if n > g.alloc then Reallocate(g, n) else g
  }

  function Requests(ns: seq<nat>): Growth {
    if ns == [] then NO_GROWTH else Request(Requests(ns[..|ns| - 1]), ns[|ns| - 1])
  }

  /**
   Over every sequence of requests up to the threshold (reads in between only change what the next
   request is): each one fits, the bytes copied so far are at most 5 times one of the requests,
   and k reallocations need a request of at least (5/4)^(k-1).
   */
  lemma {:induction false} AmortisedRun(ns: seq<nat>)
    requires forall n | n in ns :: n <= MAX_REQUEST
    ensures var g := Requests(ns);
            && Amortised(g)
            && (g.reallocs > 0 ==>
                  && g.request in ns && g.copied <= 5 * g.request
                  && Pow(5, g.reallocs - 1) <= Pow(4, g.reallocs - 1) * g.request)
            && (ns != [] ==> ns[|ns| - 1] <= g.alloc)
  {
    if ns != [] {
      var pre, n := ns[..|ns| - 1], ns[|ns| - 1];
      assert forall m | m in pre :: m in ns;
      assert n in ns;
      AmortisedRun(pre);
      hide AllocFor, Pow;
      if n > Requests(pre).alloc {
        ReallocateAmortised(Requests(pre), n);
      }
    }
  }

  /** The i-th request finds the allocation too small. */
  predicate Grows(ns: seq<nat>, i: nat)
    requires i < |ns|
  {
    ns[i] > Requests(ns[..i]).alloc
  }

  ghost function GrowthsOf(ns: seq<nat>): set<nat> {
    set i: nat | i < |ns| && Grows(ns, i)
  }

  /** One request: the exact cost of a reallocation is the whole allocation it replaces. */
  lemma {:induction false} CostOfRequest(ns: seq<nat>, n: nat)
    ensures var g, g' := Requests(ns), Requests(ns + [n]);
            if n > g.alloc
            then g' == Growth(AllocFor(n, 0), g.copied + g.alloc, g.reallocs + 1, n)
            else g' == g
    ensures Requests([]).copied == Requests([]).reallocs == Requests([]).alloc == 0
  {
    assert (ns + [n])[..|ns|] == ns;
  }

  lemma {:induction false} GrowthsSnoc(ns: seq<nat>, n: nat)
    ensures GrowthsOf(ns + [n]) == GrowthsOf(ns) + (if n > Requests(ns).alloc then {|ns|} else {})
    ensures |ns| !in GrowthsOf(ns)
  {
    hide Requests;
    var all := ns + [n];
    assert all[..|ns|] == ns;
    forall i: nat | i < |ns| ensures Grows(all, i) <==> Grows(ns, i) {
      assert all[..i] == ns[..i];
    }
    assert Grows(all, |ns|) <==> n > Requests(ns).alloc;
    hide Grows;
  }

  /** The number of reallocations is the number of requests the allocation of their time could not hold. */
  lemma {:induction false} ReallocsCounted(ns: seq<nat>)
    ensures Requests(ns).reallocs == |GrowthsOf(ns)|
    ensures forall i: nat :: i in GrowthsOf(ns) <==> i < |ns| && ns[i] > Requests(ns[..i]).alloc
  {
    hide Requests;
    if ns == [] {
      CostOfRequest([], 0);
      assert GrowthsOf(ns) == {};
    } else {
      var pre, n := ns[..|ns| - 1], ns[|ns| - 1];
      assert pre + [n] == ns;
      ReallocsCounted(pre);
      CostOfRequest(pre, n);
      GrowthsSnoc(pre, n);
    }
  }

  /** The sizes of the blocks that were replaced, in order. */
  function Replaced(ns: seq<nat>): seq<nat> {
    if ns == [] then [] else
    var pre, n := ns[..|ns| - 1], ns[|ns| - 1];
    Replaced(pre) + if n > Requests(pre).alloc then [Requests(pre).alloc] else []
  }

  function Sum(xs: seq<nat>): nat {
    if xs == [] then 0 else Sum(xs[..|xs| - 1]) + xs[|xs| - 1]
  }

  lemma {:induction false} SumSnoc(xs: seq<nat>, x: nat)
    ensures Sum(xs + [x]) == Sum(xs) + x
  {
    assert (xs + [x])[..|xs|] == xs;
  }

  /** The bytes copied are the sum of the sizes of all blocks replaced. */
  lemma {:induction false} CopiedIsReplaced(ns: seq<nat>)
    ensures Requests(ns).copied == Sum(Replaced(ns)) && Requests(ns).reallocs == |Replaced(ns)|
  {
    hide Requests;
    if ns == [] {
      CostOfRequest([], 0);
    } else {
      var pre, n := ns[..|ns| - 1], ns[|ns| - 1];
      CopiedIsReplaced(pre);
      CostOfRequest(pre, n);
      assert pre + [n] == ns;
      SumSnoc(Replaced(pre), Requests(pre).alloc);
      assert Replaced(pre) + [] == Replaced(pre);
    }
  }

  lemma {:induction false} FirstRequest(a: nat)
    requires 0 < a <= MAX_REQUEST
    ensures Requests([a]) == Growth(a + a / 4, 0, 1, a)
  {
    CostOfRequest([], a);
    AllocExact(a, 0);
    assert [] + [a] == [a];
    hide Requests, AllocFor, Add32;
  }

  /** Two reallocations: the second copies the whole first block. */
  lemma {:induction false} TwoReallocations(a: nat, b: nat)
    requires 0 < a && a + a / 4 < b <= MAX_REQUEST
    ensures Requests([a, b]) == Growth(b + b / 4, a + a / 4, 2, b)
  {
    hide Requests, AllocFor, Add32;
    FirstRequest(a);
    CostOfRequest([a], b);
    AllocExact(b, 0);
    assert [a] + [b] == [a, b];
  }

  /** Four bytes, then eight: five are allocated, then ten, and the five are copied. */
  lemma FourThenEight()
    ensures Requests([4, 8]) == Growth(10, 5, 2, 8)
  {
    TwoReallocations(4, 8);
    hide Requests;
  }

  // ---- the class ----

  class SimpleBuffer {
    var buffer: array<byte>
    var allocSize: uint32
    var writeOffset: uint32
    ghost var growth: Growth

    ghost predicate Valid()
      reads this
    {
      && writeOffset <= allocSize == buffer.Length
      && growth.alloc == allocSize
      && Amortised(growth)
    }

    ghost function Contents(): (s: seq<byte>)
      reads this, buffer
      requires Valid()
      ensures |s| == writeOffset
    {
      buffer[..writeOffset]
    }

    constructor ()
      ensures Valid() && fresh(buffer)
      ensures Contents() == [] && growth == NO_GROWTH
    {
      buffer := new byte[0];
      allocSize, writeOffset := 0, 0;
      growth := NO_GROWTH;
    }

    /** Called, as Write and OnRead call it, only for a request the allocation cannot hold. */
    method Extend(len: uint32)
      requires Valid()
      requires allocSize < writeOffset + len <= MAX_REQUEST
      modifies this
      ensures Valid() && fresh(buffer)
      ensures writeOffset == old(writeOffset) && Contents() == old(Contents())
      ensures writeOffset + len <= allocSize
      ensures growth == Reallocate(old(growth), writeOffset + len)
      ensures growth.copied == old(growth.copied) + old(buffer.Length) && growth.reallocs == old(growth.reallocs) + 1
      ensures allocSize == buffer.Length == writeOffset + len + (writeOffset + len) / 4
    {
      ghost var before := Contents();
      GrowTo(growth, writeOffset, len);
      hide Amortised, AllocFor, Add32, Reallocate;
      growth := Reallocate(growth, writeOffset + len);
      allocSize := Add32(writeOffset, len);
      allocSize := Add32(allocSize, allocSize / 4);
      var newBuf := Realloc(buffer, allocSize);
      assert newBuf[..writeOffset] == newBuf[..Min(buffer.Length, allocSize)][..writeOffset] == before;
      buffer := newBuf;
    }

    /** realloc: a block of the given size that begins with what fits of the old one. */
    static method Realloc(old': array<byte>, size: nat) returns (block: array<byte>)
      ensures fresh(block) && block.Length == size
      ensures block[..Min(old'.Length, size)] == old'[..Min(old'.Length, size)]
    {
      block := new byte[size];
      forall i | 0 <= i < Min(old'.Length, size) {
        block[i] := old'[i];
      }
    }

    /** What recv and memcpy do through the pointer to the end of the queue. */
    method Deposit(data: seq<byte>)
      requires Valid()
      requires writeOffset + |data| <= allocSize
      modifies buffer
      ensures Valid() && Contents() == old(Contents())
      ensures buffer[writeOffset..writeOffset + |data|] == data
    {
      forall i | 0 <= i < |data| {
        buffer[writeOffset + i] := data[i];
      }
    }

    method IncWriteOffset(len: uint32)
      requires Valid()
      requires writeOffset + len <= allocSize
      modifies this`writeOffset
      ensures Valid()
      ensures Contents() == old(Contents()) + buffer[old(writeOffset)..old(writeOffset) + len]
    {
      hide Amortised;
      Add32Exact(writeOffset, len);
      ghost var end := writeOffset + len;
      assert buffer[..end] == buffer[..writeOffset] + buffer[writeOffset..end];
      hide Add32;
      writeOffset := Add32(writeOffset, len);
    }

    /** A null buf leaves the appended bytes as the allocation happens to hold them. */
    method Write(buf: array?<byte>, len: uint32) returns (n: uint32)
      requires Valid()
      requires writeOffset + len <= allocSize || writeOffset + len <= MAX_REQUEST
      requires buf != null ==> buf != buffer && len <= buf.Length
      modifies this, buffer
      ensures Valid() && (buffer == old(buffer) || fresh(buffer))
      ensures n == len
      ensures |Contents()| == |old(Contents())| + len
      ensures Contents()[..old(writeOffset)] == old(Contents())
      ensures buf != null ==> Contents() == old(Contents()) + old(buf[..len])
      ensures growth == Request(old(growth), old(writeOffset) + len)
      ensures growth.copied == old(growth.copied) +
              if old(writeOffset) + len > old(buffer.Length) then old(buffer.Length) else 0
    {
      hide Amortised, AllocFor, Reallocate;
      Add32Exact(writeOffset, len);
      hide Add32;
      if Add32(writeOffset, len) > allocSize {
        Extend(len);
      }
      if buf != null {
        Deposit(buf[..len]);
      }
      IncWriteOffset(len);
      return len;
    }

    /** Removes (and, unless buf is null, copies out) a prefix of at most len bytes. */
    method Read(buf: array?<byte>, len: uint32) returns (n: uint32)
      requires Valid()
      requires buf != null ==> buf != buffer && Min(len, writeOffset) <= buf.Length
      modifies this`writeOffset, buffer, if buf != null then {buf} else {}
      ensures Valid()
      ensures n == Min(len, old(writeOffset))
      ensures Contents() == old(Contents())[n..]
      ensures buf != null ==> buf[..] == old(Contents())[..n] + old(buf[..])[n..]
    {
      hide Amortised;
      ghost var before := Contents();
      n := len;
      if n > writeOffset {
        n := writeOffset;
      }
      if buf != null {
        forall i | 0 <= i < n {
          buf[i] := buffer[i];
        }
        assert buf[..n] == before[..n] && buf[n..] == old(buf[..])[n..];
        assert buf[..] == buf[..n] + buf[n..];
      }
      writeOffset := writeOffset - n;
      forall i | 0 <= i < writeOffset {
        buffer[i] := buffer[n + i];
      }
      assert forall i | 0 <= i < writeOffset :: buffer[i] == before[n + i];
    }
  }
}

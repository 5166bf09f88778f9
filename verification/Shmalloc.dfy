/** The shared-memory allocator (udpdk_shmalloc.c): fixed-size blocks, one bit per block in
    32-bit words, a count of free blocks and a next-fit cursor. */
module Shmalloc {
  import opened Bits
  import opened Sequences

  // ---------------------------------------------------------------- blocks

  // Block i of a pool that starts at `start`, with `stride` bytes from one block to the next.
  function Block(start: nat, stride: nat, i: nat): nat {
    start + i * stride
  }

  function Index(start: nat, stride: nat, addr: nat): nat
    requires stride > 0 && start <= addr
  {
    (addr - start) / stride
  }

  /** Integer division undoes the block arithmetic, for every address inside the block. */
  lemma IndexOfBlock(start: nat, stride: nat, i: nat, offset: nat)
    requires offset < stride
    ensures Index(start, stride, Block(start, stride, i) + offset) == i
  {
    assert Block(start, stride, i) + offset - start == i * stride + offset;
    DivMulAdd(i, stride, offset);
  }

  lemma DivMulAdd(i: nat, d: nat, r: nat)
    requires r < d
    ensures (i * d + r) / d == i
  {
    var n := i * d + r;
    var q, m := n / d, n % d;
    assert n == q * d + m;
    if i < q {
      MulSum(i, q - i, d);
    } else if i > q {
      MulSum(q, i - q, d);
    }
  }

  lemma MulSum(a: nat, b: nat, d: nat)
    ensures (a + b) * d == a * d + b * d
    ensures b > 0 ==> b * d >= d
  {
  }

  // ---------------------------------------------------------------- the bit field

  // Step d < size of the wrap-around scan that starts just after block `from`.
  function ScanAt(size: nat, from: nat, d: nat): nat
    requires from < size && d < size
  {
    if from + 1 + d < size then from + 1 + d else from + 1 + d - size
  }

  /** `size` steps of the scan visit every block. */
  lemma ScanCoversAll(size: nat, from: nat, i: nat) returns (d: nat)
    requires from < size && i < size
    ensures d < size && ScanAt(size, from, d) == i
  {
    d := if i > from then i - from - 1 else i + size - from - 1;
  }

  // ---------------------------------------------------------------- the allocator

  class Allocator {
    const mzAddr: nat
    const size: nat
    const elemSize: nat
    const poolOffset: nat
    var bitfield: Words
    var nFree: nat
    var nextFree: nat
    ghost var marks: set<nat>  // the blocks whose bit is set
    ghost var live: set<nat>   // the addresses handed out and not yet given back

    ghost predicate Valid()
      reads this
    {
      && elemSize > 0
      && size <= 32 * |bitfield|
      && nFree + |marks| == size
      && nFree + |live| == size
      && (nFree > 0 ==> nextFree < size && nextFree !in marks)
      && BitsMatch()
      && (forall addr: nat {:trigger Held(addr)} :: addr in live <==> Held(addr))
    }

    ghost predicate BitsMatch()
      reads this
    {
      && size <= 32 * |bitfield|
      && (forall k: nat {:trigger TestBit(bitfield, k)} ::
            k < size ==> (TestBit(bitfield, k) <==> k in marks))
      && (forall k :: k in marks ==> k < size)
    }

    function PoolStart(): nat {
      mzAddr + poolOffset
    }

    // `addr` is the start of a block whose bit is set.
    ghost predicate Held(addr: nat)
      reads this`marks
    {
      elemSize > 0 && InPool(addr) && BlockStart(addr) == addr && IndexOf(addr) in marks
    }

    // The block that `addr` points into, for an address inside the pool, and its start.
    ghost function IndexOf(addr: nat): nat
      requires elemSize > 0 && InPool(addr)
    {
      Index(PoolStart(), elemSize, addr)
    }

    ghost function BlockStart(addr: nat): nat
      requires elemSize > 0 && InPool(addr)
    {
      Block(PoolStart(), elemSize, IndexOf(addr))
    }

    ghost predicate InPool(addr: nat) {
      PoolStart() <= addr < Block(PoolStart(), elemSize, size)
    }

    ghost predicate HasLayout(layout: Layout) {
      elemSize == layout.elemSize && poolOffset == layout.poolOffset
    }

    // Every live block can hold `request` bytes: inside the zone, behind the bit field, apart from
    // every other live block.
    ghost predicate HoldsLive(reserved: nat, request: nat)
      reads this`live
    {
      && (forall a :: a in live ==> mzAddr + WordsEnd(size) <= a && a + request <= mzAddr + reserved)
      && (forall a, b :: a in live && b in live && a < b ==> a + request <= b)
    }

    constructor Init(mzAddr: nat, size: nat, elemSize: nat)
      requires elemSize > 0
      ensures Valid() && HasLayout(LayoutAsWritten(size, elemSize))
      ensures this.mzAddr == mzAddr && this.size == size
      ensures live == {} && nFree == size && nextFree == 0
    {
      var layout := LayoutAsWritten(size, elemSize);
      this.mzAddr := mzAddr;
      this.size := size;
      this.elemSize := layout.elemSize;
      this.poolOffset := layout.poolOffset;
      this.nFree := size;
      this.nextFree := 0;
      this.bitfield := seq((size + 31) / 32, _ => 0);
      this.marks := {};
      this.live := {};
      new;
      ZeroWords(bitfield, size);
    }

    /** The same with the sizes that the comments describe. */
    constructor InitAsDocumented(mzAddr: nat, size: nat, elemSize: nat)
      requires elemSize > 0
      ensures Valid() && HasLayout(LayoutAsDocumented(size, elemSize))
      ensures this.mzAddr == mzAddr && this.size == size
      ensures live == {} && nFree == size && nextFree == 0
    {
      var layout := LayoutAsDocumented(size, elemSize);
      this.mzAddr := mzAddr;
      this.size := size;
      this.elemSize := layout.elemSize;
      this.poolOffset := layout.poolOffset;
      this.nFree := size;
      this.nextFree := 0;
      this.bitfield := seq((size + 31) / 32, _ => 0);
      this.marks := {};
      this.live := {};
      new;
      ZeroWords(bitfield, size);
    }

    /** A block is handed out exactly when one is free; it was not live and becomes so. */
    method Malloc() returns (ret: Option<nat>)
      requires Valid()
      modifies this`nFree, this`nextFree, this`marks, this`live, this`bitfield
      ensures Valid()
      ensures ret.None? <==> |old(live)| == size
      ensures ret.None? ==> live == old(live)
      ensures ret.Some? ==> ret.value !in old(live) && live == old(live) + {ret.value}
      ensures ret.Some? ==> old(nextFree) < size && ret.value == mzAddr + poolOffset + old(nextFree) * elemSize
      // next fit: the cursor moves to the first clear bit after the block handed out
      ensures ret.Some? && nFree > 0 ==> IsNextClear(size, marks, old(nextFree), nextFree)
    {
      if nFree == 0 {
        return None;
      }
      var addr := mzAddr + poolOffset + nextFree * elemSize;
      BlockAddress(nextFree);
      assert addr == Block(PoolStart(), elemSize, nextFree) && !Held(addr);
      TakeNext(addr);
      ret := Some(addr);
    }

    // The bookkeeping of Malloc: mark the block at the cursor and move the cursor on.
    method TakeNext(ghost addr: nat)
      requires Valid() && nFree > 0
      requires addr !in live && InPool(addr) && addr == Block(PoolStart(), elemSize, nextFree)
      modifies this`nFree, this`nextFree, this`marks, this`live, this`bitfield
      ensures Valid()
      ensures live == old(live) + {addr}
      ensures nFree > 0 ==> IsNextClear(size, marks, old(nextFree), nextFree)
    {
      ghost var k := nextFree;
      nFree := nFree - 1;
      Mark(nextFree);
      live := live + {addr};
      BlockAddress(k);
      // Find the next free slot
      if nFree != 0 {
        FindNextFree();
      }
      forall a: nat
        ensures a in live <==> Held(a)
      {
        assert a in old(live) <==> old(Held(a));
      }
    }

    // Block k starts at its address, and no other block does.
    lemma BlockAddress(k: nat)
      requires elemSize > 0 && k < size
      ensures InPool(Block(PoolStart(), elemSize, k))
      ensures IndexOf(Block(PoolStart(), elemSize, k)) == k
      ensures BlockStart(Block(PoolStart(), elemSize, k)) == Block(PoolStart(), elemSize, k)
    {
      BlockInside(k, size, elemSize);
      IndexOfBlock(PoolStart(), elemSize, k, 0);
    }

    // The wrap-around scan of Malloc: it always finds a clear bit.
    method FindNextFree()
      requires BitsMatch()
      requires 0 < nFree && nFree + |marks| == size
      requires nextFree < size
      modifies this`nextFree
      ensures nextFree < size && nextFree !in marks
      ensures IsNextClear(size, marks, old(nextFree), nextFree)
    {
      var j := nextFree + 1;
      for i := 0 to size
        invariant nextFree == old(nextFree)
        invariant i < size ==> j == ScanAt(size, nextFree, i) || (j == size && ScanAt(size, nextFree, i) == 0)
        invariant forall e: nat :: e < i ==> ScanAt(size, nextFree, e) in marks
      {
        if j >= size {
          j := 0;
        }
        var taken := IsMarked(j);
        if !taken {
          nextFree := j;
          return;
        }
        j := j + 1;
      }
      AllMarked(size, marks, nextFree);
      assert false;
    }

    /** Freeing an address inside a live block frees that block; any other address does nothing. */
    method Free(addr: nat)
      requires Valid()
      modifies this`nFree, this`nextFree, this`marks, this`live, this`bitfield
      ensures Valid()
      ensures live == if InPool(addr) then old(live) - {BlockStart(addr)} else old(live)
    {
      var poolStart := mzAddr + poolOffset;
      var poolEnd := mzAddr + poolOffset + size * elemSize;
      if addr < poolStart || addr >= poolEnd {
        return;
      }
      var i := (addr - poolStart) / elemSize;
      IndexBound(addr - poolStart, size, elemSize);
      BlockAddress(i);
      assert i == IndexOf(addr) && (BlockStart(addr) in live <==> Held(BlockStart(addr)));
      var taken := IsMarked(i);
      if !taken {
        return;
      }
      Release(i, BlockStart(addr));
    }

    // The bookkeeping of Free; a full pool has a stale cursor, which is replaced here.
    method Release(i: nat, ghost start: nat)
      requires Valid() && i in marks
      requires InPool(start) && start == Block(PoolStart(), elemSize, i)
      modifies this`nFree, this`nextFree, this`marks, this`live, this`bitfield
      ensures Valid()
      ensures live == old(live) - {start}
    {
      BlockAddress(i);
      assert Held(start);
      Unmark(i);
      live := live - {start};
      nFree := nFree + 1;
      if nFree == 1 {
        nextFree := i;
      }
      forall a: nat
        ensures a in live <==> Held(a)
      {
        assert a in old(live) <==> old(Held(a));
      }
    }

    /** In a layout that keeps blocks apart all live blocks are apart, in every state of the pool;
        and a full pool needs such a layout. */
    lemma LiveBlocksApart(layout: Layout, request: nat)
      requires Valid() && HasLayout(layout)
      ensures HoldsBlocks(layout, size, request) ==> HoldsLive(layout.reserved, request)
      ensures |live| == size && HoldsLive(layout.reserved, request) ==> HoldsBlocks(layout, size, request)
    {
      if HoldsBlocks(layout, size, request) {
        forall a | a in live
          ensures mzAddr + WordsEnd(size) <= a && a + request <= mzAddr + layout.reserved
          ensures forall b :: b in live && a < b ==> a + request <= b
        {
          LiveIsBlock(layout, a);
          forall b | b in live && a < b
            ensures a + request <= b
          {
            LiveIsBlock(layout, b);
            BlocksInOrder(layout, IndexOf(a), IndexOf(b));
          }
        }
      }
      if |live| == size && HoldsLive(layout.reserved, request) {
        FullHoldsBlocks(layout, request);
      }
    }

    // A live address is its block of the layout, counted from the start of the zone.
    lemma LiveIsBlock(layout: Layout, a: nat)
      requires Valid() && HasLayout(layout) && a in live
      ensures InPool(a) && IndexOf(a) < size
      ensures a == mzAddr + Block(layout.poolOffset, layout.elemSize, IndexOf(a))
    {
      LiveAddress(a);
      assert Held(a);
    }

    lemma BlocksInOrder(layout: Layout, i: nat, j: nat)
      requires Block(layout.poolOffset, layout.elemSize, i) < Block(layout.poolOffset, layout.elemSize, j)
      ensures i < j
    {
      if j <= i {
        MulSum(j, i - j, layout.elemSize);
        assert false;
      }
    }

    lemma FullHoldsBlocks(layout: Layout, request: nat)
      requires Valid() && HasLayout(layout) && |live| == size && HoldsLive(layout.reserved, request)
      ensures HoldsBlocks(layout, size, request)
    {
      forall i: nat | i < size
        ensures mzAddr + Block(layout.poolOffset, layout.elemSize, i) in live
      {
        AllTaken(i);
        BlockAddress(i);
        assert Held(Block(PoolStart(), elemSize, i));
      }
      forall i: nat, j: nat | i < j < size
        ensures Block(layout.poolOffset, layout.elemSize, i) + request <=
                Block(layout.poolOffset, layout.elemSize, j)
      {
        MulSum(i, j - i, layout.elemSize);
        assert mzAddr + Block(layout.poolOffset, layout.elemSize, i) in live;
        assert mzAddr + Block(layout.poolOffset, layout.elemSize, j) in live;
      }
      forall i: nat | i < size
        ensures WordsEnd(size) <= Block(layout.poolOffset, layout.elemSize, i)
        ensures Block(layout.poolOffset, layout.elemSize, i) + request <= layout.reserved
      {
        assert mzAddr + Block(layout.poolOffset, layout.elemSize, i) in live;
      }
    }

    // In a full pool every bit is set.
    lemma AllTaken(i: nat)
      requires Valid() && |live| == size && i < size
      ensures i in marks
    {
      if i !in marks {
        assert marks <= Below(size) - {i};
        SubsetCount(marks, Below(size) - {i});
        assert false;
      }
    }

    /** With the documented sizes the live blocks lie inside the zone, behind the bit field and
        apart from each other, in every state of the pool. */
    lemma DocumentedPoolHolds(request: nat)
      requires Valid() && request > 0 && HasLayout(LayoutAsDocumented(size, request))
      ensures HoldsLive(LayoutAsDocumented(size, request).reserved, request)
    {
      DocumentedLayoutHolds(size, request);
      LiveBlocksApart(LayoutAsDocumented(size, request), request);
    }

    /** With the sizes as written a full pool is sound exactly in the two cases of the layout. */
    lemma WrittenPoolHolds(request: nat)
      requires Valid() && request > 0 && HasLayout(LayoutAsWritten(size, request)) && |live| == size
      ensures HoldsLive(LayoutAsWritten(size, request).reserved, request) <==>
              size == 0 || (request == 1 && 4 * CeilDiv(size, 32) <= size / 8 + 1)
    {
      WrittenLayoutHolds(size, request);
      LiveBlocksApart(LayoutAsWritten(size, request), request);
    }

    /** A live address is the start of its own block. */
    lemma LiveAddress(addr: nat)
      requires Valid() && addr in live
      ensures InPool(addr) && BlockStart(addr) == addr
    {
      assert Held(addr);
    }

    method IsMarked(k: nat) returns (marked: bool)
      requires BitsMatch() && k < size
      ensures marked <==> k in marks
    {
      assert TestBit(bitfield, k) <==> k in marks;
      marked := Has(bitfield[k / 32], k % 32);
    }

    method Mark(k: nat)
      requires BitsMatch() && k < size
      modifies this`bitfield, this`marks
      ensures BitsMatch() && marks == old(marks) + {k}
    {
      ghost var words := bitfield;
      bitfield := bitfield[k / 32 := bitfield[k / 32] | Mask(k % 32)];
      assert bitfield == SetBit(words, k);
      marks := marks + {k};
      SetAllTests(words, k, size);
    }

    method Unmark(k: nat)
      requires BitsMatch() && k < size
      modifies this`bitfield, this`marks
      ensures BitsMatch() && marks == old(marks) - {k}
    {
      ghost var words := bitfield;
      bitfield := bitfield[k / 32 := bitfield[k / 32] & !Mask(k % 32)];
      assert bitfield == ClearBit(words, k);
      marks := marks - {k};
      ClearAllTests(words, k, size);
    }
  }

  lemma SetAllTests(words: Words, k: nat, size: nat)
    requires k < size <= 32 * |words|
    ensures forall j: nat {:trigger TestBit(SetBit(words, k), j)} ::
              j < size ==> TestBit(SetBit(words, k), j) == (j == k || TestBit(words, j))
  {
    forall j: nat | j < size
      ensures TestBit(SetBit(words, k), j) == (j == k || TestBit(words, j))
    {
      SetBitTests(words, k, j);
    }
  }

  lemma ClearAllTests(words: Words, k: nat, size: nat)
    requires k < size <= 32 * |words|
    ensures forall j: nat {:trigger TestBit(ClearBit(words, k), j)} ::
              j < size ==> TestBit(ClearBit(words, k), j) == (j != k && TestBit(words, j))
  {
    forall j: nat | j < size
      ensures TestBit(ClearBit(words, k), j) == (j != k && TestBit(words, j))
    {
      ClearBitTests(words, k, j);
    }
  }

  // `next` is the first block outside `marks` that the wrap-around scan after `from` meets.
  ghost predicate IsNextClear(size: nat, marks: set<nat>, from: nat, next: nat) {
    from < size &&
    exists d: nat :: d < size && next == ScanAt(size, from, d) && next !in marks &&
      forall e: nat :: e < d ==> ScanAt(size, from, e) in marks
  }

  lemma ZeroWords(words: Words, size: nat)
    requires size <= 32 * |words|
    requires forall k :: 0 <= k < |words| ==> words[k] == 0
    ensures forall k: nat :: k < size ==> !TestBit(words, k)
  {
  }

  lemma AllMarked(size: nat, marks: set<nat>, from: nat)
    requires from < size
    requires forall e: nat :: e < size ==> ScanAt(size, from, e) in marks
    ensures |marks| >= size
  {
    forall i: nat | i < size
      ensures i in marks
    {
      var d := ScanCoversAll(size, from, i);
    }
    SubsetCount(Below(size), marks);
  }

  lemma BlockInside(k: nat, size: nat, stride: nat)
    requires k < size
    ensures k * stride + stride <= size * stride
  {
    MulSum(k, 1, stride);
    MulSum(k + 1, size - k - 1, stride);
  }

  lemma IndexBound(offset: nat, size: nat, stride: nat)
    requires stride > 0 && offset < size * stride
    ensures offset / stride < size
  {
    var q := offset / stride;
    assert offset == q * stride + offset % stride;
    if q >= size {
      MulSum(size, q - size, stride);
      assert false;
    }
  }

  // ---------------------------------------------------------------- layout of the memory zone

  // sizeof(struct allocator): five 32-bit unsigned fields
  const HEADER: nat := 20

  datatype Layout = Layout(elemSize: nat, poolOffset: nat, reserved: nat)

  function CeilDiv(a: nat, b: nat): nat
    requires b > 0
  {
    (a + b - 1) / b
  }

  // What udpdk_init_allocator computes: the two divisions round up but are never multiplied back.
  function LayoutAsWritten(size: nat, elemSize: nat): (layout: Layout)
    requires elemSize > 0
    ensures layout.elemSize > 0
  {
    var stride := CeilDiv(elemSize, 64);
    assert (elemSize + 63) / 64 >= 1;
    var offset := CeilDiv(HEADER + (size / 8 + 1), stride);
    Layout(stride, offset, offset + size * stride)
  }

  function Low32(x: nat): nat {
    x % 0x1_0000_0000
  }

  // The same with every sum and product in 32 unsigned bits.
  function LayoutIn32Bits(size: nat, elemSize: nat): Option<Layout> {
    var stride := Low32(elemSize + 64 - 1) / 64;
    if stride == 0 then None  // a division by zero
    else
      var needed := Low32(HEADER + (size / 8 + 1));
      var offset := Low32(needed + stride - 1) / stride;
      Some(Layout(stride, offset, Low32(offset + Low32(size * stride))))
  }

  lemma Low32Small(x: nat)
    requires x < 0x1_0000_0000
    ensures Low32(x) == x
  {
  }

  lemma StrideSmall(elemSize: nat)
    requires elemSize > 0
    ensures 1 <= CeilDiv(elemSize, 64) <= elemSize
  {
  }

  /** As long as no sum is too large for 32 bits nothing wraps around. */
  lemma LayoutDoesNotWrap(size: nat, elemSize: nat)
    requires elemSize > 0 && elemSize + 64 - 1 < 0x1_0000_0000
    requires HEADER + (size / 8 + 1) + elemSize < 0x1_0000_0000
    requires LayoutAsWritten(size, elemSize).reserved < 0x1_0000_0000
    ensures LayoutIn32Bits(size, elemSize) == Some(LayoutAsWritten(size, elemSize))
  {
    StrideSmall(elemSize);
    Low32Small(elemSize + 64 - 1);
    assert Low32(elemSize + 64 - 1) / 64 == CeilDiv(elemSize, 64);
    LayoutWithStride(size, CeilDiv(elemSize, 64), HEADER + (size / 8 + 1), size * CeilDiv(elemSize, 64));
  }

  // The rest of it, for a given stride, bytes in front and bytes for blocks.
  lemma LayoutWithStride(size: nat, stride: nat, needed: nat, blocks: nat)
    requires stride > 0 && needed + stride - 1 < 0x1_0000_0000
    requires CeilDiv(needed, stride) + blocks < 0x1_0000_0000
    ensures Low32(needed) == needed && Low32(Low32(needed) + stride - 1) / stride == CeilDiv(needed, stride)
    ensures Low32(CeilDiv(needed, stride) + Low32(blocks)) == CeilDiv(needed, stride) + blocks
  {
    Low32Small(needed);
    Low32Small(needed + stride - 1);
    Low32Small(blocks);
    Low32Small(CeilDiv(needed, stride) + blocks);
  }

  /** It is so for the four pools of the engine: lists of 40 bytes, nodes of 24, iterators of 16 and
      bind_infos of 12. */
  lemma PoolsDoNotWrap()
    ensures LayoutIn32Bits(65536, 40) == Some(LayoutAsWritten(65536, 40))
    ensures LayoutIn32Bits(1024, 24) == Some(LayoutAsWritten(1024, 24))
    ensures LayoutIn32Bits(10, 16) == Some(LayoutAsWritten(10, 16))
    ensures LayoutIn32Bits(1024, 12) == Some(LayoutAsWritten(1024, 12))
  {
    LayoutDoesNotWrap(65536, 40);
    LayoutDoesNotWrap(1024, 24);
    LayoutDoesNotWrap(10, 16);
    LayoutDoesNotWrap(1024, 12);
  }

  /** Where the blocks of these pools are: a byte apart, where multiples of 64 were meant. */
  lemma PoolLayouts()
    ensures LayoutAsWritten(65536, 40) == Layout(1, 8213, 73749)
    ensures LayoutAsWritten(1024, 24) == LayoutAsWritten(1024, 12) == Layout(1, 149, 1173)
    ensures LayoutAsWritten(10, 16) == Layout(1, 22, 32)
    ensures LayoutAsDocumented(65536, 40) == Layout(64, 8256, 4202560)
    ensures LayoutAsDocumented(1024, 24) == LayoutAsDocumented(1024, 12) == Layout(64, 192, 65728)
    ensures LayoutAsDocumented(10, 16) == Layout(64, 64, 704)
  {
    assert CeilDiv(8213, 64) == 129 && CeilDiv(149, 64) == 3 && CeilDiv(22, 64) == 1;
  }

  // What its comments describe: multiples of the cache line and of the element size.
  function LayoutAsDocumented(size: nat, elemSize: nat): (layout: Layout)
    requires elemSize > 0
  {
    var stride := CeilDiv(elemSize, 64) * 64;
    assert (elemSize + 63) / 64 >= 1;
    var offset := CeilDiv(HEADER + (size / 8 + 1), stride) * stride;
    Layout(stride, offset, offset + size * stride)
  }

  // The 32-bit words that the bit macros touch for the bits 0..size-1 end here.
  function WordsEnd(size: nat): nat {
    HEADER + 4 * CeilDiv(size, 32)
  }

  // Every block can hold `request` bytes: inside the zone, behind the bit field, apart from
  // every other block.
  ghost predicate HoldsBlocks(layout: Layout, size: nat, request: nat) {
    && (forall i: nat :: i < size ==>
          WordsEnd(size) <= Block(layout.poolOffset, layout.elemSize, i) &&
          Block(layout.poolOffset, layout.elemSize, i) + request <= layout.reserved)
    && (forall i: nat, j: nat :: i < j < size ==>
          Block(layout.poolOffset, layout.elemSize, i) + request <=
          Block(layout.poolOffset, layout.elemSize, j))
  }

  lemma CeilDivBounds(a: nat, b: nat)
    requires b > 0
    ensures a <= CeilDiv(a, b) * b < a + b
  {
    var q, r := (a + b - 1) / b, (a + b - 1) % b;
    assert a + b - 1 == q * b + r;
  }

  // Blocks of the right size, behind the bit field.
  lemma SpacedLayoutHolds(layout: Layout, size: nat, request: nat)
    requires request <= layout.elemSize && WordsEnd(size) <= layout.poolOffset
    requires layout.reserved == layout.poolOffset + size * layout.elemSize
    ensures HoldsBlocks(layout, size, request)
  {
    forall i: nat | i < size
      ensures WordsEnd(size) <= Block(layout.poolOffset, layout.elemSize, i)
      ensures Block(layout.poolOffset, layout.elemSize, i) + request <= layout.reserved
    {
      NextBlock(layout, request, i, size);
    }
    forall i: nat, j: nat | i < j < size
      ensures Block(layout.poolOffset, layout.elemSize, i) + request <=
              Block(layout.poolOffset, layout.elemSize, j)
    {
      NextBlock(layout, request, i, j);
    }
  }

  // A block ends before every later one starts.
  lemma NextBlock(layout: Layout, request: nat, i: nat, j: nat)
    requires request <= layout.elemSize && i < j
    ensures layout.poolOffset <= Block(layout.poolOffset, layout.elemSize, i)
    ensures Block(layout.poolOffset, layout.elemSize, i) + request <= Block(layout.poolOffset, layout.elemSize, j)
  {
    BlockInside(i, j, layout.elemSize);
  }

  /** The documented layout is sound for every pool. */
  lemma DocumentedLayoutHolds(size: nat, request: nat)
    requires request > 0
    ensures HoldsBlocks(LayoutAsDocumented(size, request), size, request)
  {
    CeilDivBounds(request, 64);
    DocumentedOffset(size, request);
    SpacedLayoutHolds(LayoutAsDocumented(size, request), size, request);
  }

  lemma DocumentedOffset(size: nat, request: nat)
    requires request > 0
    ensures WordsEnd(size) <= LayoutAsDocumented(size, request).poolOffset
  {
    var layout := LayoutAsDocumented(size, request);
    var c := CeilDiv(request, 64);
    var k := CeilDiv(HEADER + (size / 8 + 1), layout.elemSize);
    CeilDivBounds(HEADER + (size / 8 + 1), layout.elemSize);
    MultipleOf64(k, c);
    WordsFit(size, k * c);
  }

  lemma MultipleOf64(k: nat, c: nat)
    ensures k * (c * 64) == 64 * (k * c)
  {
  }

  lemma WordsFit(size: nat, m: nat)
    requires HEADER + (size / 8 + 1) <= 64 * m
    ensures WordsEnd(size) <= 64 * m
  {
  }

  /** The layout as written is sound exactly for empty pools and for one-byte blocks whose bit
      field fits the bytes reserved for it. */
  lemma WrittenLayoutHolds(size: nat, request: nat)
    requires request > 0
    ensures HoldsBlocks(LayoutAsWritten(size, request), size, request) <==>
            size == 0 || (request == 1 && 4 * CeilDiv(size, 32) <= size / 8 + 1)
  {
    var layout := LayoutAsWritten(size, request);
    var stride := layout.elemSize;
    if size > 0 {
      if request == 1 {
        assert stride == 1 && layout.poolOffset == HEADER + (size / 8 + 1);
        assert Block(layout.poolOffset, stride, 0) == layout.poolOffset;
      } else {
        // the last block runs over the end of the zone
        assert stride < request;
        assert Block(layout.poolOffset, stride, size - 1) + stride == layout.reserved by {
          assert (size - 1) * stride + stride == size * stride;
        }
      }
    }
  }
}

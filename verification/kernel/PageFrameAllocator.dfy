/** kernel/src/Paging/PageFrameAllocator.cpp and GetMemorySize of kernel/src/memory.cpp: the
    allocator over real memory, each operation proved to take the step that FrameSpec gives it. */
module PageFrameAllocatorModel {
  import opened BitWords
  import opened Options
  import opened Ram
  import opened BitmapModel
  import opened FrameSpec

  /** The `uint64_t` address of page `t` after `address`; the sum wraps. */
  function PageAt(address: u64, t: nat): u64 {
    (address + t * 4096) % TWO_64
  }

  function FrameAt(address: u64, t: nat): nat {
    PageAt(address, t) / 4096
  }

  /** The ranges are counted by an `int t`, and `t * 4096` has to stay below 2^31. */
  const MAX_RANGE: nat := 0x8_0000

  datatype RangeKind = Locking | Freeing | Reserving | Unreserving

  function OpOf(kind: RangeKind, i: nat): Op {
    match kind
    case Locking => LockOp(i)
    case Freeing => FreeOp(i)
    case Reserving => ReserveOp(i)
    case Unreserving => UnreserveOp(i)
  }

  /** The single-page operations a range operation performs. */
  function RangeOps(kind: RangeKind, address: u64, pageCount: nat): (ops: seq<Op>)
    ensures |ops| == pageCount
  {
    if pageCount == 0 then []
    else RangeOps(kind, address, pageCount - 1) + [OpOf(kind, FrameAt(address, pageCount - 1))]
  }

  lemma {:induction false} RunAppend(s: Frames, ops: seq<Op>, op: Op)
    requires s.Valid()
    ensures Run(s, ops + [op]) == Step(Run(s, ops), op).0
    decreases |ops|
  {
    if ops == [] {
      assert Run(s, [op]) == Run(Step(s, op).0, []);
    } else {
      assert (ops + [op])[1..] == ops[1..] + [op];
      RunAppend(Step(s, ops[0]).0, ops[1..], op);
    }
  }

  lemma {:induction false} RunConcat(s: Frames, ops: seq<Op>, more: seq<Op>)
    requires s.Valid()
    ensures Run(s, ops + more) == Run(Run(s, ops), more)
    decreases |ops|
  {
    if ops == [] {
      assert ops + more == more;
    } else {
      assert (ops + more)[1..] == ops[1..] + more;
      RunConcat(Step(s, ops[0]).0, ops[1..], more);
    }
  }

  lemma RangeNext(s: Frames, kind: RangeKind, address: u64, t: nat)
    requires s.Valid()
    ensures Run(s, RangeOps(kind, address, 0)) == s
    ensures Run(s, RangeOps(kind, address, t + 1))
         == Step(Run(s, RangeOps(kind, address, t)), OpOf(kind, FrameAt(address, t))).0
  {
    RunAppend(s, RangeOps(kind, address, t), OpOf(kind, FrameAt(address, t)));
  }

  // ----- the memory map

  /** EFI_MEMORY_DESCRIPTOR; `kind` is its `type` field. */
  datatype Descriptor = Descriptor(kind: nat, physAddr: u64, numPages: u64)

  const CONVENTIONAL: nat := 7

  function SizeOf(d: Descriptor): u64 {
    d.numPages * 4096 % TWO_64
  }

  /** GetMemorySize's sum over the descriptors. */
  function MemorySize(mMap: seq<Descriptor>): u64 {
    if mMap == [] then 0 else Add64(MemorySize(mMap[..|mMap| - 1]), SizeOf(mMap[|mMap| - 1]))
  }

  /** The segment chosen for the bitmap: address and size of the largest conventional one. */
  function Largest(mMap: seq<Descriptor>): (r: (u64, u64)) {
    if mMap == [] then (0, 0)
    else
      var best, d := Largest(mMap[..|mMap| - 1]), mMap[|mMap| - 1];
      if d.kind == CONVENTIONAL && SizeOf(d) > best.1 then (d.physAddr, SizeOf(d)) else best
  }

  /** No conventional segment is larger than the chosen one, and the chosen one is the first
      of its size; address 0 is chosen only when no conventional segment has any pages. */
  lemma {:induction false} LargestIsFirstMaximum(mMap: seq<Descriptor>)
    ensures var (address, size) := Largest(mMap);
            && (forall d | d in mMap && d.kind == CONVENTIONAL :: SizeOf(d) <= size)
            && (if size == 0 then address == 0
                else exists i | 0 <= i < |mMap| ::
                       && mMap[i].kind == CONVENTIONAL && mMap[i].physAddr == address && SizeOf(mMap[i]) == size
                       && forall j | 0 <= j < i && mMap[j].kind == CONVENTIONAL :: SizeOf(mMap[j]) < size)
  {
    if mMap != [] {
      var n := |mMap| - 1;
      LargestIsFirstMaximum(mMap[..n]);
      var best := Largest(mMap[..n]);
      assert forall d | d in mMap :: d in mMap[..n] || d == mMap[n];
      if Largest(mMap) == best {
        if best.1 != 0 {
          var i :| 0 <= i < n && mMap[..n][i].kind == CONVENTIONAL && mMap[..n][i].physAddr == best.0
            && SizeOf(mMap[..n][i]) == best.1
            && forall j | 0 <= j < i && mMap[..n][j].kind == CONVENTIONAL :: SizeOf(mMap[..n][j]) < best.1;
          assert mMap[i] == mMap[..n][i];
          assert forall j | 0 <= j < i :: mMap[j] == mMap[..n][j];
        }
      } else {
        assert forall j | 0 <= j < n :: mMap[j] == mMap[..n][j] && mMap[j] in mMap[..n];
      }
    }
  }

  function BitmapSize(memorySize: u64): nat {
    memorySize / 4096 / 8 + 1
  }

  /** ReservePages for every descriptor that is not conventional memory. */
  function ReserveOps(mMap: seq<Descriptor>): seq<Op> {
    if mMap == [] then []
    else
      var d := mMap[|mMap| - 1];
      ReserveOps(mMap[..|mMap| - 1]) +
      (if d.kind != CONVENTIONAL then RangeOps(Reserving, d.physAddr, d.numPages) else [])
  }

  /** Everything ReadEFIMemoryMap does after clearing the bitmap. */
  function BootOps(mMap: seq<Descriptor>, memorySize: u64): seq<Op> {
    RangeOps(Locking, Largest(mMap).0, BitmapSize(memorySize) / 4096 + 1) + ReserveOps(mMap)
  }

  /** The cleared bitmap. InitBitmap writes Size bytes, so bit Size*8 keeps what memory held. */
  function Cleared(size: nat, stale: bool): (bits: seq<bool>)
    ensures |bits| == size * 8 + 1 && bits[size * 8] == stale && forall i | 0 <= i < size * 8 :: !bits[i]
  {
    seq(size * 8, _ => false) + [stale]
  }

  /** The allocator just after InitBitmap. */
  function Started(size: u64, stale: bool, used: u64, reserved: u64): Frames {
    Frames(Cleared(BitmapSize(size), stale), 0, size, used, reserved)
  }

  /** The allocator after ReadEFIMemoryMap, `m` being the memory before it. */
  ghost function Booted(mMap: seq<Descriptor>, size: u64, m: seq<byte>, used: u64, reserved: u64): Frames
    requires Largest(mMap).0 + BitmapSize(size) < |m|
  {
    Run(Started(size, BitAt(m, Largest(mMap).0, BitmapSize(size) * 8), used, reserved), BootOps(mMap, size))
  }

  class PageFrameAllocator {
    const ram: array<byte>
    const PageBitmap: Bitmap

    // the globals of PageFrameAllocator.cpp, and the static of GetMemorySize
    var freeMemory: u64
    var reservedMemory: u64
    var usedMemory: u64
    var Initialized: bool
    var pageBitmapIndex: nat
    var memorySizeBytes: u64

    constructor (ram: array<byte>)
      requires ram.Length > 0
      ensures Valid() && this.ram == ram && fresh(PageBitmap) && !Initialized
      ensures State().(bits := []) == Frames([], 0, 0, 0, 0) && |State().bits| == 1 && memorySizeBytes == 0
    {
      this.ram := ram;
      PageBitmap := new Bitmap(ram);
      freeMemory, reservedMemory, usedMemory := 0, 0, 0;
      Initialized, pageBitmapIndex, memorySizeBytes := false, 0, 0;
    }

    /** The bitmap lies in memory, the frames it describes have 52-bit addresses, and every
        frame below the hint is in use. */
    ghost predicate Valid()
      reads this, PageBitmap, ram
    {
      && PageBitmap.ram == ram
      && PageBitmap.Valid()
      && PageBitmap.Size < 0x8000_0000
      && HintSound(State())
      && (!Initialized ==> PageBitmap.Size == 0)
    }

    ghost function State(): Frames
      requires PageBitmap.Valid()
      reads this, PageBitmap, PageBitmap.ram
    {
      Frames(PageBitmap.Bits(), pageBitmapIndex, freeMemory, usedMemory, reservedMemory)
    }

    method FreePage(address: u64)
      requires Valid()
      modifies `freeMemory, `usedMemory, `pageBitmapIndex, ram
      ensures Valid() && State() == Free(old(State()), address / 4096)
      ensures SameOutside(old(ram[..]), ram[..], PageBitmap.Buffer, PageBitmap.Size + 1)
    {
      StepKeepsHint(State(), FreeOp(address / 4096));
      Unchanged(ram[..], PageBitmap.Buffer, PageBitmap.Size + 1);
      hide HintSound, SameOutside, BitsOf, Read;
      var index := address / 4096;
      var inUse := PageBitmap.Get(index);
      if inUse == false {
        return;
      }
      var done := PageBitmap.Set(index, false);
      if done {
        freeMemory := Add64(freeMemory, 4096);
        usedMemory := Sub64(usedMemory, 4096);
        if pageBitmapIndex > index {
          pageBitmapIndex := index;
        }
      }
    }

    method LockPage(address: u64)
      requires Valid()
      modifies `freeMemory, `usedMemory, ram
      ensures Valid() && State() == Lock(old(State()), address / 4096)
      ensures SameOutside(old(ram[..]), ram[..], PageBitmap.Buffer, PageBitmap.Size + 1)
      ensures SameOutside(old(ram[..]), ram[..], PageBitmap.Buffer, PageBitmap.Size)
              <==> !(address / 4096 == PageBitmap.Size * 8 && !old(State()).bits[PageBitmap.Size * 8])
    {
      StepKeepsHint(State(), LockOp(address / 4096));
      Unchanged(ram[..], PageBitmap.Buffer, PageBitmap.Size + 1);
      Unchanged(ram[..], PageBitmap.Buffer, PageBitmap.Size);
      hide HintSound, SameOutside, BitsOf, Read;
      var index := address / 4096;
      var inUse := PageBitmap.Get(index);
      if inUse == true {
        return;
      }
      var done := PageBitmap.Set(index, true);
      if done {
        freeMemory := Sub64(freeMemory, 4096);
        usedMemory := Add64(usedMemory, 4096);
      }
    }

    method UnreservePage(address: u64)
      requires Valid()
      modifies `freeMemory, `reservedMemory, `pageBitmapIndex, ram
      ensures Valid() && State() == Unreserve(old(State()), address / 4096)
      ensures SameOutside(old(ram[..]), ram[..], PageBitmap.Buffer, PageBitmap.Size + 1)
    {
      StepKeepsHint(State(), UnreserveOp(address / 4096));
      Unchanged(ram[..], PageBitmap.Buffer, PageBitmap.Size + 1);
      hide HintSound, SameOutside, BitsOf, Read;
      var index := address / 4096;
      var inUse := PageBitmap.Get(index);
      if inUse == false {
        return;
      }
      var done := PageBitmap.Set(index, false);
      if done {
        freeMemory := Add64(freeMemory, 4096);
        reservedMemory := Sub64(reservedMemory, 4096);
        if pageBitmapIndex > index {
          pageBitmapIndex := index;
        }
      }
    }

    method ReservePage(address: u64)
      requires Valid()
      modifies `freeMemory, `reservedMemory, ram
      ensures Valid() && State() == Reserve(old(State()), address / 4096)
      ensures SameOutside(old(ram[..]), ram[..], PageBitmap.Buffer, PageBitmap.Size + 1)
    {
      StepKeepsHint(State(), ReserveOp(address / 4096));
      Unchanged(ram[..], PageBitmap.Buffer, PageBitmap.Size + 1);
      hide HintSound, SameOutside, BitsOf, Read;
      var index := address / 4096;
      var inUse := PageBitmap.Get(index);
      if inUse == true {
        return;
      }
      var done := PageBitmap.Set(index, true);
      if done {
        freeMemory := Sub64(freeMemory, 4096);
        reservedMemory := Add64(reservedMemory, 4096);
      }
    }

    /** The address of the frame handed out, or NULL; NullMeansNoneIff says when to believe it. */
    method RequestPage() returns (page: u64)
      requires Valid()
      modifies `freeMemory, `usedMemory, `pageBitmapIndex, ram
      ensures Valid() && State() == Request(old(State())).0
      ensures page == AddressOf(Request(old(State())).1)
      ensures SameOutside(old(ram[..]), ram[..], PageBitmap.Buffer, PageBitmap.Size + 1)
    {
      hide HintSound, Scan, SameOutside;
      ghost var s := State();
      ScanIsSound(s);
      while pageBitmapIndex < PageBitmap.Size * 8
        invariant s.hint <= pageBitmapIndex <= s.Limit()
        invariant ram[..] == old(ram[..]) && PageBitmap.Bits() == s.bits
        invariant freeMemory == s.free && usedMemory == s.used
        invariant Scan(s.bits, s.hint, s.Limit()) == Scan(s.bits, pageBitmapIndex, s.Limit())
      {
        ScanStep(s.bits, pageBitmapIndex, s.Limit());
        var inUse := PageBitmap.Get(pageBitmapIndex);
        if inUse {
          pageBitmapIndex := pageBitmapIndex + 1;
          continue;
        }
        assert State() == s.(hint := Scan(s.bits, s.hint, s.Limit()));
        LockPage(pageBitmapIndex * 4096);
        return pageBitmapIndex * 4096;
      }
      page := 0;
      ScanStep(s.bits, s.Limit(), s.Limit());
      assert State() == s.(hint := Scan(s.bits, s.hint, s.Limit()));
      Unchanged(old(ram[..]), PageBitmap.Buffer, PageBitmap.Size + 1);
    }

    method FreePages(address: u64, pageCount: nat)
      requires Valid() && pageCount <= MAX_RANGE
      modifies `freeMemory, `usedMemory, `pageBitmapIndex, ram
      ensures Valid() && State() == Run(old(State()), RangeOps(Freeing, address, pageCount))
      ensures SameOutside(old(ram[..]), ram[..], PageBitmap.Buffer, PageBitmap.Size + 1)
    {
      ghost var s, m := State(), ram[..];
      assert s.Valid();
      RangeNext(s, Freeing, address, 0);
      Unchanged(m, PageBitmap.Buffer, PageBitmap.Size + 1);
      hide HintSound, SameOutside, Run, RangeOps, PageAt;
      for t := 0 to pageCount
        invariant Valid() && State() == Run(s, RangeOps(Freeing, address, t))
        invariant SameOutside(m, ram[..], PageBitmap.Buffer, PageBitmap.Size + 1)
      {
        ghost var m1 := ram[..];
        RangeNext(s, Freeing, address, t);
        FreePage(PageAt(address, t));
        OutsideTwice(m, m1, ram[..], PageBitmap.Buffer, PageBitmap.Size + 1);
      }
    }

    method LockPages(address: u64, pageCount: nat)
      requires Valid() && pageCount <= MAX_RANGE
      modifies `freeMemory, `usedMemory, ram
      ensures Valid() && State() == Run(old(State()), RangeOps(Locking, address, pageCount))
      ensures SameOutside(old(ram[..]), ram[..], PageBitmap.Buffer, PageBitmap.Size + 1)
    {
      ghost var s, m := State(), ram[..];
      assert s.Valid();
      RangeNext(s, Locking, address, 0);
      Unchanged(m, PageBitmap.Buffer, PageBitmap.Size + 1);
      hide HintSound, SameOutside, Run, RangeOps, PageAt;
      for t := 0 to pageCount
        invariant Valid() && State() == Run(s, RangeOps(Locking, address, t))
        invariant SameOutside(m, ram[..], PageBitmap.Buffer, PageBitmap.Size + 1)
      {
        ghost var m1 := ram[..];
        RangeNext(s, Locking, address, t);
        LockPage(PageAt(address, t));
        OutsideTwice(m, m1, ram[..], PageBitmap.Buffer, PageBitmap.Size + 1);
      }
    }

    method UnreservePages(address: u64, pageCount: nat)
      requires Valid() && pageCount <= MAX_RANGE
      modifies `freeMemory, `reservedMemory, `pageBitmapIndex, ram
      ensures Valid() && State() == Run(old(State()), RangeOps(Unreserving, address, pageCount))
      ensures SameOutside(old(ram[..]), ram[..], PageBitmap.Buffer, PageBitmap.Size + 1)
    {
      ghost var s, m := State(), ram[..];
      assert s.Valid();
      RangeNext(s, Unreserving, address, 0);
      Unchanged(m, PageBitmap.Buffer, PageBitmap.Size + 1);
      hide HintSound, SameOutside, Run, RangeOps, PageAt;
      for t := 0 to pageCount
        invariant Valid() && State() == Run(s, RangeOps(Unreserving, address, t))
        invariant SameOutside(m, ram[..], PageBitmap.Buffer, PageBitmap.Size + 1)
      {
        ghost var m1 := ram[..];
        RangeNext(s, Unreserving, address, t);
        UnreservePage(PageAt(address, t));
        OutsideTwice(m, m1, ram[..], PageBitmap.Buffer, PageBitmap.Size + 1);
      }
    }

    method ReservePages(address: u64, pageCount: nat)
      requires Valid() && pageCount <= MAX_RANGE
      modifies `freeMemory, `reservedMemory, ram
      ensures Valid() && State() == Run(old(State()), RangeOps(Reserving, address, pageCount))
      ensures SameOutside(old(ram[..]), ram[..], PageBitmap.Buffer, PageBitmap.Size + 1)
    {
      ghost var s, m := State(), ram[..];
      assert s.Valid();
      RangeNext(s, Reserving, address, 0);
      Unchanged(m, PageBitmap.Buffer, PageBitmap.Size + 1);
      hide HintSound, SameOutside, Run, RangeOps, PageAt;
      for t := 0 to pageCount
        invariant Valid() && State() == Run(s, RangeOps(Reserving, address, t))
        invariant SameOutside(m, ram[..], PageBitmap.Buffer, PageBitmap.Size + 1)
      {
        ghost var m1 := ram[..];
        RangeNext(s, Reserving, address, t);
        ReservePage(PageAt(address, t));
        OutsideTwice(m, m1, ram[..], PageBitmap.Buffer, PageBitmap.Size + 1);
      }
    }

    /** The sum is computed on the first call and remembered; a zero sum is not remembered. */
    method GetMemorySize(mMap: seq<Descriptor>) returns (size: u64)
      modifies `memorySizeBytes
      ensures size == memorySizeBytes == if old(memorySizeBytes) > 0 then old(memorySizeBytes) else MemorySize(mMap)
    {
      if memorySizeBytes > 0 {
        return memorySizeBytes;
      }
      for i := 0 to |mMap|
        invariant memorySizeBytes == MemorySize(mMap[..i])
      {
        var desc := mMap[i];
        assert mMap[..i + 1][..i] == mMap[..i];
        memorySizeBytes := Add64(memorySizeBytes, desc.numPages * 4096 % TWO_64);
      }
      assert mMap[..|mMap|] == mMap;
      size := memorySizeBytes;
    }

    method InitBitmap(bitmapSize: nat, bufferAddress: nat)
      requires PageBitmap.ram == ram && bufferAddress + bitmapSize < ram.Length
      modifies PageBitmap, ram
      ensures PageBitmap.Valid() && PageBitmap.Size == bitmapSize && PageBitmap.Buffer == bufferAddress
      ensures PageBitmap.Bits() == Cleared(bitmapSize, BitAt(old(ram[..]), bufferAddress, bitmapSize * 8))
      ensures SameOutside(old(ram[..]), ram[..], bufferAddress, bitmapSize)
    {
      PageBitmap.Size := bitmapSize;
      PageBitmap.Buffer := bufferAddress;
      for i := 0 to bitmapSize
        invariant PageBitmap.Size == bitmapSize && PageBitmap.Buffer == bufferAddress
        invariant forall b | 0 <= b < ram.Length ::
            ram[b] == if bufferAddress <= b < bufferAddress + i then 0 else old(ram[b])
      {
        ram[PageBitmap.Buffer + i] := 0;
      }
      assert PageBitmap.Bits() == Cleared(bitmapSize, BitAt(old(ram[..]), bufferAddress, bitmapSize * 8));
    }

    /** What GetMemorySize will return. */
    ghost function SizeToReport(mMap: seq<Descriptor>): u64
      reads this
    {
      if memorySizeBytes > 0 then memorySizeBytes else MemorySize(mMap)
    }

    ghost predicate CanRead(mMap: seq<Descriptor>)
      reads this
    {
      && BitmapSize(SizeToReport(mMap)) < 0x8000_0000
      && Largest(mMap).0 + BitmapSize(SizeToReport(mMap)) < ram.Length
      && forall d | d in mMap && d.kind != CONVENTIONAL :: d.numPages <= MAX_RANGE
    }

    /** Once: the second and later calls do nothing. */
    method ReadEFIMemoryMap(mMap: seq<Descriptor>)
      requires Valid() && (!Initialized ==> CanRead(mMap))
      modifies this, PageBitmap, ram
      ensures Valid() && Initialized
      ensures old(Initialized) ==>
                State() == old(State()) && ram[..] == old(ram[..]) && memorySizeBytes == old(memorySizeBytes)
                && PageBitmap.Size == old(PageBitmap.Size) && PageBitmap.Buffer == old(PageBitmap.Buffer)
      ensures !old(Initialized) ==> memorySizeBytes == old(SizeToReport(mMap))
      ensures !old(Initialized) ==>
                PageBitmap.Buffer == Largest(mMap).0 && PageBitmap.Size == BitmapSize(memorySizeBytes)
      ensures !old(Initialized) ==>
                State() == Booted(mMap, memorySizeBytes, old(ram[..]), old(usedMemory), old(reservedMemory))
      ensures !old(Initialized) ==> SameOutside(old(ram[..]), ram[..], PageBitmap.Buffer, PageBitmap.Size + 1)
    {
      if !Initialized {
        ReadOnce(mMap);
      }
    }

    method ReadOnce(mMap: seq<Descriptor>)
      requires Valid() && !Initialized && CanRead(mMap)
      modifies this, PageBitmap, ram
      ensures Valid() && Initialized
      ensures memorySizeBytes == old(SizeToReport(mMap))
      ensures PageBitmap.Buffer == Largest(mMap).0 && PageBitmap.Size == BitmapSize(memorySizeBytes)
      ensures State() == Booted(mMap, memorySizeBytes, old(ram[..]), old(usedMemory), old(reservedMemory))
      ensures SameOutside(old(ram[..]), ram[..], PageBitmap.Buffer, PageBitmap.Size + 1)
    {
      hide Largest, RangeOps, ReserveOps, Run, Started, MemorySize, SameOutside;
      Initialized := true;
      var largestFreeMemSeg := FindLargest(mMap);
      PlaceBitmap(mMap, largestFreeMemSeg);
      ghost var start, m1 := State(), ram[..];
      LockPages(PageBitmap.Buffer, PageBitmap.Size / 4096 + 1);
      ghost var m2 := ram[..];
      ReserveUnusable(mMap);
      RunConcat(start, RangeOps(Locking, Largest(mMap).0, PageBitmap.Size / 4096 + 1), ReserveOps(mMap));
      OutsideTwice(old(ram[..]), m1, m2, PageBitmap.Buffer, PageBitmap.Size + 1);
      OutsideTwice(old(ram[..]), m2, ram[..], PageBitmap.Buffer, PageBitmap.Size + 1);
    }

    /** The statements of ReadEFIMemoryMap between its two loops, up to InitBitmap. */
    method PlaceBitmap(mMap: seq<Descriptor>, largestFreeMemSeg: u64)
      requires PageBitmap.ram == ram && Initialized && pageBitmapIndex == 0
      requires CanRead(mMap) && largestFreeMemSeg == Largest(mMap).0
      modifies `memorySizeBytes, `freeMemory, PageBitmap, ram
      ensures Valid() && memorySizeBytes == old(SizeToReport(mMap))
      ensures PageBitmap.Buffer == largestFreeMemSeg && PageBitmap.Size == BitmapSize(memorySizeBytes)
      ensures State() == Started(memorySizeBytes, BitAt(old(ram[..]), largestFreeMemSeg, PageBitmap.Size * 8),
                                 usedMemory, reservedMemory)
      ensures SameOutside(old(ram[..]), ram[..], PageBitmap.Buffer, PageBitmap.Size + 1)
    {
      var memorySize := GetMemorySize(mMap);
      freeMemory := memorySize;
      var bitmapSize := memorySize / 4096 / 8 + 1;
      InitBitmap(bitmapSize, largestFreeMemSeg);
    }

    /** The first loop of ReadEFIMemoryMap. */
    method FindLargest(mMap: seq<Descriptor>) returns (largestFreeMemSeg: u64)
      ensures largestFreeMemSeg == Largest(mMap).0
    {
      var largestFreeMemSegSize: u64 := 0;
      largestFreeMemSeg := 0;
      for i := 0 to |mMap|
        invariant (largestFreeMemSeg, largestFreeMemSegSize) == Largest(mMap[..i])
      {
        var desc := mMap[i];
        assert mMap[..i + 1][..i] == mMap[..i];
        if desc.kind == 7 {
          if desc.numPages * 4096 % TWO_64 > largestFreeMemSegSize {
            largestFreeMemSeg := desc.physAddr;
            largestFreeMemSegSize := desc.numPages * 4096 % TWO_64;
          }
        }
      }
      assert mMap[..|mMap|] == mMap;
    }

    /** The second loop of ReadEFIMemoryMap. */
    method ReserveUnusable(mMap: seq<Descriptor>)
      requires Valid()
      requires forall d | d in mMap && d.kind != CONVENTIONAL :: d.numPages <= MAX_RANGE
      modifies `freeMemory, `reservedMemory, ram
      ensures Valid() && State() == Run(old(State()), ReserveOps(mMap))
      ensures SameOutside(old(ram[..]), ram[..], PageBitmap.Buffer, PageBitmap.Size + 1)
    {
      for i := 0 to |mMap|
        invariant Valid() && State() == Run(old(State()), ReserveOps(mMap[..i]))
        invariant SameOutside(old(ram[..]), ram[..], PageBitmap.Buffer, PageBitmap.Size + 1)
      {
        var desc := mMap[i];
        assert mMap[..i + 1][..i] == mMap[..i];
        if desc.kind != 7 {
          ReservePages(desc.physAddr, desc.numPages);
          RunConcat(old(State()), ReserveOps(mMap[..i]), RangeOps(Reserving, desc.physAddr, desc.numPages));
        } else {
          assert ReserveOps(mMap[..i + 1]) == ReserveOps(mMap[..i]);
        }
      }
      assert mMap[..|mMap|] == mMap;
    }
  }
}

/** PrepareMemory of kernel/src/kernelUtil.cpp: the allocator is set up from the memory map, the
    kernel is locked, a PML4 is made, and all memory and the framebuffer are identity-mapped. */
module PrepareMemoryModel {
  import opened BitWords
  import opened Options
  import opened Ram
  import opened PageEntry
  import opened PageTree
  import opened FrameSpec
  import opened PageFrameAllocatorModel
  import opened PageTableManagerModel
  import opened BootMap
  import opened KernelRuns
  import opened IdentityMapModel

  // ----- a page-aligned bitmap is out of the way of every free frame

  lemma BootedApart(mMap: seq<Descriptor>, size: u64, m: seq<byte>, i: nat)
    requires Largest(mMap).0 + BitmapSize(size) < |m| && Largest(mMap).0 % PAGE == 0
    requires Largest(mMap).0 + BitmapSize(size) + PAGE <= TWO_64
    requires i < BitmapSize(size) * 8 && !Booted(mMap, size, m, 0, 0).bits[i]
    ensures Apart(i, Largest(mMap).0, BitmapSize(size))
  {
    hide Booted, Unusable, Covers, Largest, BitmapSize;
    BootedBits(mMap, size, m, 0, 0, i);
    CoversInterval(Largest(mMap).0, BitmapSize(size) / 4096 + 1, i);
    ApartFromBitmap(Largest(mMap).0, BitmapSize(size), i);
  }

  lemma ApartFromBitmap(buffer: nat, size: nat, i: nat)
    requires buffer % PAGE == 0
    requires !(buffer / 4096 <= i < buffer / 4096 + (size / 4096 + 1))
    ensures Apart(i, buffer, size)
  {
  }

  // ----- the first table

  /** A PML4 of zeros maps nothing. */
  lemma EmptyTree(m: seq<byte>, root: nat, q: Path)
    requires root * PAGE + PAGE <= |m| && forall b | root * PAGE <= b < root * PAGE + PAGE :: m[b] == 0
    ensures q != [] ==> Node(m, root, q).None?
    decreases |q|
  {
    if q != [] {
      EmptyTree(m, root, q[..|q| - 1]);
      if |q| == 1 {
        ZeroEntry(m, root, q[0]);
        ZeroBit(PRESENT);
      }
    }
  }

  lemma EmptyWorld(w: World)
    requires HintSound(w.s) && FreeClear(w.s.bits, w.buffer, w.size)
    requires w.root < |w.s.bits| - 1 && w.s.bits[w.root] && Clear(w.m, w.root, w.buffer, w.size)
    requires forall b | w.root * PAGE <= b < w.root * PAGE + PAGE :: w.m[b] == 0
    ensures Healthy(w) && Identity(w.m, w.root, iset{}) && Plain(w.m, w.root)
    ensures forall f: nat | IsTable(w.m, w.root, f) :: f == w.root
  {
    forall q: Path | q != []
      ensures Node(w.m, w.root, q).None?
    {
      EmptyTree(w.m, w.root, q);
    }
    forall p: Path, k: nat | |p| <= 3 && Node(w.m, w.root, p).Some?
      ensures Entry(w.m, Node(w.m, w.root, p).value, k) == 0 && !Bit(Entry(w.m, Node(w.m, w.root, p).value, k), PRESENT)
    {
      ZeroEntry(w.m, w.root, k);
      ZeroBit(PRESENT);
    }
  }

  /** The frame handed out for the PML4 may be any that was free. */
  lemma RootTaken(s: Frames, m: seq<byte>, buffer: nat, size: nat)
    requires HintSound(s) && Supply(s, |m| / PAGE) > 0 && FreeClear(s.bits, buffer, size)
    ensures s.Valid() && Request(s).1.Some? && HintSound(Request(s).0)
    ensures var g := Request(s).1.value;
            && g < |s.bits| - 1 && !s.bits[g] && Request(s).0.bits == s.bits[g := true]
            && Clear(m, g, buffer, size)
  {
    RequestTakesOne(s, |m| / PAGE);
  }

  method MakePML4(allocator: PageFrameAllocator) returns (manager: PageTableManager)
    requires allocator.Valid() && Supply(allocator.State(), allocator.ram.Length / PAGE) > 0
    requires FreeClear(allocator.State().bits, allocator.PageBitmap.Buffer, allocator.PageBitmap.Size)
    modifies allocator`freeMemory, allocator`usedMemory, allocator`pageBitmapIndex, allocator.ram
    ensures fresh(manager) && manager.GlobalAllocator == allocator
    ensures manager.Inv() && Identity(manager.Now().m, manager.Now().root, iset{})
    ensures Plain(manager.Now().m, manager.Now().root)
    ensures manager.Now().s == Request(old(allocator.State())).0
    ensures FreshTables(manager.Now(), old(allocator.State()).bits)
    ensures MarkedKept(old(allocator.ram[..]), manager.Now().m, old(allocator.State()).bits,
                       allocator.PageBitmap.Buffer, allocator.PageBitmap.Size)
  {
    hide HintSound, Request, Supply, Identity, Healthy, Plain, FreshTables, MarkedKept, FreeClear, Clear, Apart;
    ghost var m, s, buffer, size := allocator.ram[..], allocator.State(), allocator.PageBitmap.Buffer,
      allocator.PageBitmap.Size;
    RootTaken(s, m, buffer, size);
    ghost var g := Request(s).1.value;
    FrameAddress(g);
    var pml4 := allocator.RequestPage();
    ghost var m1 := allocator.ram[..];
    StillClear(m, m1, g, g, buffer, size);
    ClearMeans(m1, g, buffer, size);
    Memset(allocator.ram, pml4, 0, 0x1000);
    BitmapModel.SameBitmap(m1, allocator.ram[..], buffer, size);
    manager := new PageTableManager(pml4, allocator);
    assert allocator.Valid() && allocator.State() == Request(s).0;
    FirstTable(m, m1, manager.Now(), s, g);
  }

  lemma ClearMeans(m: seq<byte>, f: nat, buffer: nat, size: nat)
    requires Clear(m, f, buffer, size)
    ensures f * PAGE + PAGE <= |m| && (f * PAGE + PAGE <= buffer || buffer + size < f * PAGE)
  {
  }

  /** No table lies in a frame that was marked in `bits`. */
  ghost predicate FreshTables(w: World, bits: seq<bool>) {
    && |w.s.bits| == |bits| && (forall i | 0 <= i < |bits| && bits[i] :: w.s.bits[i])
    && forall f: nat | IsTable(w.m, w.root, f) :: f < |bits| - 1 && !bits[f]
  }

  /** m' keeps every byte of the frames marked in `bits`, the bitmap's own bytes excepted. */
  ghost predicate MarkedKept(m: seq<byte>, m': seq<byte>, bits: seq<bool>, buffer: nat, size: nat) {
    && |m| == |m'|
    && forall b | 0 <= b < |m| && b / PAGE < |bits| - 1 && bits[b / PAGE] && !(buffer <= b <= buffer + size) ::
         m'[b] == m[b]
  }

  lemma FirstTable(m: seq<byte>, m1: seq<byte>, w: World, s: Frames, g: nat)
    requires HintSound(s) && FreeClear(s.bits, w.buffer, w.size)
    requires g < |s.bits| - 1 && !s.bits[g] && Clear(m, g, w.buffer, w.size)
    requires HintSound(w.s) && w.s.bits == s.bits[g := true] && w.root == g
    requires SameOutside(m, m1, w.buffer, w.size + 1) && SameOutside(m1, w.m, g * PAGE, PAGE)
    requires forall b | g * PAGE <= b < g * PAGE + PAGE && b < |w.m| :: w.m[b] == 0
    ensures Healthy(w) && Identity(w.m, w.root, iset{}) && Plain(w.m, w.root)
    ensures FreshTables(w, s.bits) && MarkedKept(m, w.m, s.bits, w.buffer, w.size)
  {
    assert FreeClear(w.s.bits, w.buffer, w.size);
    assert MarkedKept(m, w.m, s.bits, w.buffer, w.size) by {
      forall b | 0 <= b < |m| && b / PAGE < |s.bits| - 1 && s.bits[b / PAGE] && !(w.buffer <= b <= w.buffer + w.size)
        ensures w.m[b] == m[b]
      {
        OutsideFrame(b, g);
      }
    }
    hide Healthy, Identity, Plain, MarkedKept, SameOutside, FreeClear;
    EmptyWorld(w);
  }

  // ----- locking more frames

  lemma LocksOnlySet(s: Frames, address: u64, n: nat)
    requires HintSound(s)
    ensures var t := Run(s, RangeOps(Locking, address, n));
            HintSound(t) && |t.bits| == |s.bits| && forall i | 0 <= i < |s.bits| && s.bits[i] :: t.bits[i]
  {
    RunKeepsHint(s, RangeOps(Locking, address, n));
    forall i | 0 <= i < |s.bits|
      ensures s.bits[i] ==> Run(s, RangeOps(Locking, address, n)).bits[i]
    {
      RangeMarks(Locking, address, n, i);
      MarkingRun(s, RangeOps(Locking, address, n), i);
    }
  }

  /** LockPages after tables exist changes no walk and no data. */
  lemma LocksKeep(w: World, w': World, address: u64, n: nat, S: iset<nat>, bits: seq<bool>)
    requires Healthy(w) && Identity(w.m, w.root, S) && FreshTables(w, bits)
    requires SamePlaces(w, w') && SameOutside(w.m, w'.m, w.buffer, w.size + 1)
    requires w.s.Valid() && w'.s == Run(w.s, RangeOps(Locking, address, n))
    ensures Healthy(w') && Identity(w'.m, w'.root, S) && FreshTables(w', bits)
    ensures MarkedKept(w.m, w'.m, bits, w.buffer, w.size)
    ensures Plain(w.m, w.root) ==> Plain(w'.m, w'.root)
  {
    hide RangeOps, Run, SameOutside, PathOf, Node, Plain;
    LocksOnlySet(w.s, address, n);
    ReturnedSound(w.m, w'.m, w.root, w.s.bits, w'.s.bits, w.buffer, w.size);
    ClearTables(w.m, w'.m, w.root, w.buffer, w.size);
    WalksUntouched(w.m, w'.m, w.root);
    SameIdentity(w.m, w'.m, w.root, S);
    SameTables(w.m, w'.m, w.root);
    OutsideKept(w.m, w'.m, bits, w.buffer, w.size);
    if Plain(w.m, w.root) {
      SamePlain(w.m, w'.m, w.root);
    }
  }

  lemma SameIdentity(m: seq<byte>, m': seq<byte>, root: nat, S: iset<nat>)
    requires forall q: Path | |q| <= 4 :: Node(m', root, q) == Node(m, root, q)
    requires Identity(m, root, S)
    ensures Identity(m', root, S)
  {
    hide PathOf, Node;
    forall v, j | v in S && 1 <= j <= 4
      ensures Node(m', root, PathOf(v)[..j]).Some?
    {
      assert |PathOf(v)[..j]| == j;
    }
  }

  lemma SameTables(m: seq<byte>, m': seq<byte>, root: nat)
    requires forall q: Path | |q| <= 4 :: Node(m', root, q) == Node(m, root, q)
    ensures forall f: nat | IsTable(m', root, f) :: IsTable(m, root, f)
  {
    forall f: nat | IsTable(m', root, f)
      ensures IsTable(m, root, f)
    {
      var p: Path :| |p| <= 3 && Node(m', root, p) == Some(f);
      assert Node(m, root, p) == Some(f);
    }
  }

  lemma OutsideKept(m: seq<byte>, m': seq<byte>, bits: seq<bool>, buffer: nat, size: nat)
    requires SameOutside(m, m', buffer, size + 1)
    ensures MarkedKept(m, m', bits, buffer, size)
  {
  }

  lemma KeptAlong(m: seq<byte>, m1: seq<byte>, m2: seq<byte>, bits: seq<bool>, buffer: nat, size: nat)
    requires MarkedKept(m, m1, bits, buffer, size) && MarkedKept(m1, m2, bits, buffer, size)
    ensures MarkedKept(m, m2, bits, buffer, size)
  {
  }

  method LockMore(manager: PageTableManager, address: u64, pageCount: nat, ghost S: iset<nat>, ghost bits: seq<bool>)
    requires manager.Inv() && pageCount <= MAX_RANGE
    requires Identity(manager.Now().m, manager.Now().root, S) && FreshTables(manager.Now(), bits)
    modifies manager.GlobalAllocator`freeMemory, manager.GlobalAllocator`usedMemory, manager.GlobalAllocator.ram
    ensures manager.Inv() && SamePlaces(old(manager.Now()), manager.Now())
    ensures Identity(manager.Now().m, manager.Now().root, S) && FreshTables(manager.Now(), bits)
    ensures old(manager.Now()).s.Valid()
    ensures manager.Now().s == Run(old(manager.Now()).s, RangeOps(Locking, address, pageCount))
    ensures Plain(old(manager.Now()).m, old(manager.Now()).root) ==> Plain(manager.Now().m, manager.Now().root)
    ensures MarkedKept(old(manager.Now()).m, manager.Now().m, bits, manager.Now().buffer, manager.Now().size)
  {
    hide HintSound, Healthy, Identity, Plain, FreshTables, MarkedKept, RangeOps, Run, SameOutside;
    ghost var w := manager.Now();
    HealthyHint(w);
    manager.GlobalAllocator.LockPages(address, pageCount);
    LocksKeep(w, manager.Now(), address, pageCount, S, bits);
  }

  // ----- mapping more pages

  lemma RangeKeeps(w: World, w': World, S: iset<nat>, a: nat, b: nat, bits: seq<bool>)
    requires RangeMapped(w, w', S, a, b) && FreshTables(w, bits)
    ensures FreshTables(w', bits) && MarkedKept(w.m, w'.m, bits, w.buffer, w.size)
    ensures Plain(w.m, w.root) ==> Plain(w'.m, w'.root)
  {
    hide Identity, Plain, IsTable, TablesNeeded, Requests;
    RequestsOnlySet(w.s, TablesNeeded(S, a, b));
  }

  method MapMore(manager: PageTableManager, start: u64, end: u64, ghost S: iset<nat>, ghost bits: seq<bool>)
    requires manager.Inv() && Identity(manager.Now().m, manager.Now().root, S) && FreshTables(manager.Now(), bits)
    requires start / PAGE + Visited(start, end) <= PAGES && start + PAGE <= TWO_64 && end + PAGE <= TWO_64
    requires TablesNeeded(S, start / PAGE, start / PAGE + Visited(start, end)) <= manager.Now().Room()
    modifies manager.GlobalAllocator`freeMemory, manager.GlobalAllocator`usedMemory,
             manager.GlobalAllocator`pageBitmapIndex, manager.GlobalAllocator.ram
    ensures manager.Inv() && SamePlaces(old(manager.Now()), manager.Now()) && old(manager.Now()).s.Valid()
    ensures Identity(manager.Now().m, manager.Now().root, With(S, start / PAGE, start / PAGE + Visited(start, end)))
    ensures manager.Now().s ==
            Requests(old(manager.Now()).s, TablesNeeded(S, start / PAGE, start / PAGE + Visited(start, end)))
    ensures FreshTables(manager.Now(), bits)
    ensures MarkedKept(old(manager.Now()).m, manager.Now().m, bits, manager.Now().buffer, manager.Now().size)
    ensures Plain(old(manager.Now()).m, old(manager.Now()).root) ==> Plain(manager.Now().m, manager.Now().root)
  {
    hide HintSound, Healthy, Identity, Plain, FreshTables, MarkedKept, Requests, TablesNeeded, Supply, Visited, With;
    hide DataKept, TablesFromFree;
    ghost var w := manager.Now();
    MapIdentity(manager, start, end, S);
    RangeKeeps(w, manager.Now(), S, start / PAGE, start / PAGE + Visited(start, end), bits);
  }

  // ----- the whole of PrepareMemory

  /** BootInfo and the kernel's link symbols. */
  datatype BootInfo = BootInfo(mMap: seq<Descriptor>, kernelStart: u64, kernelEnd: u64,
                               framebufferBase: u64, bufferSize: u64) {
    ghost function Size(): u64 {
      MemorySize(mMap)
    }

    /** The pages that are locked for the kernel. */
    function KernelPages(): nat {
      Sub64(kernelEnd, kernelStart) / 4096 + 1
    }

    /** Bytes of framebuffer to map, one page more than it has. */
    function FramebufferBytes(): nat {
      bufferSize + 0x1000
    }

    /** The pages below the summed size; MemoryGaps says when they are the pages of memory. */
    ghost function Counted(): iset<nat> {
      With(iset{}, 0, Visited(0, Size()))
    }

    ghost function FirstPage(): nat {
      framebufferBase / PAGE
    }

    ghost function LastPage(): nat {
      framebufferBase / PAGE + Visited(framebufferBase, framebufferBase + FramebufferBytes())
    }

    /** With the pages of the framebuffer: what PrepareMemory maps. */
    ghost function Mapped(): iset<nat> {
      With(Counted(), FirstPage(), LastPage())
    }

    // the allocator after each stage, `m` being the memory at the start

    ghost predicate Fits(m: seq<byte>) {
      && BitmapSize(Size()) < 0x8000_0000
      && Largest(mMap).0 + BitmapSize(Size()) < |m|
      && Largest(mMap).0 + BitmapSize(Size()) + PAGE <= TWO_64
      && Largest(mMap).0 % PAGE == 0
      && (forall d | d in mMap && d.kind != CONVENTIONAL :: d.numPages <= MAX_RANGE)
      && KernelPages() <= MAX_RANGE
      && FramebufferBytes() / 0x1000 + 1 <= MAX_RANGE
      && framebufferBase + FramebufferBytes() <= 0x1_0000_0000_0000
    }

    ghost function Locked(m: seq<byte>): (s: Frames)
      requires Fits(m)
      ensures s.Valid()
    {
      Run(Booted(mMap, Size(), m, 0, 0), RangeOps(Locking, kernelStart, KernelPages()))
    }

    ghost function MemoryMapped(m: seq<byte>): (s: Frames)
      requires Fits(m)
      ensures s.Valid()
    {
      Requests(Request(Locked(m)).0, TablesNeeded(iset{}, 0, Visited(0, Size())))
    }

    ghost function FramebufferLocked(m: seq<byte>): (s: Frames)
      requires Fits(m)
      ensures s.Valid()
    {
      Run(MemoryMapped(m), RangeOps(Locking, framebufferBase, FramebufferBytes() / 0x1000 + 1))
    }

    /** Frames enough, inside `m`, for the PML4, the tables of all counted pages, and those of the
        framebuffer. */
    ghost predicate Enough(m: seq<byte>)
      requires Fits(m)
    {
      && 0 < Supply(Locked(m), |m| / PAGE)
      && TablesNeeded(iset{}, 0, Visited(0, Size())) <= Supply(Request(Locked(m)).0, |m| / PAGE)
      && TablesNeeded(Counted(), FirstPage(), LastPage()) <= Supply(FramebufferLocked(m), |m| / PAGE)
    }
  }

  lemma LockedClear(boot: BootInfo, m: seq<byte>)
    requires boot.Fits(m)
    ensures FreeClear(boot.Locked(m).bits, Largest(boot.mMap).0, BitmapSize(boot.Size()))
  {
    var booted := Booted(boot.mMap, boot.Size(), m, 0, 0);
    BootedHint(boot, m);
    LocksOnlySet(booted, boot.kernelStart, boot.KernelPages());
    hide Booted, RangeOps, Apart, Largest, BitmapSize, Run;
    forall i | 0 <= i < |boot.Locked(m).bits| - 1 && !boot.Locked(m).bits[i]
      ensures Apart(i, Largest(boot.mMap).0, BitmapSize(boot.Size()))
    {
      BootedApart(boot.mMap, boot.Size(), m, i);
    }
  }

  lemma BootedHint(boot: BootInfo, m: seq<byte>)
    requires boot.Fits(m)
    ensures HintSound(Booted(boot.mMap, boot.Size(), m, 0, 0))
    ensures |Booted(boot.mMap, boot.Size(), m, 0, 0).bits| == BitmapSize(boot.Size()) * 8 + 1
  {
    var start := Started(boot.Size(), BitmapModel.BitAt(m, Largest(boot.mMap).0, BitmapSize(boot.Size()) * 8), 0, 0);
    hide BootOps, Largest, BitmapModel.BitAt;
    RunKeepsHint(start, BootOps(boot.mMap, boot.Size()));
  }

  lemma {:induction false} WholePages(mMap: seq<Descriptor>)
    ensures MemorySize(mMap) % 0x1000 == 0
  {
    hide SizeOf, Add64;
    if mMap != [] {
      WholePages(mMap[..|mMap| - 1]);
      WholeSize(mMap[|mMap| - 1]);
      WholeSum(MemorySize(mMap[..|mMap| - 1]), SizeOf(mMap[|mMap| - 1]));
    }
  }

  lemma WholeSize(d: Descriptor)
    ensures SizeOf(d) % 0x1000 == 0
  {
    var wrapped := d.numPages * 4096 / TWO_64;
    assert SizeOf(d) == 4096 * (d.numPages - wrapped * 0x10_0000_0000_0000);
  }

  lemma WholeSum(a: u64, b: u64)
    requires a % 0x1000 == 0 && b % 0x1000 == 0
    ensures Add64(a, b) % 0x1000 == 0
  {
  }

  lemma LoopBounds(boot: BootInfo, m: seq<byte>)
    requires boot.Fits(m)
    ensures Visited(0, boot.Size()) == boot.Size() / 4096 <= PAGES && boot.Size() + PAGE <= TWO_64
    ensures boot.LastPage() <= PAGES
    ensures boot.framebufferBase + boot.FramebufferBytes() + PAGE <= TWO_64
  {
    WholePages(boot.mMap);
  }

  /** ReadEFIMemoryMap and the kernel's LockPages. */
  method ReadAndLock(allocator: PageFrameAllocator, boot: BootInfo)
    requires allocator.Valid() && !allocator.Initialized
    requires allocator.usedMemory == allocator.reservedMemory == allocator.memorySizeBytes == 0
    requires boot.Fits(allocator.ram[..])
    modifies allocator, allocator.PageBitmap, allocator.ram
    ensures allocator.Valid() && allocator.State() == boot.Locked(old(allocator.ram[..]))
    ensures allocator.memorySizeBytes == boot.Size()
    ensures allocator.PageBitmap.Buffer == Largest(boot.mMap).0 && allocator.PageBitmap.Size == BitmapSize(boot.Size())
    ensures SameOutside(old(allocator.ram[..]), allocator.ram[..], Largest(boot.mMap).0, BitmapSize(boot.Size()) + 1)
  {
    hide HintSound, Booted, RangeOps, Run, Largest, BitmapSize, MemorySize;
    allocator.ReadEFIMemoryMap(boot.mMap);
    var kernelSize := Sub64(boot.kernelEnd, boot.kernelStart);
    var kernelPages := kernelSize / 4096 + 1;
    allocator.LockPages(boot.kernelStart, kernelPages);
  }

  /** When it returns, exactly the pages below the summed size and those of the framebuffer are
      mapped, each to its own frame; the allocator has taken one frame for the PML4 and one for every table; and
      no byte of a locked or reserved frame has changed outside the bitmap. */
  method PrepareMemory(allocator: PageFrameAllocator, boot: BootInfo) returns (manager: PageTableManager)
    requires allocator.Valid() && !allocator.Initialized
    requires allocator.usedMemory == allocator.reservedMemory == allocator.memorySizeBytes == 0
    requires boot.Fits(allocator.ram[..]) && boot.Enough(allocator.ram[..])
    modifies allocator, allocator.PageBitmap, allocator.ram
    ensures manager.GlobalAllocator == allocator && manager.Inv()
    ensures Identity(manager.Now().m, manager.Now().root, boot.Mapped())
    ensures Plain(manager.Now().m, manager.Now().root)
    ensures manager.Now().s == Requests(boot.FramebufferLocked(old(allocator.ram[..])),
                                        TablesNeeded(boot.Counted(), boot.FirstPage(), boot.LastPage()))
    ensures MarkedKept(old(allocator.ram[..]), manager.Now().m, boot.Locked(old(allocator.ram[..])).bits,
                       Largest(boot.mMap).0, BitmapSize(boot.Size()))
  {
    hide HintSound, Healthy, Identity, Plain, FreshTables, MarkedKept, FreeClear, Supply, TablesNeeded, With, Visited;
    hide Largest, BitmapSize, MemorySize, Run, Booted, RangeOps, Request, Requests, SameOutside;
    ghost var m := allocator.ram[..];
    ghost var bits := boot.Locked(m).bits;
    LoopBounds(boot, m);
    LockedClear(boot, m);
    ReadAndLock(allocator, boot);
    ghost var m0 := allocator.ram[..];
    OutsideKept(m, m0, bits, Largest(boot.mMap).0, BitmapSize(boot.Size()));

    manager := MakePML4(allocator);
    ghost var m1 := manager.Now().m;
    KeptAlong(m, m0, m1, bits, Largest(boot.mMap).0, BitmapSize(boot.Size()));

    var memorySize := allocator.GetMemorySize(boot.mMap);
    MapMore(manager, 0, memorySize, iset{}, bits);
    ghost var m2 := manager.Now().m;
    KeptAlong(m, m1, m2, bits, Largest(boot.mMap).0, BitmapSize(boot.Size()));

    var fbBase := boot.framebufferBase;
    var fbSize := boot.bufferSize + 0x1000;
    LockMore(manager, fbBase, fbSize / 0x1000 + 1, boot.Counted(), bits);
    ghost var m3 := manager.Now().m;
    KeptAlong(m, m2, m3, bits, Largest(boot.mMap).0, BitmapSize(boot.Size()));

    MapMore(manager, fbBase, fbBase + fbSize, boot.Counted(), bits);
    KeptAlong(m, m3, manager.Now().m, bits, Largest(boot.mMap).0, BitmapSize(boot.Size()));
  }

  /** Read at any address: the page in bits 12 to 47 if it was mapped, nothing otherwise. */
  lemma IdentityWalk(m: seq<byte>, root: nat, S: iset<nat>, v: u64)
    requires Identity(m, root, S)
    ensures var page := v / PAGE % PAGES;
            Walk(m, root, v) == if page in S then Some(page) else None
  {
    hide PathOf, Node;
    var page := v / PAGE % PAGES;
    PathDecides(v / PAGE, page);
    var p := PathOf(page);
    assert p[..4] == p;
    if page !in S && Node(m, root, p).Some? {
      var w :| w in S && p == PathOf(w)[..4];
      assert PathOf(w)[..4] == PathOf(w);
      DistinctPaths(page, w);
    }
  }

  /** The first loop takes exactly one table per 2^9, 2^18 and 2^27 pages begun. */
  lemma TablesForAllMemory(boot: BootInfo, m: seq<byte>)
    requires boot.Fits(m)
    ensures var n := boot.Size() / 4096;
            boot.MemoryMapped(m) == Requests(Request(boot.Locked(m)).0,
              Ceil(n, 0x200) + Ceil(n, 0x4_0000) + Ceil(n, 0x800_0000))
  {
    hide BootInfo.Locked, Requests, Request, TablesNeeded, Ceil;
    LoopBounds(boot, m);
    TablesForFirstPages(boot.Size() / 4096);
  }

  // ----- when there are enough frames

  /** An operation takes at most one frame. */
  lemma StepTakesAtMostOne(s: Frames, op: Op, limit: nat)
    requires s.Valid()
    ensures Supply(Step(s, op).0, limit) + 1 >= Supply(s, limit)
  {
    var t, n := Step(s, op).0, if limit < s.Limit() then limit else s.Limit();
    var i := if op.RequestOp? then Scan(s.bits, s.hint, s.Limit()) else op.i;
    if i < n {
      CountUpdate(s.bits[..n], i, t.bits[i]);
      assert t.bits[..n] == s.bits[..n][i := t.bits[i]];
    } else {
      assert t.bits[..n] == s.bits[..n];
    }
  }

  lemma {:induction false} RunTakesAtMost(s: Frames, ops: seq<Op>, limit: nat)
    requires s.Valid()
    ensures Supply(Run(s, ops), limit) + |ops| >= Supply(s, limit)
    decreases |ops|
  {
    if ops != [] {
      StepTakesAtMostOne(s, ops[0], limit);
      RunTakesAtMost(Step(s, ops[0]).0, ops[1..], limit);
    }
  }

  lemma {:induction false} CountNone(bits: seq<bool>)
    requires forall i | 0 <= i < |bits| :: !bits[i]
    ensures Count(bits) == 0
  {
    if bits != [] {
      CountNone(bits[1..]);
    }
  }

  /** The frames the allocator can hand out at best: those in memory that the bitmap describes. */
  function Usable(size: u64, length: nat): nat {
    if length / PAGE < BitmapSize(size) * 8 then length / PAGE else BitmapSize(size) * 8
  }

  lemma StartedSupply(size: u64, stale: bool, length: nat)
    ensures Started(size, stale, 0, 0).Valid()
    ensures Supply(Started(size, stale, 0, 0), length / PAGE) == Usable(size, length)
  {
    var s := Started(size, stale, 0, 0);
    CountNone(s.bits[..Usable(size, length)]);
  }

  /** The pages of all descriptors that are not conventional memory. */
  function UnusablePages(mMap: seq<Descriptor>): nat {
    if mMap == [] then 0
    else
      var d := mMap[|mMap| - 1];
      UnusablePages(mMap[..|mMap| - 1]) + if d.kind != CONVENTIONAL then d.numPages else 0
  }

  lemma {:induction false} ReserveOpsLength(mMap: seq<Descriptor>)
    ensures |ReserveOps(mMap)| == UnusablePages(mMap)
  {
    if mMap != [] {
      ReserveOpsLength(mMap[..|mMap| - 1]);
    }
  }

  lemma {:induction false} NeedAtMost(S: iset<nat>, a: nat, b: nat)
    ensures TablesNeeded(S, a, b) <= if a < b then 3 * (b - a) else 0
  {
    hide With;
    if a < b {
      NeedAtMost(S, a, b - 1);
    }
  }

  lemma LockedSupply(boot: BootInfo, m: seq<byte>)
    requires boot.Fits(m)
    ensures Supply(boot.Locked(m), |m| / PAGE)
            + BitmapSize(boot.Size()) / 4096 + 1 + UnusablePages(boot.mMap) + boot.KernelPages()
            >= Usable(boot.Size(), |m|)
    ensures HintSound(boot.Locked(m))
  {
    hide Largest, BitmapSize, MemorySize, Run, RangeOps, ReserveOps, Supply, Started, Usable, BitmapModel.BitAt,
      HintSound;
    var stale := BitmapModel.BitAt(m, Largest(boot.mMap).0, BitmapSize(boot.Size()) * 8);
    var start := Started(boot.Size(), stale, 0, 0);
    StartedSupply(boot.Size(), stale, |m|);
    BootedHint(boot, m);
    RunTakesAtMost(start, BootOps(boot.mMap, boot.Size()), |m| / PAGE);
    ReserveOpsLength(boot.mMap);
    var booted := Booted(boot.mMap, boot.Size(), m, 0, 0);
    RangeLength(Locking, Largest(boot.mMap).0, BitmapSize(boot.Size()) / 4096 + 1);
    RangeLength(Locking, boot.kernelStart, boot.KernelPages());
    RunTakesAtMost(booted, RangeOps(Locking, boot.kernelStart, boot.KernelPages()), |m| / PAGE);
    RunKeepsHint(booted, RangeOps(Locking, boot.kernelStart, boot.KernelPages()));
  }

  lemma RangeLength(kind: RangeKind, address: u64, pageCount: nat)
    ensures |RangeOps(kind, address, pageCount)| == pageCount
  {
  }

  /** PrepareMemory has frames enough if memory has a frame, with a bit in the bitmap, for
      everything it locks, reserves and allocates: numbers read off the boot information. */
  lemma EnoughIf(boot: BootInfo, m: seq<byte>)
    requires boot.Fits(m)
    requires Usable(boot.Size(), |m|)
          >= BitmapSize(boot.Size()) / 4096 + 1 + UnusablePages(boot.mMap) + boot.KernelPages() + 1
             + Ceil(boot.Size() / 4096, 0x200) + Ceil(boot.Size() / 4096, 0x4_0000)
               + Ceil(boot.Size() / 4096, 0x800_0000)
             + boot.FramebufferBytes() / 0x1000 + 1 + 3 * (boot.LastPage() - boot.FirstPage())
    ensures boot.Enough(m)
  {
    hide Largest, BitmapSize, MemorySize, Run, RangeOps, Supply, Request, Requests, Booted, Ceil, TablesNeeded,
      HintSound;
    LockedSupply(boot, m);
    LoopBounds(boot, m);
    TablesForFirstPages(boot.Size() / 4096);
    var locked, tables := boot.Locked(m), TablesNeeded(iset{}, 0, Visited(0, boot.Size()));
    RequestTakesOne(locked, |m| / PAGE);
    RequestsSupply(Request(locked).0, tables, |m| / PAGE);
    RangeLength(Locking, boot.framebufferBase, boot.FramebufferBytes() / 0x1000 + 1);
    RunTakesAtMost(boot.MemoryMapped(m), RangeOps(Locking, boot.framebufferBase, boot.FramebufferBytes() / 0x1000 + 1),
                   |m| / PAGE);
    NeedAtMost(boot.Counted(), boot.FirstPage(), boot.LastPage());
  }

  lemma OneSegment(d: Descriptor)
    requires d.kind == CONVENTIONAL && SizeOf(d) > 0
    ensures MemorySize([d]) == SizeOf(d) && Largest([d]) == (d.physAddr, SizeOf(d)) && UnusablePages([d]) == 0
  {
    assert [d][..0] == [];
  }

  /** For example a machine with one segment of 64 pages can boot. */
  lemma SmallMachineBoots(m: seq<byte>)
    requires |m| == 64 * PAGE
    ensures var boot := BootInfo([Descriptor(CONVENTIONAL, 0, 64)], 0x8000, 0x9000, 0, 0);
            boot.Fits(m) && boot.Enough(m)
  {
    var mMap := [Descriptor(CONVENTIONAL, 0, 64)];
    var boot := BootInfo(mMap, 0x8000, 0x9000, 0, 0);
    OneSegment(mMap[0]);
    assert boot.Size() == 64 * 4096 && BitmapSize(boot.Size()) == 9;
    assert Ceil(64, 0x200) == Ceil(64, 0x4_0000) == Ceil(64, 0x800_0000) == 1;
    assert boot.LastPage() == 1 && boot.FirstPage() == 0;
    EnoughIf(boot, m);
  }
}

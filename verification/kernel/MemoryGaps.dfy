/** PrepareMemory takes the frames below the summed size of the memory map for the frames of memory.
    When that is right for the pages it maps and for the frames it hands out, and what happens on
    maps for which it is not. */
module MemoryGaps {
  import opened BitWords
  import opened Options
  import opened Ram
  import opened FrameSpec
  import opened PageFrameAllocatorModel
  import opened BootMap
  import opened MemoryMap
  import opened IdentityMapModel
  import opened PageTableManagerModel
  import opened PrepareMemoryModel

  // ----- what is mapped

  lemma MappedIs(boot: BootInfo, m: seq<byte>)
    requires boot.Fits(m)
    ensures forall i: nat :: i in boot.Counted() <==> i < CountedPages(boot.mMap)
    ensures forall i: nat ::
              i in boot.Mapped() <==> i < CountedPages(boot.mMap) || boot.FirstPage() <= i < boot.LastPage()
    ensures CountedPages(boot.mMap) <= PAGES && boot.LastPage() <= PAGES
  {
    LoopBounds(boot, m);
  }

  /** The first loop maps the pages of the memory map and no others exactly when the map has no gap
      below the pages it counts. */
  lemma ExactlyMemoryIff(boot: BootInfo, m: seq<byte>)
    requires boot.Fits(m) && TotalPages(boot.mMap) * 4096 < TWO_64
    ensures (forall i: nat :: i in boot.Counted() <==> Described(boot.mMap, i)) <==> NoGap(boot.mMap)
  {
    hide BootInfo.Fits, BootInfo.Counted, BootInfo.Mapped, Described, NoGap, CountedPages, TotalPages;
    MappedIs(boot, m);
    ContiguousIffNoGap(boot.mMap);
  }

  /** The pages `a..b` end below the counted ones, or what is behind those is framebuffer. */
  ghost predicate Reached(boot: BootInfo, a: nat, b: nat) {
    var n := CountedPages(boot.mMap);
    b <= n || (boot.FirstPage() <= (if a < n then n else a) && b <= boot.LastPage())
  }

  lemma ReachedIff(boot: BootInfo, m: seq<byte>, a: nat, b: nat)
    requires boot.Fits(m) && a < b
    ensures (forall i: nat | a <= i < b :: i in boot.Mapped()) <==> Reached(boot, a, b)
  {
    MappedIs(boot, m);
    hide BootInfo.Fits, BootInfo.Mapped, BootInfo.FirstPage, BootInfo.LastPage, CountedPages;
    var n := CountedPages(boot.mMap);
    if forall i: nat | a <= i < b :: i in boot.Mapped() {
      assert b - 1 in boot.Mapped();
      assert (if a < n then n else a) < b ==> (if a < n then n else a) in boot.Mapped();
    }
  }

  /** The pages of the descriptor are reached; ranges that wrap hold the last frame, which is not. */
  ghost predicate DescriptorReached(boot: BootInfo, d: Descriptor) {
    d.numPages > 0 ==>
      && d.physAddr + d.numPages * 4096 <= TWO_64
      && Reached(boot, d.physAddr / 4096, d.physAddr / 4096 + d.numPages)
  }

  lemma LastFrame(address: u64, n: nat)
    requires TWO_64 < address + n * 4096
    ensures Covers(address, n, 0xF_FFFF_FFFF_FFFF)
  {
    assert FrameAt(address, 0xF_FFFF_FFFF_FFFF - address / 4096) == 0xF_FFFF_FFFF_FFFF;
  }

  lemma DescriptorReachedIff(boot: BootInfo, m: seq<byte>, d: Descriptor)
    requires boot.Fits(m)
    ensures (forall i: nat | Covers(d.physAddr, d.numPages, i) :: i in boot.Mapped()) <==> DescriptorReached(boot, d)
  {
    MappedIs(boot, m);
    hide BootInfo.Fits, BootInfo.Mapped, BootInfo.FirstPage, BootInfo.LastPage, CountedPages, Reached, Covers;
    if d.numPages == 0 {
      forall i: nat
        ensures !Covers(d.physAddr, d.numPages, i)
      {
        CoversInterval(d.physAddr, 0, i);
      }
    } else if d.physAddr + d.numPages * 4096 <= TWO_64 {
      forall i: nat
        ensures Covers(d.physAddr, d.numPages, i) <==> d.physAddr / 4096 <= i < d.physAddr / 4096 + d.numPages
      {
        CoversInterval(d.physAddr, d.numPages, i);
      }
      ReachedIff(boot, m, d.physAddr / 4096, d.physAddr / 4096 + d.numPages);
    } else {
      LastFrame(d.physAddr, d.numPages);
      assert 0xF_FFFF_FFFF_FFFF !in boot.Mapped();
    }
  }

  /** Every page of the memory map is mapped exactly when each descriptor ends below the counted
      pages, or in the framebuffer. */
  lemma AllMemoryMappedIff(boot: BootInfo, m: seq<byte>)
    requires boot.Fits(m)
    ensures (forall i: nat | Described(boot.mMap, i) :: i in boot.Mapped())
            <==> forall d | d in boot.mMap :: DescriptorReached(boot, d)
  {
    hide BootInfo.Fits, BootInfo.Mapped, DescriptorReached, Covers;
    forall d | d in boot.mMap
      ensures (forall i: nat | Covers(d.physAddr, d.numPages, i) :: i in boot.Mapped()) <==> DescriptorReached(boot, d)
    {
      DescriptorReachedIff(boot, m, d);
    }
    assert forall d, i: nat | d in boot.mMap && Covers(d.physAddr, d.numPages, i) :: Described(boot.mMap, i);
  }

  /** The same for the pages that hold the allocator's bitmap. */
  lemma BitmapMappedIff(boot: BootInfo, m: seq<byte>)
    requires boot.Fits(m)
    ensures var (buffer, size) := (Largest(boot.mMap).0, BitmapSize(boot.Size()));
            (forall b: nat | buffer <= b < buffer + size :: b / 4096 in boot.Mapped())
            <==> Reached(boot, buffer / 4096, (buffer + size - 1) / 4096 + 1)
  {
    hide BootInfo.Fits, BootInfo.Mapped, Reached, Largest, MemorySize;
    var (buffer, size) := (Largest(boot.mMap).0, BitmapSize(boot.Size()));
    ReachedIff(boot, m, buffer / 4096, (buffer + size - 1) / 4096 + 1);
    if forall b: nat | buffer <= b < buffer + size :: b / 4096 in boot.Mapped() {
      forall i: nat | buffer / 4096 <= i < (buffer + size - 1) / 4096 + 1
        ensures i in boot.Mapped()
      {
        var b := if i * 4096 < buffer then buffer else i * 4096;
        assert b / 4096 == i;
      }
    }
  }

  // ----- what is handed out

  /** The bits after the kernel is locked, the spare ones behind the last page included. */
  lemma LockedBits(boot: BootInfo, m: seq<byte>, i: nat)
    requires boot.Fits(m) && i < BitmapSize(boot.Size()) * 8
    ensures |boot.Locked(m).bits| == BitmapSize(boot.Size()) * 8 + 1
    ensures boot.Locked(m).bits[i] <==> || Covers(Largest(boot.mMap).0, BitmapSize(boot.Size()) / 4096 + 1, i)
                                        || Unusable(boot.mMap, i) || Covers(boot.kernelStart, boot.KernelPages(), i)
  {
    hide Largest, BitmapSize, Booted, Run, RangeOps, Covers, Unusable, Marks;
    BootedHint(boot, m);
    BootedBits(boot.mMap, boot.Size(), m, 0, 0, i);
    RangeMarks(Locking, boot.kernelStart, boot.KernelPages(), i);
    MarkingRun(Booted(boot.mMap, boot.Size(), m, 0, 0), RangeOps(Locking, boot.kernelStart, boot.KernelPages()), i);
  }

  /** A frame that no descriptor covers and nothing happens to lock. */
  ghost predicate FreeGap(boot: BootInfo, i: nat) {
    && !Described(boot.mMap, i)
    && !Covers(Largest(boot.mMap).0, BitmapSize(boot.Size()) / 4096 + 1, i)
    && !Covers(boot.kernelStart, boot.KernelPages(), i)
  }

  /** After the kernel is locked a free frame is conventional memory exactly when it is not a
      gap that was left unmarked; nothing marks gaps, nor the spare frames behind the counted ones. */
  lemma FreeIsConventionalIff(boot: BootInfo, m: seq<byte>, n: nat)
    requires boot.Fits(m) && n <= BitmapSize(boot.Size()) * 8
    ensures |boot.Locked(m).bits| == BitmapSize(boot.Size()) * 8 + 1
    ensures (forall i | 0 <= i < n && !boot.Locked(m).bits[i] :: Conventional(boot.mMap, i))
            <==> forall i | 0 <= i < n :: !FreeGap(boot, i)
  {
    LockedBits(boot, m, 0);
    hide BootInfo.Fits, BootInfo.Locked, Largest, BitmapSize, MemorySize, Covers, Unusable, Described, Conventional;
    forall i | 0 <= i < n
      ensures !boot.Locked(m).bits[i] && !Conventional(boot.mMap, i) <==> FreeGap(boot, i)
    {
      LockedBits(boot, m, i);
      DescribedIff(boot.mMap, i);
    }
  }

  ghost function Memory(boot: BootInfo): iset<nat> {
    iset i: nat | Conventional(boot.mMap, i)
  }

  /** The frames PrepareMemory asks for before it locks the framebuffer, and after. */
  ghost function FirstRequests(boot: BootInfo): nat {
    1 + TablesNeeded(iset{}, 0, Visited(0, boot.Size()))
  }

  ghost function SecondRequests(boot: BootInfo): nat {
    TablesNeeded(boot.Counted(), boot.FirstPage(), boot.LastPage())
  }

  /** All of its tables are conventional memory exactly when the free frames below the first free
      gap last, both before and after the framebuffer is locked. */
  lemma TablesInMemoryIff(boot: BootInfo, m: seq<byte>)
    requires boot.Fits(m)
    ensures var s, t := boot.Locked(m), boot.FramebufferLocked(m);
            && boot.MemoryMapped(m) == Requests(s, FirstRequests(boot))
            && (ServedFrom(s, Memory(boot), FirstRequests(boot)) && ServedFrom(t, Memory(boot), SecondRequests(boot))
                <==> && FirstRequests(boot) <= Supply(s, FirstOutside(s, Memory(boot), 0))
                     && SecondRequests(boot) <= Supply(t, FirstOutside(t, Memory(boot), 0)))
  {
    hide BootInfo.Fits, BootInfo.Locked, BootInfo.MemoryMapped, BootInfo.FramebufferLocked, FirstRequests,
      SecondRequests;
    hide Supply, FirstOutside, ServedFrom, Requests, Memory, HintSound;
    StagesSound(boot, m);
    FirstStage(boot, m);
    ServedFromIff(boot.Locked(m), Memory(boot), FirstRequests(boot));
    ServedFromIff(boot.FramebufferLocked(m), Memory(boot), SecondRequests(boot));
  }

  lemma FirstStage(boot: BootInfo, m: seq<byte>)
    requires boot.Fits(m)
    ensures boot.MemoryMapped(m) == Requests(boot.Locked(m), FirstRequests(boot))
  {
    hide BootInfo.Fits, BootInfo.Locked, Request, Requests, TablesNeeded;
    RequestsOne(boot.Locked(m));
    RequestsCompose(boot.Locked(m), 1, TablesNeeded(iset{}, 0, Visited(0, boot.Size())));
  }

  lemma RequestsOne(s: Frames)
    requires s.Valid()
    ensures Requests(s, 1) == Request(s).0
  {
    hide Request;
    assert Requests(s, 0) == s && Requests(s, 1) == Request(Requests(s, 0)).0;
  }

  lemma {:induction false} RequestsSound(s: Frames, n: nat)
    requires HintSound(s)
    ensures HintSound(Requests(s, n))
  {
    if n > 0 {
      RequestsSound(s, n - 1);
      RequestTakesOne(Requests(s, n - 1), 0);
    }
  }

  lemma StagesSound(boot: BootInfo, m: seq<byte>)
    requires boot.Fits(m)
    ensures HintSound(boot.Locked(m)) && HintSound(boot.FramebufferLocked(m))
  {
    hide Booted, RangeOps, Largest, BitmapSize, MemorySize, Run, Request, HintSound, TablesNeeded;
    LockedSupply(boot, m);
    RequestTakesOne(boot.Locked(m), 0);
    RequestsSound(Request(boot.Locked(m)).0, TablesNeeded(iset{}, 0, Visited(0, boot.Size())));
    RunKeepsHint(boot.MemoryMapped(m), RangeOps(Locking, boot.framebufferBase, boot.FramebufferBytes() / 0x1000 + 1));
  }

  // ----- machines on which it fails

  /** The bits of a machine with conventional memory only, whose bitmap is one page. */
  lemma PlainBits(boot: BootInfo, m: seq<byte>, i: nat)
    requires boot.Fits(m) && BitmapSize(boot.Size()) < 4096 && i < BitmapSize(boot.Size()) * 8
    requires boot.kernelStart + boot.KernelPages() * 4096 <= TWO_64
    requires forall d | d in boot.mMap :: d.kind == CONVENTIONAL
    ensures HintSound(boot.Locked(m)) && |boot.Locked(m).bits| == BitmapSize(boot.Size()) * 8 + 1
    ensures boot.Locked(m).bits[i] <==> || i == Largest(boot.mMap).0 / 4096
                                        || boot.kernelStart / 4096 <= i < boot.kernelStart / 4096 + boot.KernelPages()
  {
    LockedBits(boot, m, i);
    LockedSupply(boot, m);
    CoversInterval(Largest(boot.mMap).0, 1, i);
    CoversInterval(boot.kernelStart, boot.KernelPages(), i);
  }

  /** One segment of 64 pages: when those are used up RequestPage hands out frame 64, which does
      not exist, instead of NULL. */
  lemma SpareFrameHandedOut(m: seq<byte>)
    requires |m| == 64 * PAGE
    ensures var boot := BootInfo([Descriptor(CONVENTIONAL, 0, 64)], 0x8000, 0x9000, 0, 0);
            && boot.Size() == |m| && boot.Fits(m)
            && var s := boot.Locked(m);
            && HintSound(s) && Request(Requests(s, Supply(s, 64))).1 == Some(64)
  {
    var mMap := [Descriptor(CONVENTIONAL, 0, 64)];
    var boot := BootInfo(mMap, 0x8000, 0x9000, 0, 0);
    OneSegment(mMap[0]);
    assert boot.Size() == 64 * 4096 && BitmapSize(boot.Size()) == 9;
    assert boot.Fits(m);
    PlainBits(boot, m, 64);
    hide BootInfo.Locked, HintSound, Supply, Requests, Request;
    NextBehind(boot.Locked(m), 64);
  }

  /** Two segments of conventional memory, of 64 pages together; the second begins at page `base` and
      holds the kernel. */
  function TwoSegments(first: nat, base: nat): BootInfo
    requires first <= 64 && base < 0x1000
  {
    BootInfo([Descriptor(CONVENTIONAL, 0, first), Descriptor(CONVENTIONAL, base * 4096, 64 - first)],
             (base + 16) * 4096, (base + 17) * 4096, 0, 0)
  }

  lemma TwoSegmentsSize(first: nat, base: nat)
    requires 0 < first < 64 && first <= base < 0x1000
    ensures var mMap := TwoSegments(first, base).mMap;
            && MemorySize(mMap) == 64 * 4096 && UnusablePages(mMap) == 0
            && Largest(mMap) == if first < 32 then (base * 4096, (64 - first) * 4096) else (0, first * 4096)
  {
    var mMap := TwoSegments(first, base).mMap;
    assert mMap[..1] == [mMap[0]];
    OneSegment(mMap[0]);
  }

  lemma TwoSegmentsDescribed(first: nat, base: nat, i: nat)
    requires 0 < first < 64 && first <= base < 0x1000
    ensures Described(TwoSegments(first, base).mMap, i) <==> i < first || base <= i < base + 64 - first
  {
    hide Covers;
    var mMap := TwoSegments(first, base).mMap;
    CoversInterval(mMap[0].physAddr, mMap[0].numPages, i);
    CoversInterval(mMap[1].physAddr, mMap[1].numPages, i);
    assert mMap[0] in mMap && mMap[1] in mMap;
  }

  lemma TwoSegmentsAre(first: nat, base: nat, m: seq<byte>)
    requires 0 < first < 64 && first <= base < 0x1000 && |m| == (base + 64 - first) * PAGE
    ensures var boot := TwoSegments(first, base);
            && boot.Fits(m) && boot.Enough(m) && CountedPages(boot.mMap) == 64 && BitmapSize(boot.Size()) == 9
            && Largest(boot.mMap).0 == (if first < 32 then base * 4096 else 0)
            && boot.FirstPage() == 0 && boot.LastPage() == 1
            && forall i: nat :: Described(boot.mMap, i) <==> i < first || base <= i < base + 64 - first
  {
    var boot := TwoSegments(first, base);
    TwoSegmentsSize(first, base);
    forall i: nat
      ensures Described(boot.mMap, i) <==> i < first || base <= i < base + 64 - first
    {
      TwoSegmentsDescribed(first, base, i);
    }
    hide MemorySize, Largest, UnusablePages, Described;
    hide BootInfo.Fits, BootInfo.Enough, BootInfo.FirstPage, BootInfo.LastPage;
    WholeFrame(base);
    SmallEnough(boot, m);
  }

  lemma WholeFrame(base: nat)
    ensures base * 4096 % PAGE == 0
  {
  }

  /** Enough for every machine of 64 pages that has them all. */
  lemma SmallEnough(boot: BootInfo, m: seq<byte>)
    requires boot.Size() == 64 * 4096 && UnusablePages(boot.mMap) == 0 && boot.KernelPages() == 2
    requires boot.framebufferBase == boot.bufferSize == 0 && 64 * PAGE <= |m|
    requires Largest(boot.mMap).0 % PAGE == 0 && Largest(boot.mMap).0 + 9 < |m| && |m| <= 0x1000_0000
    requires forall d | d in boot.mMap :: d.kind == CONVENTIONAL
    ensures boot.Fits(m) && boot.Enough(m) && boot.FirstPage() == 0 && boot.LastPage() == 1
    ensures CountedPages(boot.mMap) == 64 && BitmapSize(boot.Size()) == 9
  {
    hide MemorySize, Largest, UnusablePages, BootInfo.Enough;
    assert BitmapSize(boot.Size()) == 9;
    assert Ceil(64, 0x200) == Ceil(64, 0x4_0000) == Ceil(64, 0x800_0000) == 1;
    assert boot.LastPage() == 1 && boot.FirstPage() == 0;
    EnoughIf(boot, m);
  }

  /** Pages 0 to 31 and 64 to 95: page 40 does not exist and is mapped, page 80 exists and is not. */
  lemma GapMapped(m: seq<byte>)
    requires |m| == 96 * PAGE
    ensures var boot := TwoSegments(32, 64);
            && boot.Fits(m) && boot.Enough(m)
            && !Described(boot.mMap, 40) && 40 in boot.Mapped()
            && Described(boot.mMap, 80) && 80 !in boot.Mapped()
  {
    hide Described, BootInfo.Fits, BootInfo.Enough;
    TwoSegmentsAre(32, 64, m);
    MappedIs(TwoSegments(32, 64), m);
  }

  /** When the first segment is used up, RequestPage hands out frame 32, though frame 64 is free. */
  lemma GapFrameHandedOut(m: seq<byte>)
    requires |m| == 96 * PAGE
    ensures var boot := TwoSegments(32, 64);
            && boot.Fits(m) && boot.Enough(m)
            && var s := boot.Locked(m);
            && HintSound(s) && Request(Requests(s, Supply(s, 32))).1 == Some(32) && !Described(boot.mMap, 32)
            && 64 < s.Limit() && !s.bits[64] && Conventional(boot.mMap, 64)
  {
    hide BootInfo.Fits, BootInfo.Enough, BootInfo.Locked, HintSound, Supply, Requests, Request, Described, Conventional;
    hide Largest, MemorySize, Covers;
    var boot := TwoSegments(32, 64);
    TwoSegmentsAre(32, 64, m);
    DescribedIff(boot.mMap, 64);
    assert !Unusable(boot.mMap, 64);
    PlainBits(boot, m, 32);
    PlainBits(boot, m, 64);
    NextBehind(boot.Locked(m), 32);
  }

  /** Pages 0 to 15 and 128 to 175: the bitmap lies in page 128, which is not mapped. */
  lemma BitmapNotMapped(m: seq<byte>)
    requires |m| == 176 * PAGE
    ensures var boot := TwoSegments(16, 128);
            && boot.Fits(m) && boot.Enough(m)
            && Largest(boot.mMap).0 / PAGE == 128 && Described(boot.mMap, 128) && 128 !in boot.Mapped()
  {
    hide Described, BootInfo.Fits, BootInfo.Enough;
    TwoSegmentsAre(16, 128, m);
    MappedIs(TwoSegments(16, 128), m);
  }

  /** Pages 0 to 2 and 128 to 188: PrepareMemory asks for more than the three frames of the first
      segment, and gets frame 3 for a table, which does not exist. */
  lemma TablesInGap(m: seq<byte>)
    requires |m| == 189 * PAGE
    ensures var boot := TwoSegments(3, 128);
            && boot.Fits(m) && boot.Enough(m)
            && var s := boot.Locked(m);
            && HintSound(s) && Supply(s, 3) < FirstRequests(boot)
            && Request(Requests(s, Supply(s, 3))).1 == Some(3) && !Described(boot.mMap, 3)
  {
    hide BootInfo.Fits, BootInfo.Enough, BootInfo.Locked, HintSound, Supply, Described, Requests, Request;
    hide FirstRequests, Largest, MemorySize;
    var boot := TwoSegments(3, 128);
    TwoSegmentsAre(3, 128, m);
    FourRequests(boot, m);
    PlainBits(boot, m, 3);
    NextBehind(boot.Locked(m), 3);
    SupplyAtMost(boot.Locked(m), 3);
  }

  lemma FourRequests(boot: BootInfo, m: seq<byte>)
    requires boot.Fits(m) && CountedPages(boot.mMap) == 64
    ensures FirstRequests(boot) == 4
  {
    hide BootInfo.Fits, TablesNeeded;
    LoopBounds(boot, m);
    TablesForFirstPages(64);
    assert Ceil(64, 0x200) == Ceil(64, 0x4_0000) == Ceil(64, 0x800_0000) == 1;
  }

  lemma SupplyAtMost(s: Frames, g: nat)
    ensures Supply(s, g) <= g
  {
  }
}

/** What the numbers in BootInfo make of the kernel and the framebuffer: which of their pages are locked
    and which are mapped when PrepareMemory returns. */
module BootRanges {
  import opened BitWords
  import opened Ram
  import opened FrameSpec
  import opened PageFrameAllocatorModel
  import opened BootMap
  import opened MemoryMap
  import opened PrepareMemoryModel
  import opened MemoryGaps

  /** Page `i` holds a byte of the framebuffer. */
  ghost predicate OnScreen(boot: BootInfo, i: nat) {
    exists b: nat | boot.framebufferBase <= b < boot.framebufferBase + boot.bufferSize :: b / 0x1000 == i
  }

  lemma OnScreenIff(boot: BootInfo, i: nat)
    ensures OnScreen(boot, i) <==> 0 < boot.bufferSize && boot.framebufferBase / 0x1000 <= i
                                   <= (boot.framebufferBase + boot.bufferSize - 1) / 0x1000
  {
    var first, last := boot.framebufferBase, boot.framebufferBase + boot.bufferSize - 1;
    if 0 < boot.bufferSize && first / 0x1000 <= i <= last / 0x1000 {
      var b := if i * 0x1000 < first then first else i * 0x1000;
      assert b / 0x1000 == i;
    }
  }

  /** A page is mapped exactly when it is below the summed size, or holds a byte of the framebuffer,
      or is the one page more that PrepareMemory allows for. */
  lemma MappedIff(boot: BootInfo, m: seq<byte>, i: nat)
    requires boot.Fits(m)
    ensures i in boot.Mapped() <==>
            || i < CountedPages(boot.mMap)
            || OnScreen(boot, i)
            || i == boot.framebufferBase / 0x1000 + (boot.bufferSize + 0xfff) / 0x1000
  {
    hide OnScreen, CountedPages;
    MappedIs(boot, m);
    OnScreenIff(boot, i);
  }

  /** Locking the framebuffer marks the frames of so many pages from its first on, and no others. */
  lemma FramebufferBits(boot: BootInfo, m: seq<byte>, i: nat)
    requires boot.Fits(m) && i < |boot.MemoryMapped(m).bits|
    ensures |boot.FramebufferLocked(m).bits| == |boot.MemoryMapped(m).bits|
    ensures boot.FramebufferLocked(m).bits[i] <==>
            || boot.MemoryMapped(m).bits[i]
            || boot.framebufferBase / 0x1000 <= i < boot.framebufferBase / 0x1000 + boot.bufferSize / 0x1000 + 2
  {
    var n := boot.FramebufferBytes() / 0x1000 + 1;
    assert n == boot.bufferSize / 0x1000 + 2;
    RangeMarks(Locking, boot.framebufferBase, n, i);
    CoversInterval(boot.framebufferBase, n, i);
    hide BootInfo.MemoryMapped, Run, RangeOps, Covers, Marks;
    MarkingRun(boot.MemoryMapped(m), RangeOps(Locking, boot.framebufferBase, n), i);
  }

  /** So every frame of the framebuffer that has a bit is in use then, and after all requests. */
  lemma FramebufferInUse(boot: BootInfo, m: seq<byte>, k: nat, b: nat)
    requires boot.Fits(m) && boot.framebufferBase <= b < boot.framebufferBase + boot.bufferSize
    ensures var bits := Requests(boot.FramebufferLocked(m), k).bits;
            b / 0x1000 < |bits| ==> bits[b / 0x1000]
  {
    RequestsOnlySet(boot.FramebufferLocked(m), k);
    hide BootInfo.MemoryMapped, BootInfo.FramebufferLocked, Requests;
    SameLength(boot, m);
    if b / 0x1000 < |boot.MemoryMapped(m).bits| {
      FramebufferBits(boot, m, b / 0x1000);
      InsideLocked(boot.framebufferBase, boot.bufferSize, b);
    }
  }

  lemma SameLength(boot: BootInfo, m: seq<byte>)
    requires boot.Fits(m)
    ensures |boot.FramebufferLocked(m).bits| == |boot.MemoryMapped(m).bits|
  {
  }

  lemma InsideLocked(start: nat, size: nat, b: nat)
    requires start <= b < start + size
    ensures start / 0x1000 <= b / 0x1000 < start / 0x1000 + size / 0x1000 + 2
  {
  }

  /** The frames locked for the kernel hold all of it exactly when the offsets of its start and of its
      size within a page do not add up past one page; kernel.ld does not align the start. */
  lemma KernelInsideLockedFrames(boot: BootInfo)
    requires boot.kernelStart < boot.kernelEnd && boot.kernelEnd + 4096 <= TWO_64
    ensures (forall b: nat | boot.kernelStart <= b < boot.kernelEnd ::
               Covers(boot.kernelStart, boot.KernelPages(), b / 4096))
            <==> boot.kernelStart % 4096 + (boot.kernelEnd - boot.kernelStart) % 4096 <= 4096
  {
    hide Covers;
    assert boot.KernelPages() == (boot.kernelEnd - boot.kernelStart) / 4096 + 1;
    BitmapInsideLockedFrames(boot.kernelStart, boot.kernelEnd - boot.kernelStart);
  }

  /** For example, with a framebuffer of 8 MB at 3 GB the last page of the screen is mapped and so is
      one page behind it. */
  lemma ScreenMapped(m: seq<byte>, boot: BootInfo)
    requires boot.Fits(m) && boot.framebufferBase == 0xC000_0000 && boot.bufferSize == 0x80_0000
    ensures 0xC0000 in boot.Mapped() && 0xC07FF in boot.Mapped() && 0xC0800 in boot.Mapped()
  {
    MappedIff(boot, m, 0xC0000);
    MappedIff(boot, m, 0xC07FF);
    MappedIff(boot, m, 0xC0800);
    OnScreenIff(boot, 0xC0000);
    OnScreenIff(boot, 0xC07FF);
  }
}

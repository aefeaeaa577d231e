/** What the bitmap says once ReadEFIMemoryMap has run. */
module BootMap {
  import opened BitWords
  import opened FrameSpec
  import opened PageFrameAllocatorModel

  /** Frame `i` is one of the `n` pages from `address`. */
  ghost predicate Covers(address: u64, n: nat, i: nat) {
    exists t | 0 <= t < n :: FrameAt(address, t) == i
  }

  /** Ranges that do not wrap cover an interval of frames. */
  lemma CoversInterval(address: u64, n: nat, i: nat)
    requires address + n * 4096 <= TWO_64
    ensures Covers(address, n, i) <==> address / 4096 <= i < address / 4096 + n
  {
    if address / 4096 <= i < address / 4096 + n {
      assert FrameAt(address, i - address / 4096) == i;
    }
  }

  ghost predicate Unusable(mMap: seq<Descriptor>, i: nat) {
    exists d | d in mMap :: d.kind != CONVENTIONAL && Covers(d.physAddr, d.numPages, i)
  }

  ghost predicate Marks(ops: seq<Op>, i: nat) {
    exists op | op in ops :: !op.RequestOp? && op.i == i
  }

  ghost predicate OnlyMarks(ops: seq<Op>) {
    forall op | op in ops :: op.LockOp? || op.ReserveOp?
  }

  lemma {:induction false} MarkingRun(s: Frames, ops: seq<Op>, i: nat)
    requires s.Valid() && OnlyMarks(ops) && i < |s.bits|
    ensures Run(s, ops).bits[i] <==> s.bits[i] || Marks(ops, i)
    decreases |ops|
  {
    if ops != [] {
      MarkingRun(Step(s, ops[0]).0, ops[1..], i);
      assert ops == [ops[0]] + ops[1..];
      assert Marks(ops, i) <==> ops[0].i == i || Marks(ops[1..], i);
    }
  }

  lemma {:induction false} RangeMarks(kind: RangeKind, address: u64, n: nat, i: nat)
    requires kind.Locking? || kind.Reserving?
    ensures OnlyMarks(RangeOps(kind, address, n))
    ensures Marks(RangeOps(kind, address, n), i) <==> Covers(address, n, i)
  {
    if n > 0 {
      RangeMarks(kind, address, n - 1, i);
      var last := OpOf(kind, FrameAt(address, n - 1));
      assert RangeOps(kind, address, n) == RangeOps(kind, address, n - 1) + [last];
      assert last in RangeOps(kind, address, n);
      if Marks(RangeOps(kind, address, n - 1), i) {
        var op :| op in RangeOps(kind, address, n - 1) && !op.RequestOp? && op.i == i;
        assert op in RangeOps(kind, address, n);
      }
    }
  }

  lemma {:induction false} ReserveMarks(mMap: seq<Descriptor>, i: nat)
    ensures OnlyMarks(ReserveOps(mMap))
    ensures Marks(ReserveOps(mMap), i) <==> Unusable(mMap, i)
  {
    if mMap != [] {
      var n := |mMap| - 1;
      var d := mMap[n];
      ReserveMarks(mMap[..n], i);
      RangeMarks(Reserving, d.physAddr, d.numPages, i);
      assert mMap == mMap[..n] + [d];
      MarksConcat(ReserveOps(mMap[..n]),
                  if d.kind != CONVENTIONAL then RangeOps(Reserving, d.physAddr, d.numPages) else [], i);
      assert Unusable(mMap, i)
             <==> Unusable(mMap[..n], i) || (d.kind != CONVENTIONAL && Covers(d.physAddr, d.numPages, i)) by {
        if Unusable(mMap[..n], i) {
          var e :| e in mMap[..n] && e.kind != CONVENTIONAL && Covers(e.physAddr, e.numPages, i);
          assert e in mMap;
        }
        assert d in mMap;
      }
    }
  }

  lemma MarksConcat(a: seq<Op>, b: seq<Op>, i: nat)
    ensures Marks(a + b, i) <==> Marks(a, i) || Marks(b, i)
  {
    if Marks(a, i) {
      var op :| op in a && !op.RequestOp? && op.i == i;
      assert op in a + b;
    }
    if Marks(b, i) {
      var op :| op in b && !op.RequestOp? && op.i == i;
      assert op in a + b;
    }
  }

  /** After ReadEFIMemoryMap a frame the allocator can hand out is marked exactly when it is
      one of the frames locked for the bitmap or a page of a descriptor that is not
      conventional memory; the extra bit Size*8 also keeps a stale 1. */
  lemma BootedBits(mMap: seq<Descriptor>, size: u64, m: seq<byte>, used: u64, reserved: u64, i: nat)
    requires Largest(mMap).0 + BitmapSize(size) < |m|
    requires i <= BitmapSize(size) * 8
    ensures var s := Booted(mMap, size, m, used, reserved);
            && |s.bits| == BitmapSize(size) * 8 + 1
            && (s.bits[i] <==> || Covers(Largest(mMap).0, BitmapSize(size) / 4096 + 1, i)
                               || Unusable(mMap, i)
                               || (i == BitmapSize(size) * 8
                                   && BitmapModel.BitAt(m, Largest(mMap).0, BitmapSize(size) * 8)))
  {
    hide Largest, BitmapSize, Run, RangeOps, ReserveOps, Covers, Unusable, Marks, BitmapModel.BitAt;
    var start := Started(size, BitmapModel.BitAt(m, Largest(mMap).0, BitmapSize(size) * 8), used, reserved);
    var locks := RangeOps(Locking, Largest(mMap).0, BitmapSize(size) / 4096 + 1);
    RangeMarks(Locking, Largest(mMap).0, BitmapSize(size) / 4096 + 1, i);
    ReserveMarks(mMap, i);
    MarksConcat(locks, ReserveOps(mMap), i);
    MarkingRun(start, BootOps(mMap, size), i);
  }

  /** The bitmap has a bit for every page of the memory size, and spare ones. */
  lemma BitmapLargeEnough(size: u64)
    ensures size / 4096 < BitmapSize(size) * 8 <= size / 4096 + 8
  {
  }

  /** The Size/4096 + 1 locked frames hold all Size bytes of a bitmap at `buffer` exactly when
      the offsets of the buffer and of its size within a page do not add up past one page. */
  lemma BitmapInsideLockedFrames(buffer: u64, size: nat)
    requires 0 < size && buffer + size + 4096 <= TWO_64
    ensures (forall b: nat | buffer <= b < buffer + size :: Covers(buffer, size / 4096 + 1, b / 4096))
            <==> buffer % 4096 + size % 4096 <= 4096
  {
    var n := size / 4096 + 1;
    forall b: nat | buffer <= b < buffer + size
      ensures Covers(buffer, n, b / 4096) <==> b / 4096 < buffer / 4096 + n
    {
      CoversInterval(buffer, n, b / 4096);
    }
    var last := buffer + size - 1;
    assert last / 4096 < buffer / 4096 + n <==> buffer % 4096 + size % 4096 <= 4096;
    assert Covers(buffer, n, last / 4096) <==> last / 4096 < buffer / 4096 + n;
  }

  /** For example, a bitmap of half a page that starts at three quarters of a page is locked in
      its first page only. */
  lemma BitmapCutOff()
    ensures !Covers(0x1C00, 0x800 / 4096 + 1, (0x1C00 + 0x800 - 1) / 4096)
  {
    CoversInterval(0x1C00, 1, 2);
  }
}

/** The three memory counters from ReadEFIMemoryMap on. */
module BootCounters {
  import opened BitWords
  import opened FrameSpec
  import opened PageFrameAllocatorModel
  import opened BootMap
  import opened MemoryMap

  // ----- a ledger that starts with the bitmap

  /** The bit behind the bitmap, which InitBitmap does not clear. */
  ghost predicate StaleBit(mMap: seq<Descriptor>, size: u64, m: seq<byte>)
    requires Largest(mMap).0 + BitmapSize(size) < |m|
  {
    BitmapModel.BitAt(m, Largest(mMap).0, BitmapSize(size) * 8)
  }

  /** What each bit stands for after ReadEFIMemoryMap: the frames locked for the bitmap are in use, the
      other pages of descriptors that are not conventional memory are reserved. */
  ghost function BootKind(mMap: seq<Descriptor>, size: u64, stale: bool, i: nat): Kind {
    if i == BitmapSize(size) * 8 && stale then Stale
    else if Covers(Largest(mMap).0, BitmapSize(size) / 4096 + 1, i) then InUse
    else if Unusable(mMap, i) then Kept
    else Available
  }

  ghost function BootKinds(mMap: seq<Descriptor>, size: u64, stale: bool): (kinds: seq<Kind>)
    ensures |kinds| == BitmapSize(size) * 8 + 1
    ensures forall i | 0 <= i < |kinds| :: kinds[i] == BootKind(mMap, size, stale, i)
  {
    seq(BitmapSize(size) * 8 + 1, i requires 0 <= i => BootKind(mMap, size, stale, i))
  }

  /** Operations of one kind, which leave marked frames alone. */
  ghost predicate OnlyKind(ops: seq<Op>, k: Kind) {
    forall op | op in ops :: if k == InUse then op.LockOp? else op.ReserveOp?
  }

  lemma {:induction false} RangeKind(kind: RangeKind, address: u64, n: nat)
    ensures kind.Locking? ==> OnlyKind(RangeOps(kind, address, n), InUse)
    ensures kind.Reserving? ==> OnlyKind(RangeOps(kind, address, n), Kept)
  {
    if n > 0 {
      RangeKind(kind, address, n - 1);
    }
  }

  lemma {:induction false} ReserveKind(mMap: seq<Descriptor>)
    ensures OnlyKind(ReserveOps(mMap), Kept)
  {
    if mMap != [] {
      var d := mMap[|mMap| - 1];
      ReserveKind(mMap[..|mMap| - 1]);
      RangeKind(Reserving, d.physAddr, d.numPages);
    }
  }

  /** Marking moves the available frames that are marked to one kind, and counts nothing wrong. */
  lemma {:induction false} MarkingLedger(l: Ledger, s: Frames, ops: seq<Op>, k: Kind)
    requires s.Valid() && Describes(l, s) && OnlyKind(ops, k) && (k == InUse || k == Kept)
    ensures var l' := LedgerRun(l, s, ops);
            && l' == l.(kinds := l'.kinds) && |l'.kinds| == |l.kinds|
            && forall i | 0 <= i < |l.kinds| ::
                 l'.kinds[i] == if l.kinds[i] == Available && Marks(ops, i) then k else l.kinds[i]
    decreases |ops|
  {
    if ops != [] {
      var l1, s1 := LedgerStep(l, s, ops[0]), Step(s, ops[0]).0;
      LedgerStepExact(l, s, ops[0]);
      assert ops == [ops[0]] + ops[1..];
      MarkingLedger(l1, s1, ops[1..], k);
      forall i | 0 <= i < |l.kinds|
        ensures Marks(ops, i) <==> ops[0].i == i || Marks(ops[1..], i)
      {
        MarksConcat([ops[0]], ops[1..], i);
      }
    }
  }

  lemma {:induction false} LedgerConcat(l: Ledger, s: Frames, a: seq<Op>, b: seq<Op>)
    requires s.Valid() && Describes(l, s)
    ensures Describes(LedgerRun(l, s, a), Run(s, a))
    ensures LedgerRun(l, s, a + b) == LedgerRun(LedgerRun(l, s, a), Run(s, a), b)
    decreases |a|
  {
    if a == [] {
      assert a + b == b;
    } else {
      assert (a + b)[1..] == a[1..] + b;
      LedgerStepExact(l, s, a[0]);
      LedgerConcat(LedgerStep(l, s, a[0]), Step(s, a[0]).0, a[1..], b);
    }
  }

  // ----- the counters when ReadEFIMemoryMap returns

  lemma {:induction false} CountKindNone(kinds: seq<Kind>, k: Kind)
    requires forall i | 0 <= i < |kinds| :: kinds[i] != k
    ensures CountKind(kinds, k) == 0
  {
    if kinds != [] {
      CountKindNone(kinds[1..], k);
    }
  }

  /** The bits after InitBitmap: all clear but perhaps the stale one. */
  function StartKinds(n: nat, stale: bool): (kinds: seq<Kind>)
    ensures |kinds| == n + 1 && forall i | 0 <= i <= n :: kinds[i] == if i == n && stale then Stale else Available
  {
    seq(n, _ => Available) + [if stale then Stale else Available]
  }

  lemma StartedLedger(size: u64, stale: bool)
    ensures var l, s := Balanced(StartKinds(BitmapSize(size) * 8, stale)), Started(size, stale, 0, 0);
            s.Valid() && Describes(l, s) && UsedGap(l, s) == ReservedGap(l, s) == 0 && Total(s) == size
  {
    CountKindNone(StartKinds(BitmapSize(size) * 8, stale), InUse);
    CountKindNone(StartKinds(BitmapSize(size) * 8, stale), Kept);
  }

  /** Both loops of ReadEFIMemoryMap, as the ledger sees them. */
  lemma BootLedger(mMap: seq<Descriptor>, size: u64, stale: bool)
    ensures var l, s := Balanced(StartKinds(BitmapSize(size) * 8, stale)), Started(size, stale, 0, 0);
            s.Valid() && Describes(l, s)
            && LedgerRun(l, s, BootOps(mMap, size)) == Balanced(BootKinds(mMap, size, stale))
  {
    hide Largest, BitmapSize, RangeOps, ReserveOps, LedgerRun, Run, Covers, Unusable, Marks, OnlyKind, Describes;
    hide UsedGap, ReservedGap, Total;
    StartedLedger(size, stale);
    var l, s := Balanced(StartKinds(BitmapSize(size) * 8, stale)), Started(size, stale, 0, 0);
    var locks := RangeOps(Locking, Largest(mMap).0, BitmapSize(size) / 4096 + 1);
    RangeKind(Locking, Largest(mMap).0, BitmapSize(size) / 4096 + 1);
    ReserveKind(mMap);
    MarkingLedger(l, s, locks, InUse);
    LedgerConcat(l, s, locks, ReserveOps(mMap));
    var l1, s1 := LedgerRun(l, s, locks), Run(s, locks);
    MarkingLedger(l1, s1, ReserveOps(mMap), Kept);
    var l2 := LedgerRun(l1, s1, ReserveOps(mMap));
    forall i | 0 <= i < |l2.kinds|
      ensures l2.kinds[i] == BootKind(mMap, size, stale, i)
    {
      RangeMarks(Locking, Largest(mMap).0, BitmapSize(size) / 4096 + 1, i);
      ReserveMarks(mMap, i);
    }
    assert l2.kinds == BootKinds(mMap, size, stale);
  }

  /** When ReadEFIMemoryMap returns, used and reserved are the memory of the frames of each kind, and
      the three counters add up to the summed size. */
  lemma BootedCounters(mMap: seq<Descriptor>, size: u64, m: seq<byte>)
    requires Largest(mMap).0 + BitmapSize(size) < |m|
    ensures var s, kinds := Booted(mMap, size, m, 0, 0), BootKinds(mMap, size, StaleBit(mMap, size, m));
            && s.Valid() && Describes(Balanced(kinds), s)
            && s.used == 4096 * CountKind(kinds, InUse) % TWO_64
            && s.reserved == 4096 * CountKind(kinds, Kept) % TWO_64
            && (s.free + s.used + s.reserved) % TWO_64 == size
  {
    hide *;
    var stale := StaleBit(mMap, size, m);
    StartedLedger(size, stale);
    BootLedger(mMap, size, stale);
    var l, s := Balanced(StartKinds(BitmapSize(size) * 8, stale)), Started(size, stale, 0, 0);
    LedgerRunExact(l, s, BootOps(mMap, size));
    RunConserves(s, BootOps(mMap, size));
    BootedRun(mMap, size, m);
    ZeroRemainder();
    NoGapLeft(BootKinds(mMap, size, stale), Booted(mMap, size, m, 0, 0));
    TotalIs(Booted(mMap, size, m, 0, 0));
  }

  lemma BootedRun(mMap: seq<Descriptor>, size: u64, m: seq<byte>)
    requires Largest(mMap).0 + BitmapSize(size) < |m|
    ensures Booted(mMap, size, m, 0, 0) == Run(Started(size, StaleBit(mMap, size, m), 0, 0), BootOps(mMap, size))
  {
    hide BootOps, Run, Started, Largest, BitmapSize;
  }

  lemma ZeroRemainder()
    ensures 0 % TWO_64 == 0
  {
  }

  lemma TotalIs(s: Frames)
    ensures Total(s) == (s.free + s.used + s.reserved) % TWO_64
  {
  }

  lemma NoGapLeft(kinds: seq<Kind>, s: Frames)
    requires UsedGap(Balanced(kinds), s) % TWO_64 == ReservedGap(Balanced(kinds), s) % TWO_64 == 0
    ensures s.used == 4096 * CountKind(kinds, InUse) % TWO_64
    ensures s.reserved == 4096 * CountKind(kinds, Kept) % TWO_64
  {
    hide CountKind;
    SameRemainder(s.used, 4096 * CountKind(kinds, InUse));
    SameRemainder(s.reserved, 4096 * CountKind(kinds, Kept));
  }

  lemma SameRemainder(counter: u64, memory: nat)
    requires (counter - memory) % TWO_64 == 0
    ensures counter == memory % TWO_64
  {
    var q := (counter - memory) / TWO_64;
    assert counter == memory + q * TWO_64;
  }

  /** And behind it, over every run: the sum stays, the free counter is the summed size without the
      memory of the bits set since boot exactly when that is a number of 64 bits, and the other two
      are the memory of the frames of their kind exactly when the miscounts cancel. */
  lemma CountersFromBoot(mMap: seq<Descriptor>, size: u64, m: seq<byte>, ops: seq<Op>)
    requires Largest(mMap).0 + BitmapSize(size) < |m|
    ensures var s, kinds := Booted(mMap, size, m, 0, 0), BootKinds(mMap, size, StaleBit(mMap, size, m));
            && s.Valid() && |kinds| == |s.bits|
            && var t, l := Run(s, ops), LedgerRun(Balanced(kinds), s, ops);
            && (t.free + t.used + t.reserved) % TWO_64 == size
            && (t.used == 4096 * CountKind(l.kinds, InUse) % TWO_64
                <==> (l.wrongFree + l.staleFree - l.wrongUnreserve) % 0x10_0000_0000_0000 == 0)
            && (t.reserved == 4096 * CountKind(l.kinds, Kept) % TWO_64
                <==> (l.wrongFree - l.wrongUnreserve - l.staleUnreserve) % 0x10_0000_0000_0000 == 0)
            && var rest := size - 4096 * (Count(t.bits) - if StaleBit(mMap, size, m) then 1 else 0);
               (t.free == rest <==> 0 <= rest < TWO_64)
  {
    hide Booted, LedgerRun, Run, BootKinds, CountKind, Count, Largest, BitmapSize, StaleBit;
    BootedCounters(mMap, size, m);
    BootedAccounted(mMap, size, m);
    var s, kinds := Booted(mMap, size, m, 0, 0), BootKinds(mMap, size, StaleBit(mMap, size, m));
    SumStays(s, ops, size);
    UsedExactIff(kinds, s, ops);
    ReservedExactIff(kinds, s, ops);
    FreeFrom(s, ops, size, if StaleBit(mMap, size, m) then 1 else 0);
  }

  lemma SumStays(s: Frames, ops: seq<Op>, size: u64)
    requires s.Valid() && (s.free + s.used + s.reserved) % TWO_64 == size
    ensures var t := Run(s, ops); (t.free + t.used + t.reserved) % TWO_64 == size
  {
    hide Run;
    RunConserves(s, ops);
  }

  lemma FreeFrom(s: Frames, ops: seq<Op>, size: u64, stale: nat)
    requires s.Valid() && Accounted(s) == (size + 4096 * stale) % TWO_64
    ensures var t := Run(s, ops);
            var rest := size - 4096 * (Count(t.bits) - stale);
            t.free == rest <==> 0 <= rest < TWO_64
  {
    hide Run, Count;
    RunConserves(s, ops);
    SameResidue(Run(s, ops).free, 4096 * Count(Run(s, ops).bits), size + 4096 * stale);
  }

  lemma {:induction false} CountLast(bits: seq<bool>)
    requires bits != [] && forall i | 0 <= i < |bits| - 1 :: !bits[i]
    ensures Count(bits) == if bits[|bits| - 1] then 1 else 0
  {
    if |bits| > 1 {
      CountLast(bits[1..]);
    } else {
      assert bits[1..] == [];
    }
  }

  lemma BootedAccounted(mMap: seq<Descriptor>, size: u64, m: seq<byte>)
    requires Largest(mMap).0 + BitmapSize(size) < |m|
    ensures var s := Booted(mMap, size, m, 0, 0);
            s.Valid() && Accounted(s) == (size + 4096 * if StaleBit(mMap, size, m) then 1 else 0) % TWO_64
  {
    hide BootOps, Run, Count, Largest, BitmapSize;
    var stale := StaleBit(mMap, size, m);
    var s := Started(size, stale, 0, 0);
    StartedValid(size, stale);
    CountLast(s.bits);
    RunConserves(s, BootOps(mMap, size));
  }

  lemma StartedValid(size: u64, stale: bool)
    ensures Started(size, stale, 0, 0).Valid()
  {
  }

  // ----- for example

  ghost function OfKind(kinds: seq<Kind>, k: Kind): set<nat> {
    set i | 0 <= i < |kinds| && kinds[i] == k
  }

  /** A count is the number of frames of the kind. */
  lemma {:induction false} CountKindIs(kinds: seq<Kind>, k: Kind)
    ensures CountKind(kinds, k) == |OfKind(kinds, k)|
  {
    if kinds == [] {
      assert OfKind(kinds, k) == {};
    } else {
      var n := |kinds| - 1;
      CountKindIs(kinds[..n], k);
      CountKindLast(kinds[..n], kinds[n], k);
      OfKindLast(kinds[..n], kinds[n], k);
      assert kinds == kinds[..n] + [kinds[n]];
    }
  }

  lemma OfKindLast(kinds: seq<Kind>, last: Kind, k: Kind)
    ensures |OfKind(kinds + [last], k)| == |OfKind(kinds, k)| + if last == k then 1 else 0
  {
    var all := OfKind(kinds + [last], k);
    if last == k {
      assert all == OfKind(kinds, k) + {|kinds|};
    } else {
      assert all == OfKind(kinds, k);
    }
  }

  lemma {:induction false} CountKindLast(kinds: seq<Kind>, last: Kind, k: Kind)
    ensures CountKind(kinds + [last], k) == CountKind(kinds, k) + if last == k then 1 else 0
  {
    if kinds == [] {
      assert [] + [last] == [last] && [last][1..] == [];
    } else {
      assert (kinds + [last])[1..] == kinds[1..] + [last];
      CountKindLast(kinds[1..], last, k);
    }
  }

  lemma OneInUse(kinds: seq<Kind>)
    requires kinds != [] && forall i | 0 <= i < |kinds| :: (kinds[i] == InUse <==> i == 0) && kinds[i] != Kept
    ensures CountKind(kinds, InUse) == 1 && CountKind(kinds, Kept) == 0
  {
    CountKindIs(kinds, InUse);
    CountKindNone(kinds, Kept);
    assert OfKind(kinds, InUse) == {0};
  }

  /** With one segment of 64 pages, of which one holds the bitmap, 63 pages are free. */
  lemma SixtyFourPages(m: seq<byte>)
    requires |m| == 64 * 4096
    ensures var mMap := [Descriptor(7, 0, 64)];
            && MemorySize(mMap) == 64 * 4096 && Largest(mMap).0 + BitmapSize(64 * 4096) < |m|
            && var s := Booted(mMap, 64 * 4096, m, 0, 0);
            s.free == 63 * 4096 && s.used == 4096 && s.reserved == 0
  {
    hide Booted, CountKind, Covers, Describes;
    var mMap := [Descriptor(7, 0, 64)];
    assert mMap[..0] == [];
    assert Largest(mMap).0 == 0 && BitmapSize(64 * 4096) == 9;
    BootedCounters(mMap, 64 * 4096, m);
    var kinds := BootKinds(mMap, 64 * 4096, StaleBit(mMap, 64 * 4096, m));
    hide BootKinds, StaleBit;
    forall i | 0 <= i < |kinds|
      ensures (kinds[i] == InUse <==> i == 0) && kinds[i] != Kept
    {
      CoversInterval(0, 1, i);
      assert !Unusable(mMap, i);
    }
    OneInUse(kinds);
    SixtyThree(Booted(mMap, 64 * 4096, m, 0, 0).free);
  }

  lemma SixtyThree(free: u64)
    requires (free + 4096) % TWO_64 == 64 * 4096
    ensures free == 63 * 4096
  {
  }
}

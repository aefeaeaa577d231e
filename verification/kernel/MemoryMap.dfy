/** Which frames the EFI memory map describes, and when they are the frames below its summed size,
    which is what the kernel takes them for. */
module MemoryMap {
  import opened BitWords
  import opened PageFrameAllocatorModel
  import opened BootMap

  /** Some descriptor covers frame `i`: the frame exists. */
  ghost predicate Described(mMap: seq<Descriptor>, i: nat) {
    exists d | d in mMap :: Covers(d.physAddr, d.numPages, i)
  }

  ghost predicate Conventional(mMap: seq<Descriptor>, i: nat) {
    exists d | d in mMap :: d.kind == CONVENTIONAL && Covers(d.physAddr, d.numPages, i)
  }

  lemma DescribedIff(mMap: seq<Descriptor>, i: nat)
    ensures Described(mMap, i) <==> Conventional(mMap, i) || Unusable(mMap, i)
  {
  }

  /** The pages the summed size counts. */
  function CountedPages(mMap: seq<Descriptor>): nat {
    MemorySize(mMap) / 4096
  }

  /** No frame below the counted number of pages is missing from the map. */
  ghost predicate NoGap(mMap: seq<Descriptor>) {
    forall i: nat | i < CountedPages(mMap) :: Described(mMap, i)
  }

  /** The frames of the map are the ones below the counted number of pages. */
  ghost predicate Contiguous(mMap: seq<Descriptor>) {
    forall i: nat :: Described(mMap, i) <==> i < CountedPages(mMap)
  }

  // ----- counting frames

  ghost function FramesOf(d: Descriptor, n: nat): set<nat> {
    set t | 0 <= t < n :: FrameAt(d.physAddr, t)
  }

  ghost function FrameSet(mMap: seq<Descriptor>): set<nat> {
    if mMap == [] then {}
    else
      var d := mMap[|mMap| - 1];
      FrameSet(mMap[..|mMap| - 1]) + FramesOf(d, d.numPages)
  }

  lemma {:induction false} FramesDescribed(mMap: seq<Descriptor>, i: nat)
    ensures i in FrameSet(mMap) <==> Described(mMap, i)
  {
    if mMap != [] {
      var n := |mMap| - 1;
      FramesDescribed(mMap[..n], i);
      assert mMap == mMap[..n] + [mMap[n]];
      assert i in FramesOf(mMap[n], mMap[n].numPages) <==> Covers(mMap[n].physAddr, mMap[n].numPages, i);
      assert Described(mMap, i) <==> Described(mMap[..n], i) || Covers(mMap[n].physAddr, mMap[n].numPages, i) by {
        if Described(mMap[..n], i) {
          var d :| d in mMap[..n] && Covers(d.physAddr, d.numPages, i);
          assert d in mMap;
        }
        assert mMap[n] in mMap;
      }
    }
  }

  lemma {:induction false} FrameCount(d: Descriptor, n: nat)
    ensures |FramesOf(d, n)| <= n
    ensures n <= 0x10_0000_0000_0000 ==> |FramesOf(d, n)| == n
  {
    hide FrameAt;
    if n == 0 {
      assert FramesOf(d, n) == {};
    } else {
      FrameCount(d, n - 1);
      var last := FrameAt(d.physAddr, n - 1);
      assert FramesOf(d, n) == FramesOf(d, n - 1) + {last};
      if n <= 0x10_0000_0000_0000 && last in FramesOf(d, n - 1) {
        var t :| 0 <= t < n - 1 && FrameAt(d.physAddr, t) == last;
        FramesDiffer(d.physAddr, t, n - 1);
      }
    }
  }

  /** Pages less than 2^52 apart are different frames. */
  lemma FramesDiffer(address: u64, t: nat, k: nat)
    requires t < k < t + 0x10_0000_0000_0000
    ensures FrameAt(address, t) != FrameAt(address, k)
  {
    FrameModulo(address, t);
    FrameModulo(address, k);
  }

  lemma FrameModulo(address: u64, t: nat)
    ensures FrameAt(address, t) == (address / 4096 + t) % 0x10_0000_0000_0000
  {
    var a := address + t * 4096;
    assert a / 4096 == address / 4096 + t;
    var q := a / TWO_64;
    assert a % TWO_64 == a - q * TWO_64;
    assert (a - q * TWO_64) / 4096 == a / 4096 - q * 0x10_0000_0000_0000;
  }

  /** The sizes added up without wrapping, in pages. */
  function TotalPages(mMap: seq<Descriptor>): nat {
    if mMap == [] then 0 else TotalPages(mMap[..|mMap| - 1]) + mMap[|mMap| - 1].numPages
  }

  lemma {:induction false} SizeIsTotal(mMap: seq<Descriptor>)
    requires TotalPages(mMap) * 4096 < TWO_64
    ensures CountedPages(mMap) == TotalPages(mMap) && MemorySize(mMap) == TotalPages(mMap) * 4096
  {
    if mMap != [] {
      SizeIsTotal(mMap[..|mMap| - 1]);
    }
  }

  lemma {:induction false} FramesAtMostTotal(mMap: seq<Descriptor>)
    ensures |FrameSet(mMap)| <= TotalPages(mMap)
  {
    if mMap != [] {
      var d := mMap[|mMap| - 1];
      FramesAtMostTotal(mMap[..|mMap| - 1]);
      FrameCount(d, d.numPages);
    }
  }

  /** Each descriptor is apart from the ones before it. */
  ghost predicate NoOverlap(mMap: seq<Descriptor>) {
    mMap != [] ==>
      var d := mMap[|mMap| - 1];
      NoOverlap(mMap[..|mMap| - 1]) && FrameSet(mMap[..|mMap| - 1]) !! FramesOf(d, d.numPages)
  }

  lemma {:induction false} FramesAreTotal(mMap: seq<Descriptor>)
    requires NoOverlap(mMap) && TotalPages(mMap) <= 0x10_0000_0000_0000
    ensures |FrameSet(mMap)| == TotalPages(mMap)
  {
    if mMap != [] {
      var d := mMap[|mMap| - 1];
      FramesAreTotal(mMap[..|mMap| - 1]);
      FrameCount(d, d.numPages);
    }
  }

  function Below(n: nat): (s: set<nat>)
    ensures |s| == n && forall i: nat :: i in s <==> i < n
  {
    if n == 0 then {} else Below(n - 1) + {n - 1}
  }

  lemma EqualIfAsMany(a: set<nat>, b: set<nat>)
    requires a <= b && |b| <= |a|
    ensures a == b
  {
    assert |b - a| == |b| - |a|;
  }

  /** The map has the frames below its counted pages and no others exactly when it has all of
      those and not more frames than it counts. */
  lemma ContiguousIff(mMap: seq<Descriptor>)
    ensures Contiguous(mMap) <==> NoGap(mMap) && |FrameSet(mMap)| <= CountedPages(mMap)
  {
    hide Described, FrameSet, CountedPages;
    var n := CountedPages(mMap);
    forall i: nat
      ensures i in FrameSet(mMap) <==> Described(mMap, i)
    {
      FramesDescribed(mMap, i);
    }
    if Contiguous(mMap) {
      assert FrameSet(mMap) == Below(n);
    }
    if NoGap(mMap) && |FrameSet(mMap)| <= n {
      EqualIfAsMany(Below(n), FrameSet(mMap));
    }
  }

  /** If the sizes add up without wrapping it is enough to look for gaps. */
  lemma ContiguousIffNoGap(mMap: seq<Descriptor>)
    requires TotalPages(mMap) * 4096 < TWO_64
    ensures Contiguous(mMap) <==> NoGap(mMap)
  {
    hide Contiguous, NoGap, FrameSet, CountedPages, TotalPages;
    ContiguousIff(mMap);
    SizeIsTotal(mMap);
    FramesAtMostTotal(mMap);
  }

  /** And if no descriptors overlap, a gap below the counted pages means memory behind them. */
  lemma GapIffMemoryBehind(mMap: seq<Descriptor>)
    requires TotalPages(mMap) * 4096 < TWO_64 && NoOverlap(mMap)
    ensures NoGap(mMap) <==> forall i: nat | Described(mMap, i) :: i < CountedPages(mMap)
  {
    hide Described, FrameSet, CountedPages, TotalPages, NoOverlap;
    var n := CountedPages(mMap);
    ContiguousIffNoGap(mMap);
    SizeIsTotal(mMap);
    FramesAreTotal(mMap);
    if forall i: nat | Described(mMap, i) :: i < n {
      forall i | i in FrameSet(mMap)
        ensures i < n
      {
        FramesDescribed(mMap, i);
      }
      EqualIfAsMany(FrameSet(mMap), Below(n));
      forall i: nat | i < n
        ensures Described(mMap, i)
      {
        FramesDescribed(mMap, i);
      }
    }
  }
}

/** The page-frame allocator as a transition system on values: what every operation of
    kernel/src/Paging/PageFrameAllocator.cpp does to the bitmap bits, the search hint and the
    three counters, and what follows for whole runs. */
module FrameSpec {
  import opened BitWords
  import opened Options

  /** `bits` has one element per bit index that `operator[]` and `Set` let through, that is
      Size*8 + 1 of them: the bound tests use `>` where `>=` was meant. `RequestPage` scans
      the first Size*8 only. */
  datatype Frames = Frames(bits: seq<bool>, hint: nat, free: u64, used: u64, reserved: u64) {
    ghost predicate Valid() {
      |bits| > 0 && hint <= Limit()
    }

    function Limit(): nat {
      if |bits| == 0 then 0 else |bits| - 1
    }
  }

  // ----- the operations, by frame index

  function Lock(s: Frames, i: nat): Frames {
    if i >= |s.bits| || s.bits[i] then s
    else s.(bits := s.bits[i := true], free := Sub64(s.free, 4096), used := Add64(s.used, 4096))
  }

  function Reserve(s: Frames, i: nat): Frames {
    if i >= |s.bits| || s.bits[i] then s
    else s.(bits := s.bits[i := true], free := Sub64(s.free, 4096), reserved := Add64(s.reserved, 4096))
  }

  function Free(s: Frames, i: nat): Frames {
    if i >= |s.bits| || !s.bits[i] then s
    else s.(bits := s.bits[i := false], free := Add64(s.free, 4096), used := Sub64(s.used, 4096),
            hint := if s.hint > i then i else s.hint)
  }

  function Unreserve(s: Frames, i: nat): Frames {
    if i >= |s.bits| || !s.bits[i] then s
    else s.(bits := s.bits[i := false], free := Add64(s.free, 4096), reserved := Sub64(s.reserved, 4096),
            hint := if s.hint > i then i else s.hint)
  }

  /** The first clear bit in `from..limit`, or `limit`. */
  function Scan(bits: seq<bool>, from: nat, limit: nat): (i: nat)
    requires from <= limit <= |bits|
    ensures from <= i <= limit
    ensures i < limit ==> !bits[i]
    ensures forall j | from <= j < i :: bits[j]
    decreases limit - from
  {
    if from == limit || !bits[from] then from else Scan(bits, from + 1, limit)
  }

  /** `RequestPage`: the new state, and the frame handed out if there is one. */
  function Request(s: Frames): (Frames, Option<nat>)
    requires s.Valid()
  {
    var i := Scan(s.bits, s.hint, s.Limit());
    var s1 := s.(hint := i);
    if i < s.Limit() then (Lock(s1, i), Some(i)) else (s1, None)
  }

  datatype Op = LockOp(i: nat) | ReserveOp(i: nat) | FreeOp(i: nat) | UnreserveOp(i: nat) | RequestOp

  function Step(s: Frames, op: Op): (Frames, Option<nat>)
    requires s.Valid()
    ensures Step(s, op).0.Valid() && |Step(s, op).0.bits| == |s.bits|
  {
    match op
    case LockOp(i) => (Lock(s, i), None)
    case ReserveOp(i) => (Reserve(s, i), None)
    case FreeOp(i) => (Free(s, i), None)
    case UnreserveOp(i) => (Unreserve(s, i), None)
    case RequestOp => Request(s)
  }

  function Run(s: Frames, ops: seq<Op>): (r: Frames)
    requires s.Valid()
    ensures r.Valid() && |r.bits| == |s.bits|
    decreases |ops|
  {
    if ops == [] then s else Run(Step(s, ops[0]).0, ops[1..])
  }

  /** What a run hands out, operation by operation. */
  function Results(s: Frames, ops: seq<Op>): (r: seq<Option<nat>>)
    requires s.Valid()
    ensures |r| == |ops|
    decreases |ops|
  {
    if ops == [] then [] else [Step(s, ops[0]).1] + Results(Step(s, ops[0]).0, ops[1..])
  }

  // ----- the hint

  /** Every frame below the hint is in use. */
  ghost predicate HintSound(s: Frames) {
    s.Valid() && forall i | 0 <= i < s.hint :: s.bits[i]
  }

  /** Moving the hint to where the scan stops is sound. */
  lemma ScanIsSound(s: Frames)
    requires HintSound(s)
    ensures s.Valid() && HintSound(s.(hint := Scan(s.bits, s.hint, s.Limit())))
  {
  }

  lemma ScanStep(bits: seq<bool>, from: nat, limit: nat)
    requires from <= limit <= |bits|
    ensures Scan(bits, from, limit) == if from == limit || !bits[from] then from else Scan(bits, from + 1, limit)
  {
  }

  lemma StepKeepsHint(s: Frames, op: Op)
    requires HintSound(s)
    ensures HintSound(Step(s, op).0)
  {
  }

  lemma {:induction false} RunKeepsHint(s: Frames, ops: seq<Op>)
    requires HintSound(s)
    ensures HintSound(Run(s, ops))
    decreases |ops|
  {
    if ops != [] {
      StepKeepsHint(s, ops[0]);
      RunKeepsHint(Step(s, ops[0]).0, ops[1..]);
    }
  }

  /** After any run from a state with a sound hint, `RequestPage` hands out the lowest free
      frame, and hands out nothing exactly when no frame is free. */
  lemma RequestIsLowestFree(s: Frames, ops: seq<Op>)
    requires HintSound(s)
    ensures var t := Run(s, ops);
            match Request(t).1
            case Some(i) => i < t.Limit() && !t.bits[i] && forall j | 0 <= j < i :: t.bits[j]
            case None => forall j | 0 <= j < t.Limit() :: t.bits[j]
  {
    RunKeepsHint(s, ops);
  }

  /** The allocator without a hint: only bits, always scanned from 0. */
  function PlainStep(bits: seq<bool>, op: Op): (seq<bool>, Option<nat>)
    requires |bits| > 0
    ensures |PlainStep(bits, op).0| == |bits|
  {
    match op
    case LockOp(i) => (if i < |bits| then bits[i := true] else bits, None)
    case ReserveOp(i) => (if i < |bits| then bits[i := true] else bits, None)
    case FreeOp(i) => (if i < |bits| then bits[i := false] else bits, None)
    case UnreserveOp(i) => (if i < |bits| then bits[i := false] else bits, None)
    case RequestOp =>
      var i := Scan(bits, 0, |bits| - 1);
      if i < |bits| - 1 then (bits[i := true], Some(i)) else (bits, None)
  }

  function PlainResults(bits: seq<bool>, ops: seq<Op>): (r: seq<Option<nat>>)
    requires |bits| > 0
    ensures |r| == |ops|
    decreases |ops|
  {
    if ops == [] then [] else [PlainStep(bits, ops[0]).1] + PlainResults(PlainStep(bits, ops[0]).0, ops[1..])
  }

  function PlainRun(bits: seq<bool>, ops: seq<Op>): (r: seq<bool>)
    requires |bits| > 0
    ensures |r| == |bits|
    decreases |ops|
  {
    if ops == [] then bits else PlainRun(PlainStep(bits, ops[0]).0, ops[1..])
  }

  lemma PlainStepAgrees(s: Frames, op: Op)
    requires HintSound(s)
    ensures PlainStep(s.bits, op).0 == Step(s, op).0.bits
    ensures PlainStep(s.bits, op).1 == Step(s, op).1
  {
    if op.RequestOp? {
      var i, k := Scan(s.bits, s.hint, s.Limit()), Scan(s.bits, 0, s.Limit());
      assert i == k;
    } else if op.i < |s.bits| {
      assert s.bits == s.bits[op.i := s.bits[op.i]];
    }
  }

  /** The hint refines a scan from 0: over every run the two allocators hand out the same
      frames and end with the same bitmap. */
  lemma {:induction false} HintRefinesFullScan(s: Frames, ops: seq<Op>)
    requires HintSound(s)
    ensures Results(s, ops) == PlainResults(s.bits, ops)
    ensures Run(s, ops).bits == PlainRun(s.bits, ops)
    decreases |ops|
  {
    if ops != [] {
      PlainStepAgrees(s, ops[0]);
      HintRefinesFullScan(Step(s, ops[0]).0, ops[1..]);
    }
  }

  // ----- the counters

  /** The number of set bits. */
  function Count(bits: seq<bool>): (n: nat)
    ensures n <= |bits|
  {
    if bits == [] then 0 else Count(bits[1..]) + (if bits[0] then 1 else 0)
  }

  lemma {:induction false} CountUpdate(bits: seq<bool>, i: nat, b: bool)
    requires i < |bits|
    ensures Count(bits[i := b]) == Count(bits) - (if bits[i] then 1 else 0) + (if b then 1 else 0)
  {
    if i == 0 {
      assert bits[i := b][1..] == bits[1..];
    } else {
      CountUpdate(bits[1..], i - 1, b);
      assert bits[i := b][1..] == bits[1..][i - 1 := b];
    }
  }

  /** The number of frames below `n` that can still be handed out. */
  function Supply(s: Frames, n: nat): nat {
    var k := if n < s.Limit() then n else s.Limit();
    k - Count(s.bits[..k])
  }

  lemma {:induction false} CountAll(bits: seq<bool>)
    ensures Count(bits) == |bits| <==> forall i | 0 <= i < |bits| :: bits[i]
  {
    if bits != [] {
      CountAll(bits[1..]);
      assert bits == [bits[0]] + bits[1..];
    }
  }

  /** `RequestPage` hands out a frame below `n` exactly when there is one left, and takes it. */
  lemma RequestTakesOne(s: Frames, n: nat)
    requires HintSound(s)
    ensures Supply(s, n) > 0 <==> Request(s).1.Some? && Request(s).1.value < n
    ensures Supply(Request(s).0, n) == if Supply(s, n) > 0 then Supply(s, n) - 1 else 0
    ensures HintSound(Request(s).0)
  {
    var k := if n < s.Limit() then n else s.Limit();
    CountAll(s.bits[..k]);
    var i := Scan(s.bits, s.hint, s.Limit());
    if i < k {
      assert !s.bits[..k][i];
      CountUpdate(s.bits[..k], i, true);
      assert s.bits[i := true][..k] == s.bits[..k][i := true];
    } else {
      assert forall j | 0 <= j < k :: s.bits[..k][j];
      if i < s.Limit() {
        assert s.bits[i := true][..k] == s.bits[..k];
      }
    }
  }

  /** The frame handed out is one of the first `n` frames exactly when one of those is free. */
  lemma RequestInsideIff(s: Frames, ops: seq<Op>, n: nat)
    requires HintSound(s) && n <= s.Limit()
    ensures var t := Run(s, ops);
            Request(t).1.Some? && Request(t).1.value < n <==> exists j | 0 <= j < n :: !t.bits[j]
  {
    RequestIsLowestFree(s, ops);
  }

  /** `n` successive requests. */
  function Requests(s: Frames, n: nat): (r: Frames)
    requires s.Valid()
    ensures r.Valid()
  {
    if n == 0 then s else Request(Requests(s, n - 1)).0
  }

  lemma {:induction false} RequestsCompose(s: Frames, a: nat, b: nat)
    requires s.Valid()
    ensures Requests(Requests(s, a), b) == Requests(s, a + b)
  {
    hide Request;
    if b > 0 {
      RequestsCompose(s, a, b - 1);
    }
  }

  lemma {:induction false} RequestsSupply(s: Frames, n: nat, limit: nat)
    requires HintSound(s) && n <= Supply(s, limit)
    ensures HintSound(Requests(s, n)) && Supply(Requests(s, n), limit) == Supply(s, limit) - n
  {
    if n > 0 {
      RequestsSupply(s, n - 1, limit);
      RequestTakesOne(Requests(s, n - 1), limit);
    }
  }

  lemma {:induction false} RequestsOnlySet(s: Frames, n: nat)
    requires s.Valid()
    ensures |Requests(s, n).bits| == |s.bits|
    ensures forall i | 0 <= i < |s.bits| && s.bits[i] :: Requests(s, n).bits[i]
  {
    if n > 0 {
      RequestsOnlySet(s, n - 1);
    }
  }

  lemma TakenBelow(t: Frames, n: nat)
    requires HintSound(t) && Supply(t, n) > 0
    ensures |Request(t).0.bits| == |t.bits|
    ensures forall i | n <= i < |t.bits| :: Request(t).0.bits[i] == t.bits[i]
  {
    RequestTakesOne(t, n);
  }

  /** Requests that find a frame below `n` leave the bits from `n` on alone. */
  lemma {:induction false} RequestsBelow(s: Frames, k: nat, n: nat)
    requires HintSound(s) && k <= Supply(s, n)
    ensures |Requests(s, k).bits| == |s.bits|
    ensures forall i | n <= i < |s.bits| :: Requests(s, k).bits[i] == s.bits[i]
  {
    assert s.Valid();
    hide Supply, HintSound, Scan, Request;
    if k > 0 {
      RequestsBelow(s, k - 1, n);
      RequestsSupply(s, k - 1, n);
      TakenBelow(Requests(s, k - 1), n);
    }
  }

  /** Once the frames below `n` are used up, frame `n` is next if its bit is clear. */
  lemma NextBehind(s: Frames, n: nat)
    requires HintSound(s) && n < s.Limit() && !s.bits[n]
    ensures HintSound(Requests(s, Supply(s, n)))
    ensures Request(Requests(s, Supply(s, n))).1 == Some(n)
  {
    hide Supply;
    var t := Requests(s, Supply(s, n));
    RequestsSupply(s, Supply(s, n), n);
    RequestsBelow(s, Supply(s, n), n);
    RequestTakesOne(t, n);
    assert Run(t, []) == t;
    RequestIsLowestFree(t, []);
  }

  /** The lowest frame from `from` on that can be handed out and is not in `S`, or the limit. */
  ghost function FirstOutside(s: Frames, S: iset<nat>, from: nat): (g: nat)
    requires from <= s.Limit()
    ensures from <= g <= s.Limit()
    ensures g < s.Limit() ==> !s.bits[g] && g !in S
    ensures forall i | from <= i < g :: s.bits[i] || i in S
    decreases s.Limit() - from
  {
    if from == s.Limit() || (!s.bits[from] && from !in S) then from else FirstOutside(s, S, from + 1)
  }

  /** The first `k` requests all hand out frames of `S`. */
  ghost predicate ServedFrom(s: Frames, S: iset<nat>, k: nat)
    requires s.Valid()
  {
    forall j | 0 <= j < k :: Request(Requests(s, j)).1.Some? && Request(Requests(s, j)).1.value in S
  }

  /** They do so exactly as long as frames below the first free frame outside of `S` last. */
  lemma ServedFromIff(s: Frames, S: iset<nat>, k: nat)
    requires HintSound(s)
    ensures ServedFrom(s, S, k) <==> k <= Supply(s, FirstOutside(s, S, 0))
  {
    assert s.Valid();
    hide Supply, Scan, Request, HintSound, FirstOutside;
    var g := FirstOutside(s, S, 0);
    forall j | 0 <= j < k && j < Supply(s, g)
      ensures Request(Requests(s, j)).1.Some? && Request(Requests(s, j)).1.value in S
    {
      RequestsSupply(s, j, g);
      RequestsOnlySet(s, j);
      RequestTakesOne(Requests(s, j), g);
      HandedOutClear(Requests(s, j));
    }
    if Supply(s, g) < k {
      NotServedBehind(s, S);
    }
  }

  lemma HandedOutClear(t: Frames)
    requires t.Valid() && Request(t).1.Some?
    ensures Request(t).1.value < t.Limit() && !t.bits[Request(t).1.value]
  {
  }

  lemma NotServedBehind(s: Frames, S: iset<nat>)
    requires HintSound(s)
    ensures var r := Request(Requests(s, Supply(s, FirstOutside(s, S, 0)))).1;
            r.None? || r.value !in S
  {
    hide Supply, FirstOutside;
    var g := FirstOutside(s, S, 0);
    if g < s.Limit() {
      NextBehind(s, g);
    } else {
      RequestsSupply(s, Supply(s, g), g);
      RequestsOnlySet(s, Supply(s, g));
      RequestTakesOne(Requests(s, Supply(s, g)), g);
    }
  }

  // ----- NULL

  /** What RequestPage returns: the address of the frame, or NULL. */
  function AddressOf(frame: Option<nat>): nat {
    match frame
    case Some(i) => i * 4096
    case None => 0
  }

  /** That RequestPage returns NULL means that no frame was left exactly when frame 0 was in use
      before the call, or the bitmap has no bits at all: frame 0 has the address NULL. */
  lemma NullMeansNoneIff(s: Frames, ops: seq<Op>)
    requires HintSound(s)
    ensures var t := Run(s, ops);
            (AddressOf(Request(t).1) == 0 ==> Request(t).1.None?) <==> t.Limit() == 0 || t.bits[0]
  {
    RequestIsLowestFree(s, ops);
  }

  function Total(s: Frames): nat {
    (s.free + s.used + s.reserved) % TWO_64
  }

  /** The free counter plus the memory behind the set bits, as the counter sees it. */
  function Accounted(s: Frames): nat {
    (s.free + 4096 * Count(s.bits)) % TWO_64
  }

  /** Sums that differ by one wrap are equal modulo 2^64. */
  lemma OneWrap(a: int, b: int)
    requires b == a || b == a + TWO_64 || b == a - TWO_64
    ensures a % TWO_64 == b % TWO_64
  {
  }

  lemma StepConserves(s: Frames, op: Op)
    requires s.Valid()
    ensures Total(Step(s, op).0) == Total(s)
    ensures Accounted(Step(s, op).0) == Accounted(s)
  {
    var i := if op.RequestOp? then Scan(s.bits, s.hint, s.Limit()) else op.i;
    var t := Step(s, op).0;
    if i < |s.bits| {
      CountUpdate(s.bits, i, op.LockOp? || op.ReserveOp? || op.RequestOp?);
    }
    OneWrap(s.free + s.used + s.reserved, t.free + t.used + t.reserved);
    OneWrap(s.free + 4096 * Count(s.bits), t.free + 4096 * Count(t.bits));
  }

  /** Conservation: no run changes free + used + reserved, nor free + 4096 * (set bits). */
  lemma {:induction false} RunConserves(s: Frames, ops: seq<Op>)
    requires s.Valid()
    ensures Total(Run(s, ops)) == Total(s)
    ensures Accounted(Run(s, ops)) == Accounted(s)
    decreases |ops|
  {
    if ops != [] {
      StepConserves(s, ops[0]);
      RunConserves(Step(s, ops[0]).0, ops[1..]);
    }
  }

  /** After a run the free counter has changed by the memory of the bits that changed, as integers,
      exactly when that leaves a number of 64 bits; else it has wrapped. */
  lemma FreeExactIff(s: Frames, ops: seq<Op>)
    requires s.Valid()
    ensures var t := Run(s, ops);
            var rest := s.free + 4096 * (Count(s.bits) - Count(t.bits));
            t.free == rest <==> 0 <= rest < TWO_64
  {
    hide Run, Count;
    RunConserves(s, ops);
    SameResidue(Run(s, ops).free, 4096 * Count(Run(s, ops).bits), s.free + 4096 * Count(s.bits));
  }

  lemma SameResidue(free: u64, taken: nat, total: nat)
    requires (free + taken) % TWO_64 == total % TWO_64
    ensures free == total - taken <==> 0 <= total - taken < TWO_64
  {
    var q, r := (free + taken) / TWO_64, total / TWO_64;
    assert free - (total - taken) == (q - r) * TWO_64;
  }

  /** A memory of one page, of which the bitmap has nine bits, all clear. */
  const ONE_PAGE: Frames :=
    Frames([false, false, false, false, false, false, false, false, false], 0, 4096, 0, 0)

  /** On one page: with the page locked RequestPage hands out a frame behind it and freeMemory
      wraps; a reserved page given to FreePage leaves both other counters wrong. */
  lemma CountersGoWrong()
    ensures Run(ONE_PAGE, [LockOp(0), RequestOp]).free == TWO_64 - 4096
    ensures Results(ONE_PAGE, [LockOp(0), RequestOp]) == [None, Some(1)]
    ensures var t := Run(ONE_PAGE, [ReserveOp(0), FreeOp(0)]);
            t.bits == ONE_PAGE.bits && t.used == TWO_64 - 4096 && t.reserved == 4096
  {
    var locked := Step(ONE_PAGE, LockOp(0)).0;
    ScanStep(locked.bits, 0, 8);
    ScanStep(locked.bits, 1, 8);
    assert [LockOp(0), RequestOp][1..] == [RequestOp] && [RequestOp][1..] == [];
    var reserved := Step(ONE_PAGE, ReserveOp(0)).0;
    assert [ReserveOp(0), FreeOp(0)][1..] == [FreeOp(0)] && [FreeOp(0)][1..] == [];
    assert reserved.bits[0 := false] == ONE_PAGE.bits;
  }

  // ----- used and reserved on their own

  /** What a set bit stands for; the allocator does not record it. A stale bit is one that was set
      before there was a bitmap, and no counter knows of it. */
  datatype Kind = Available | InUse | Kept | Stale

  /** `used` and `reserved` are right up to four miscounts: frames given to `FreePage` while reserved
      or stale, and frames given to `UnreservePage` while in use or stale. */
  datatype Ledger = Ledger(kinds: seq<Kind>, wrongFree: nat, wrongUnreserve: nat, staleFree: nat, staleUnreserve: nat)

  ghost predicate Describes(l: Ledger, s: Frames) {
    |l.kinds| == |s.bits| && forall i | 0 <= i < |s.bits| :: s.bits[i] <==> l.kinds[i] != Available
  }

  function LedgerStep(l: Ledger, s: Frames, op: Op): Ledger
    requires s.Valid() && |l.kinds| == |s.bits|
  {
    match op
    case LockOp(i) => if i < |l.kinds| && l.kinds[i] == Available then l.(kinds := l.kinds[i := InUse]) else l
    case ReserveOp(i) => if i < |l.kinds| && l.kinds[i] == Available then l.(kinds := l.kinds[i := Kept]) else l
    case FreeOp(i) =>
      if i >= |l.kinds| || l.kinds[i] == Available then l
      else l.(kinds := l.kinds[i := Available],
              wrongFree := l.wrongFree + (if l.kinds[i] == Kept then 1 else 0),
              staleFree := l.staleFree + (if l.kinds[i] == Stale then 1 else 0))
    case UnreserveOp(i) =>
      if i >= |l.kinds| || l.kinds[i] == Available then l
      else l.(kinds := l.kinds[i := Available],
              wrongUnreserve := l.wrongUnreserve + (if l.kinds[i] == InUse then 1 else 0),
              staleUnreserve := l.staleUnreserve + (if l.kinds[i] == Stale then 1 else 0))
    case RequestOp =>
      match Request(s).1
      case Some(i) => if i < |l.kinds| then l.(kinds := l.kinds[i := InUse]) else l
      case None => l
  }

  function LedgerRun(l: Ledger, s: Frames, ops: seq<Op>): Ledger
    requires s.Valid() && |l.kinds| == |s.bits|
    decreases |ops|
  {
    if ops == [] then l else LedgerRun(LedgerStep(l, s, ops[0]), Step(s, ops[0]).0, ops[1..])
  }

  function CountKind(kinds: seq<Kind>, k: Kind): nat {
    if kinds == [] then 0 else CountKind(kinds[1..], k) + (if kinds[0] == k then 1 else 0)
  }

  lemma {:induction false} CountKindUpdate(kinds: seq<Kind>, i: nat, v: Kind, k: Kind)
    requires i < |kinds|
    ensures CountKind(kinds[i := v], k)
         == CountKind(kinds, k) - (if kinds[i] == k then 1 else 0) + (if v == k then 1 else 0)
  {
    if i == 0 {
      assert kinds[i := v][1..] == kinds[1..];
    } else {
      CountKindUpdate(kinds[1..], i - 1, v, k);
      assert kinds[i := v][1..] == kinds[1..][i - 1 := v];
    }
  }

  /** The distance of the two counters from the memory they should report. */
  function UsedGap(l: Ledger, s: Frames): int {
    s.used - 4096 * CountKind(l.kinds, InUse) + 4096 * (l.wrongFree + l.staleFree - l.wrongUnreserve)
  }

  function ReservedGap(l: Ledger, s: Frames): int {
    s.reserved - 4096 * CountKind(l.kinds, Kept) - 4096 * (l.wrongFree - l.wrongUnreserve - l.staleUnreserve)
  }

  lemma LedgerStepDescribes(l: Ledger, s: Frames, op: Op)
    requires s.Valid() && Describes(l, s)
    ensures Describes(LedgerStep(l, s, op), Step(s, op).0)
  {
  }

  lemma UsedStep(l: Ledger, s: Frames, op: Op)
    requires s.Valid() && Describes(l, s)
    ensures UsedGap(LedgerStep(l, s, op), Step(s, op).0) % TWO_64 == UsedGap(l, s) % TWO_64
  {
    var i := if op.RequestOp? then Scan(s.bits, s.hint, s.Limit()) else op.i;
    if i < |s.bits| {
      CountKindUpdate(l.kinds, i, LedgerStep(l, s, op).kinds[i], InUse);
    }
    OneWrap(UsedGap(l, s), UsedGap(LedgerStep(l, s, op), Step(s, op).0));
  }

  lemma ReservedStep(l: Ledger, s: Frames, op: Op)
    requires s.Valid() && Describes(l, s)
    ensures ReservedGap(LedgerStep(l, s, op), Step(s, op).0) % TWO_64 == ReservedGap(l, s) % TWO_64
  {
    var i := if op.RequestOp? then Scan(s.bits, s.hint, s.Limit()) else op.i;
    if i < |s.bits| {
      CountKindUpdate(l.kinds, i, LedgerStep(l, s, op).kinds[i], Kept);
    }
    OneWrap(ReservedGap(l, s), ReservedGap(LedgerStep(l, s, op), Step(s, op).0));
  }

  lemma LedgerStepExact(l: Ledger, s: Frames, op: Op)
    requires s.Valid() && Describes(l, s)
    ensures Describes(LedgerStep(l, s, op), Step(s, op).0)
    ensures UsedGap(LedgerStep(l, s, op), Step(s, op).0) % TWO_64 == UsedGap(l, s) % TWO_64
    ensures ReservedGap(LedgerStep(l, s, op), Step(s, op).0) % TWO_64 == ReservedGap(l, s) % TWO_64
  {
    hide LedgerStep, Step, UsedGap, ReservedGap, Describes;
    LedgerStepDescribes(l, s, op);
    UsedStep(l, s, op);
    ReservedStep(l, s, op);
  }

  lemma {:induction false} LedgerRunExact(l: Ledger, s: Frames, ops: seq<Op>)
    requires s.Valid() && Describes(l, s)
    ensures Describes(LedgerRun(l, s, ops), Run(s, ops))
    ensures UsedGap(LedgerRun(l, s, ops), Run(s, ops)) % TWO_64 == UsedGap(l, s) % TWO_64
    ensures ReservedGap(LedgerRun(l, s, ops), Run(s, ops)) % TWO_64 == ReservedGap(l, s) % TWO_64
    decreases |ops|
  {
    if ops != [] {
      LedgerStepExact(l, s, ops[0]);
      LedgerRunExact(LedgerStep(l, s, ops[0]), Step(s, ops[0]).0, ops[1..]);
    }
  }

  lemma ExactIff(counter: u64, memory: int, miscount: int)
    requires (counter - memory + 4096 * miscount) % TWO_64 == 0
    ensures counter == memory % TWO_64 <==> miscount % 0x10_0000_0000_0000 == 0
  {
    var q := (counter - memory + 4096 * miscount) / TWO_64;
    assert counter - memory + 4096 * miscount == q * TWO_64;
    if miscount % 0x10_0000_0000_0000 == 0 {
      var k := miscount / 0x10_0000_0000_0000;
      assert 4096 * miscount == k * TWO_64;
      assert counter == memory + (q - k) * TWO_64;
    }
    if counter == memory % TWO_64 {
      var k := memory / TWO_64;
      assert 4096 * miscount == (q + k) * TWO_64;
    }
  }

  lemma ExactGap(counter: u64, memory: int)
    requires counter == memory % TWO_64
    ensures (counter - memory) % TWO_64 == 0
  {
  }

  lemma NegatedMultiple(d: int)
    ensures d % 0x10_0000_0000_0000 == 0 <==> -d % 0x10_0000_0000_0000 == 0
  {
  }

  /** A ledger that has counted nothing wrong yet. */
  function Balanced(kinds: seq<Kind>): Ledger {
    Ledger(kinds, 0, 0, 0, 0)
  }

  /** From a state whose counters are right, `used` is right after a run exactly when the miscounts
      that concern it cancel modulo 2^52. */
  lemma UsedExactIff(kinds: seq<Kind>, s: Frames, ops: seq<Op>)
    requires s.Valid() && Describes(Balanced(kinds), s)
    requires s.used == 4096 * CountKind(kinds, InUse) % TWO_64
    ensures var l, t := LedgerRun(Balanced(kinds), s, ops), Run(s, ops);
            t.used == 4096 * CountKind(l.kinds, InUse) % TWO_64
            <==> (l.wrongFree + l.staleFree - l.wrongUnreserve) % 0x10_0000_0000_0000 == 0
  {
    hide Run, LedgerRun, CountKind;
    LedgerRunExact(Balanced(kinds), s, ops);
    var l, t := LedgerRun(Balanced(kinds), s, ops), Run(s, ops);
    ExactGap(s.used, 4096 * CountKind(kinds, InUse));
    ExactIff(t.used, 4096 * CountKind(l.kinds, InUse), l.wrongFree + l.staleFree - l.wrongUnreserve);
  }

  /** The same for `reserved`. */
  lemma ReservedExactIff(kinds: seq<Kind>, s: Frames, ops: seq<Op>)
    requires s.Valid() && Describes(Balanced(kinds), s)
    requires s.reserved == 4096 * CountKind(kinds, Kept) % TWO_64
    ensures var l, t := LedgerRun(Balanced(kinds), s, ops), Run(s, ops);
            t.reserved == 4096 * CountKind(l.kinds, Kept) % TWO_64
            <==> (l.wrongFree - l.wrongUnreserve - l.staleUnreserve) % 0x10_0000_0000_0000 == 0
  {
    hide Run, LedgerRun, CountKind;
    LedgerRunExact(Balanced(kinds), s, ops);
    var l, t := LedgerRun(Balanced(kinds), s, ops), Run(s, ops);
    ExactGap(s.reserved, 4096 * CountKind(kinds, Kept));
    NegatedMultiple(l.wrongFree - l.wrongUnreserve - l.staleUnreserve);
    ExactIff(t.reserved, 4096 * CountKind(l.kinds, Kept), l.wrongUnreserve + l.staleUnreserve - l.wrongFree);
  }
}

/** Every run of the allocator and the page-table manager over one memory, and what all reachable
    worlds have in common. Calls of the allocator and of MapMemory are such runs. */
module KernelRuns {
  import opened BitWords
  import opened Options
  import opened Ram
  import opened PageEntry
  import opened PageTree
  import opened FrameSpec
  import opened PageTableManagerModel
  import B = BitmapModel

  ghost predicate Consistent(w: World) {
    Healthy(w) && BitmapRead(w.m, w.s.bits, w.buffer, w.size)
  }

  /** An operation of the allocator. Frames handed back are neither tables nor part of the
      bitmap: that is the discipline the callers must keep. */
  ghost predicate AllocatorStep(w: World, w': World, op: Op) {
    && SamePlaces(w, w') && w.s.Valid()
    && SameOutside(w.m, w'.m, w.buffer, w.size + 1)
    && w'.s == Step(w.s, op).0
    && BitmapRead(w'.m, w'.s.bits, w.buffer, w.size)
    && (op.FreeOp? || op.UnreserveOp? ==>
          !IsTable(w.m, w.root, op.i) && (op.i < w.s.Limit() ==> Apart(op.i, w.buffer, w.size)))
  }

  /** Anything else the kernel writes stays out of the tables and of the bitmap. */
  ghost predicate DataStep(w: World, w': World) {
    && SamePlaces(w, w') && w'.s == w.s
    && forall b | 0 <= b < |w.m| && (IsTable(w.m, w.root, b / PAGE) || w.buffer <= b <= w.buffer + w.size) ::
         w'.m[b] == w.m[b]
  }

  ghost predicate Next(w: World, w': World) {
    || (exists op :: AllocatorStep(w, w', op))
    || (exists path, k :: LinkStep(w, w', path, k))
    || (exists path :: LeafStep(w, w', path))
    || DataStep(w, w')
  }

  ghost predicate IsRun(ws: seq<World>) {
    ws != [] && forall i | 0 < i < |ws| :: Next(ws[i - 1], ws[i])
  }

  // ----- each kind of step keeps the worlds consistent

  /** Tables that are clear of the changed bytes keep their entries. */
  lemma TablesUntouched(m: seq<byte>, m': seq<byte>, root: nat, p: Path, j: nat)
    requires |m| == |m'| && |p| <= 3 && Node(m, root, p).Some?
    requires forall b | 0 <= b < |m| && IsTable(m, root, b / PAGE) :: m'[b] == m[b]
    ensures Entry(m', Node(m, root, p).value, j) == Entry(m, Node(m, root, p).value, j)
  {
    var f := Node(m, root, p).value;
    assert IsTable(m, root, f);
    if j < 512 {
      forall b | f * PAGE + j * 8 <= b < f * PAGE + j * 8 + 8 && b < |m|
        ensures m[b] == m'[b]
      {
        assert b / PAGE == f;
      }
    }
    SameEntry(m', m, f, j);
  }

  lemma WalksUntouched(m: seq<byte>, m': seq<byte>, root: nat)
    requires |m| == |m'|
    requires forall b | 0 <= b < |m| && IsTable(m, root, b / PAGE) :: m'[b] == m[b]
    ensures forall q: Path | |q| <= 4 :: Node(m', root, q) == Node(m, root, q)
    ensures Tree(m, root) ==> Tree(m', root)
    ensures Writable(m, root) ==> Writable(m', root)
  {
    forall p: Path, j: nat | |p| <= 3 && Node(m, root, p).Some?
      ensures Entry(m', Node(m, root, p).value, j) == Entry(m, Node(m, root, p).value, j)
    {
      TablesUntouched(m, m', root, p, j);
    }
    forall q: Path | |q| <= 4
      ensures Node(m', root, q) == Node(m, root, q)
    {
      SameWalk(m, m', root, q);
    }
  }

  lemma ClearTables(m: seq<byte>, m': seq<byte>, root: nat, buffer: nat, size: nat)
    requires TablesClear(m, root, buffer, size) && SameOutside(m, m', buffer, size + 1)
    ensures forall b | 0 <= b < |m| && IsTable(m, root, b / PAGE) :: m'[b] == m[b]
  {
    forall b | 0 <= b < |m| && IsTable(m, root, b / PAGE)
      ensures m'[b] == m[b]
    {
      var p: Path :| |p| <= 3 && Node(m, root, p) == Some(b / PAGE);
      assert Clear(m, Node(m, root, p).value, buffer, size);
    }
  }

  /** The bits an operation clears. */
  lemma ClearedBits(s: Frames, op: Op, i: nat)
    requires s.Valid() && i < |s.bits| && s.bits[i] && !Step(s, op).0.bits[i]
    ensures (op.FreeOp? || op.UnreserveOp?) && op.i == i
  {
  }

  /** Only frames that are neither tables nor bitmap were given back. */
  ghost predicate Returned(m: seq<byte>, root: nat, bits: seq<bool>, bits': seq<bool>, buffer: nat, size: nat) {
    && |bits| == |bits'|
    && forall i | 0 <= i < |bits| - 1 && bits[i] && !bits'[i] :: !IsTable(m, root, i) && Apart(i, buffer, size)
  }

  lemma ReturnedSound(m: seq<byte>, m': seq<byte>, root: nat, bits: seq<bool>, bits': seq<bool>, buffer: nat, size: nat)
    requires Sound(m, root, bits, buffer, size) && Returned(m, root, bits, bits', buffer, size)
    requires SameOutside(m, m', buffer, size + 1)
    ensures Sound(m', root, bits', buffer, size)
  {
    ClearTables(m, m', root, buffer, size);
    WalksUntouched(m, m', root);
    forall p: Path | |p| <= 3 && Node(m', root, p).Some?
      ensures Node(m', root, p).value < |bits'| - 1 && bits'[Node(m', root, p).value]
    {
      assert Node(m, root, p) == Node(m', root, p);
      assert IsTable(m, root, Node(m, root, p).value);
    }
  }

  lemma AllocatorKeeps(w: World, w': World, op: Op)
    requires Consistent(w) && AllocatorStep(w, w', op)
    ensures Consistent(w')
  {
    hide Sound, SameOutside, IsTable, Apart;
    StepHint(w.s, op);
    forall i | 0 <= i < |w.s.bits| - 1 && w.s.bits[i] && !w'.s.bits[i]
      ensures !IsTable(w.m, w.root, i) && Apart(i, w.buffer, w.size)
    {
      ClearedBits(w.s, op, i);
    }
    ReturnedSound(w.m, w'.m, w.root, w.s.bits, w'.s.bits, w.buffer, w.size);
  }

  lemma StepHint(s: Frames, op: Op)
    requires HintSound(s)
    ensures HintSound(Step(s, op).0)
  {
    RunKeepsHint(s, [op]);
    assert Run(s, [op]) == Run(Step(s, op).0, []);
  }

  lemma LinkKeeps(w: World, w': World, path: Path, k: nat)
    requires Consistent(w) && LinkStep(w, w', path, k)
    ensures Consistent(w')
  {
    hide *;
    LinkHealthy(w, w', path, k);
    LinkBitmap(w, w', path, k);
    ConsistentIf(w');
  }

  lemma ConsistentIf(w: World)
    requires Healthy(w) && BitmapRead(w.m, w.s.bits, w.buffer, w.size)
    ensures Consistent(w)
  {
  }

  lemma LinkHasRoom(w: World, w': World, path: Path, k: nat)
    requires Healthy(w) && LinkStep(w, w', path, k)
    ensures w.Room() > 0
  {
    hide Sound, Request, SamePlaces, BitmapRead, Linking;
    RequestTakesOne(w.s, w.FrameCount());
  }

  lemma LinkHealthy(w: World, w': World, path: Path, k: nat)
    requires Consistent(w) && LinkStep(w, w', path, k)
    ensures Healthy(w')
  {
    hide Healthy, Request, PointsTo, Plain, Linking, HintSound;
    var m1, m2 :| BitmapRead(m1, w'.s.bits, w.buffer, w.size)
      && Linking(w.m, m1, m2, w'.m, w.At(path).value, k, Request(w.s).1.value, w.buffer, w.size);
    LinkHasRoom(w, w', path, k);
    StepAdded(w, m1, m2, w', path, k);
  }

  lemma LinkBitmap(w: World, w': World, path: Path, k: nat)
    requires Consistent(w) && LinkStep(w, w', path, k)
    ensures BitmapRead(w'.m, w'.s.bits, w'.buffer, w'.size)
  {
    hide Healthy, Request, PointsTo, Plain, Linking, HintSound, Clear;
    var m1, m2 :| BitmapRead(m1, w'.s.bits, w.buffer, w.size)
      && Linking(w.m, m1, m2, w'.m, w.At(path).value, k, Request(w.s).1.value, w.buffer, w.size);
    LinkHasRoom(w, w', path, k);
    BeforeLink(w, path);
    BitmapSpared(w.m, m1, m2, w'.m, w.At(path).value, k, Request(w.s).1.value, w.buffer, w.size);
    LinkingSize(w.m, m1, m2, w'.m, w.At(path).value, k, Request(w.s).1.value, w.buffer, w.size);
    B.SameBitmap(m1, w'.m, w.buffer, w.size);
  }

  lemma LinkingSize(m: seq<byte>, m1: seq<byte>, m2: seq<byte>, m3: seq<byte>, f: nat, k: nat, g: nat,
                    buffer: nat, size: nat)
    requires Linking(m, m1, m2, m3, f, k, g, buffer, size)
    ensures |m1| == |m3| == |m|
  {
  }

  /** Zeroing the new table and writing the entry leave the bitmap alone. */
  lemma BitmapSpared(m: seq<byte>, m1: seq<byte>, m2: seq<byte>, m3: seq<byte>, f: nat, k: nat, g: nat,
                     buffer: nat, size: nat)
    requires Linking(m, m1, m2, m3, f, k, g, buffer, size) && k < 512
    requires Clear(m, f, buffer, size) && Clear(m, g, buffer, size)
    ensures SameBytes(m1, m3, buffer, size + 1)
  {
  }

  lemma LeafKeeps(w: World, w': World, path: Path)
    requires Consistent(w) && LeafStep(w, w', path)
    ensures Consistent(w')
  {
    hide *;
    LeafHealthy(w, w', path);
    LeafBitmap(w, w', path);
    ConsistentIf(w');
  }

  lemma LeafHealthy(w: World, w': World, path: Path)
    requires Consistent(w) && LeafStep(w, w', path)
    ensures Healthy(w')
  {
    hide PointsTo, Plain, Sound, HintSound, BitmapRead, SameOutside;
    LeafWritten(w.m, w'.m, w.root, path, w.s.bits, w.buffer, w.size);
  }

  lemma LeafBitmap(w: World, w': World, path: Path)
    requires Consistent(w) && LeafStep(w, w', path)
    ensures BitmapRead(w'.m, w'.s.bits, w'.buffer, w'.size)
  {
    hide PointsTo, Plain, Healthy;
    HealthyTable(w, path[..3]);
    assert SameBytes(w.m, w'.m, w.buffer, w.size + 1);
    B.SameBitmap(w.m, w'.m, w.buffer, w.size);
  }

  lemma DataKeeps(w: World, w': World)
    requires Consistent(w) && DataStep(w, w')
    ensures Consistent(w')
  {
    WalksUntouched(w.m, w'.m, w.root);
    assert SameBytes(w.m, w'.m, w.buffer, w.size + 1);
    B.SameBitmap(w.m, w'.m, w.buffer, w.size);
  }

  lemma NextKeeps(w: World, w': World)
    requires Consistent(w) && Next(w, w')
    ensures Consistent(w')
  {
    hide Consistent, AllocatorStep, LinkStep, LeafStep, DataStep;
    if op :| AllocatorStep(w, w', op) {
      AllocatorKeeps(w, w', op);
    } else if path, k :| LinkStep(w, w', path, k) {
      LinkKeeps(w, w', path, k);
    } else if path :| LeafStep(w, w', path) {
      LeafKeeps(w, w', path);
    } else {
      DataKeeps(w, w');
    }
  }

  /** Safety of every run: the tables always form a tree of frames in use, disjoint from the
      bitmap, and the bitmap's bytes always say what the allocator believes. */
  lemma {:induction false} RunsStayConsistent(ws: seq<World>)
    requires IsRun(ws) && Consistent(ws[0])
    ensures Consistent(ws[|ws| - 1])
    decreases |ws|
  {
    hide Consistent, Next;
    if |ws| > 1 {
      var n := |ws| - 1;
      RunsStayConsistent(ws[..n]);
      NextKeeps(ws[n - 1], ws[n]);
    }
  }

  // ----- plain tables stay plain

  lemma SamePlain(m: seq<byte>, m': seq<byte>, root: nat)
    requires |m| == |m'| && Plain(m, root)
    requires forall b | 0 <= b < |m| && IsTable(m, root, b / PAGE) :: m'[b] == m[b]
    ensures Plain(m', root)
  {
    hide PlainEntry, IsTable;
    WalksUntouched(m, m', root);
    forall p: Path, k: nat | |p| <= 3 && Node(m', root, p).Some?
      ensures PlainEntry(Entry(m', Node(m', root, p).value, k))
    {
      TablesUntouched(m, m', root, p, k);
    }
  }

  lemma NextKeepsPlain(w: World, w': World)
    requires Consistent(w) && Plain(w.m, w.root) && Next(w, w')
    ensures Plain(w'.m, w'.root)
  {
    hide Sound, HintSound, Request, PointsTo, Plain, Node, IsTable;
    if op :| AllocatorStep(w, w', op) {
      ConsistentTables(w);
      ClearTables(w.m, w'.m, w.root, w.buffer, w.size);
      SamePlain(w.m, w'.m, w.root);
    } else if path, k :| LinkStep(w, w', path, k) {
      LinkStepped(w, w', path, k);
    } else if path :| LeafStep(w, w', path) {
      LeafWritten(w.m, w'.m, w.root, path, w.s.bits, w.buffer, w.size);
    } else {
      SamePlain(w.m, w'.m, w.root);
    }
  }

  lemma ConsistentTables(w: World)
    requires Consistent(w)
    ensures TablesClear(w.m, w.root, w.buffer, w.size)
  {
  }

  lemma LinkStepped(w: World, w': World, path: Path, k: nat)
    requires Consistent(w) && LinkStep(w, w', path, k)
    ensures Plain(w.m, w.root) ==> Plain(w'.m, w'.root)
  {
    hide Sound, HintSound, Request, PointsTo, Plain;
    var m1, m2 :| BitmapRead(m1, w'.s.bits, w.buffer, w.size)
      && Linking(w.m, m1, m2, w'.m, w.At(path).value, k, Request(w.s).1.value, w.buffer, w.size);
    RequestTakesOne(w.s, w.FrameCount());
    StepAdded(w, m1, m2, w', path, k);
  }

  /** In every run from plain tables, such as a zeroed PML4, every entry of every table is zero or
      exactly a frame's address with Present and ReadWrite; no entry is ever one of a large page. */
  lemma {:induction false} RunsStayPlain(ws: seq<World>)
    requires IsRun(ws) && Consistent(ws[0]) && Plain(ws[0].m, ws[0].root)
    ensures var w := ws[|ws| - 1];
            Plain(w.m, w.root) && forall p: Path, k: nat | |p| <= 3 && w.At(p).Some? ::
              !Bit(Entry(w.m, w.At(p).value, k), 7)
    decreases |ws|
  {
    hide Consistent, Next, Plain;
    if |ws| > 1 {
      var n := |ws| - 1;
      RunsStayPlain(ws[..n]);
      RunsStayConsistent(ws[..n]);
      NextKeepsPlain(ws[n - 1], ws[n]);
    }
    NoLargePage(ws[|ws| - 1].m, ws[|ws| - 1].root);
  }

  lemma NoLargePage(m: seq<byte>, root: nat)
    requires Plain(m, root)
    ensures forall p: Path, k: nat | |p| <= 3 && Node(m, root, p).Some? :: !Bit(Entry(m, Node(m, root, p).value, k), 7)
  {
    hide PlainEntry;
    forall p: Path, k: nat | |p| <= 3 && Node(m, root, p).Some?
      ensures !Bit(Entry(m, Node(m, root, p).value, k), 7)
    {
      PlainEntryFlags(Entry(m, Node(m, root, p).value, k));
    }
  }

  // ----- the runs are those of the code

  /** The page-table manager's invariant makes its world consistent: runs start where
      PrepareMemory ends. */
  lemma InvIsConsistent(manager: PageTableManager)
    requires manager.Inv()
    ensures Consistent(manager.Now())
  {
    hide Healthy;
  }

  /** What the contract of each allocator operation says is a step of the run. */
  twostate lemma CallIsStep(manager: PageTableManager, op: Op)
    requires old(manager.Inv()) && manager.GlobalAllocator.Valid() && manager.PML4 == old(manager.PML4)
    requires manager.GlobalAllocator.State() == Step(old(manager.GlobalAllocator.State()), op).0
    requires manager.GlobalAllocator.PageBitmap.Buffer == old(manager.GlobalAllocator.PageBitmap.Buffer)
    requires manager.GlobalAllocator.PageBitmap.Size == old(manager.GlobalAllocator.PageBitmap.Size)
    requires SameOutside(old(manager.GlobalAllocator.ram[..]), manager.GlobalAllocator.ram[..],
                         manager.GlobalAllocator.PageBitmap.Buffer, manager.GlobalAllocator.PageBitmap.Size + 1)
    requires var w := old(manager.Now());
             op.FreeOp? || op.UnreserveOp? ==>
               !IsTable(w.m, w.root, op.i) && (op.i < w.s.Limit() ==> Apart(op.i, w.buffer, w.size))
    ensures AllocatorStep(old(manager.Now()), manager.Now(), op)
  {
    hide Healthy, IsTable, SameOutside;
  }

  lemma Append(ws: seq<World>, w: World)
    requires IsRun(ws) && Next(ws[|ws| - 1], w)
    ensures IsRun(ws + [w])
  {
    hide Next;
  }

  lemma AppendLink(ws: seq<World>, w: World) returns (ws': seq<World>)
    requires IsRun(ws) && LinkOrStay(ws[|ws| - 1], w)
    ensures IsRun(ws') && ws'[0] == ws[0] && ws'[|ws'| - 1] == w
  {
    hide LinkStep;
    ws' := ws;
    if w != ws[|ws| - 1] {
      Append(ws, w);
      ws' := ws + [w];
    }
  }

  /** One call of MapMemory is a run of at most three table links and a leaf write. */
  lemma MapIsRun(w: World, w': World, path: Path) returns (ws: seq<World>)
    requires MapRun(w, w', path)
    ensures IsRun(ws) && ws[0] == w && ws[|ws| - 1] == w'
  {
    hide LinkOrStay, LeafStep;
    var w1, w2, w3 :| LinkOrStay(w, w1) && LinkOrStay(w1, w2) && LinkOrStay(w2, w3) && LeafStep(w3, w', path);
    ws := AppendLink([w], w1);
    ws := AppendLink(ws, w2);
    ws := AppendLink(ws, w3);
    Append(ws, w');
    ws := ws + [w'];
  }
}

/** kernel/src/Paging/PageTableManager.cpp: MapMemory over the memory that holds the tables, the
    allocator's bitmap and everything else. */
module PageTableManagerModel {
  import opened BitWords
  import opened Options
  import opened Ram
  import opened PageEntry
  import opened PageTree
  import opened FrameSpec
  import opened PageMapIndexerModel
  import opened PageFrameAllocatorModel

  /** Frame `f` lies in memory and shares no byte with the bitmap at `buffer..buffer + size`
      (the byte at Buffer[Size] included). */
  ghost predicate Clear(m: seq<byte>, f: nat, buffer: nat, size: nat) {
    f * PAGE + PAGE <= |m| && Apart(f, buffer, size)
  }

  ghost predicate Apart(f: nat, buffer: nat, size: nat) {
    f * PAGE + PAGE <= buffer || buffer + size < f * PAGE
  }

  ghost predicate TablesClear(m: seq<byte>, root: nat, buffer: nat, size: nat) {
    forall p: Path | |p| <= 3 && Node(m, root, p).Some? :: Clear(m, Node(m, root, p).value, buffer, size)
  }

  ghost predicate TablesInUse(m: seq<byte>, root: nat, bits: seq<bool>) {
    forall p: Path | |p| <= 3 && Node(m, root, p).Some? ::
      Node(m, root, p).value < |bits| - 1 && bits[Node(m, root, p).value]
  }

  /** Frames that can be handed out are apart from the bitmap; they need not lie in memory. */
  ghost predicate FreeClear(bits: seq<bool>, buffer: nat, size: nat) {
    forall i | 0 <= i < |bits| - 1 && !bits[i] :: Apart(i, buffer, size)
  }

  /** m' keeps every byte of m that belongs to a frame in use, or to no frame the bitmap
      describes, unless the frame is a table or the byte is part of the bitmap. */
  ghost predicate DataKept(m: seq<byte>, m': seq<byte>, root: nat, bits: seq<bool>, buffer: nat, size: nat) {
    && |m| == |m'|
    && forall b | 0 <= b < |m| && !(buffer <= b <= buffer + size)
                  && (b / PAGE < |bits| - 1 ==> bits[b / PAGE]) && !IsTable(m, root, b / PAGE) :: m'[b] == m[b]
  }

  /** The number of tables missing among the first `n` on the way to a page. */
  function MissingUpTo(m: seq<byte>, root: nat, path: Path, n: nat): (c: nat)
    requires n <= |path|
    ensures c <= n
  {
    if n == 0 then 0 else MissingUpTo(m, root, path, n - 1) + Lacks(m, root, path[..n])
  }

  /** The number of tables still missing on the way to a page. */
  function Missing(m: seq<byte>, root: nat, path: Path): nat
    requires |path| == 4
  {
    MissingUpTo(m, root, path, 3)
  }

  function Lacks(m: seq<byte>, root: nat, path: Path): nat {
    if Node(m, root, path).None? then 1 else 0
  }

  /** The entry MapMemory leaves for a page that had entry `e`. */
  function Mapped(e: u64, physical: u64): u64 {
    WithFlag(WithFlag(WithAddress(e, physical / PAGE), PRESENT, true), READ_WRITE, true)
  }

  lemma MappedFields(e: u64, physical: u64)
    ensures PointsTo(e, Mapped(e, physical), physical / PAGE)
  {
    var a := WithAddress(e, physical / PAGE);
    var b := WithFlag(a, PRESENT, true);
    AddressRoundTrip(e, physical / PAGE);
    FlagKeepsAddress(a, PRESENT, true);
    FlagKeepsAddress(b, READ_WRITE, true);
    FlagBits(a, PRESENT, true, PRESENT);
    FlagBits(b, READ_WRITE, true, PRESENT);
    FlagBits(b, READ_WRITE, true, READ_WRITE);
    forall j: nat | 2 <= j < 12 || 52 <= j
      ensures Bit(Mapped(e, physical), j) == Bit(e, j)
    {
      AddressKeepsFlags(e, physical / PAGE, j);
      FlagBits(a, PRESENT, true, j);
      FlagBits(b, READ_WRITE, true, j);
    }
  }

  /** Entry `e'` is `e` made to link the table in frame `g`. */
  ghost predicate Links(e: u64, e': u64, g: nat) {
    PointsTo(e, e', g) && Address(e') == g
  }

  lemma PointsToOwn(e: u64, e': u64, f: nat)
    requires PointsTo(e, e', f)
    ensures PointsTo(e, e', Address(e')) && Address(e') == f % ADDRESS_LIMIT
  {
  }

  lemma PointedBits(e: u64, e': u64, f: nat)
    requires PointsTo(e, e', f)
    ensures Bit(e', PRESENT) && Bit(e', READ_WRITE)
  {
  }

  lemma SetAddressIs(e: u64, a: u64)
    ensures FieldSum(e, a) == WithAddress(e, a)
  {
    hide FieldSum;
    AddressFields(e, a);
  }

  lemma MappedLinks(e: u64, g: nat)
    requires g < ADDRESS_LIMIT
    ensures Links(e, Mapped(e, g * PAGE), g)
  {
    hide Mapped, Address, Bit;
    FrameAddress(g);
    MappedFields(e, g * PAGE);
  }

  // ----- one step of the walk

  lemma FrameAddress(f: nat)
    ensures f * PAGE % PAGE == 0 && f * PAGE / PAGE == f
  {
  }

  lemma EntryAt(m: seq<byte>, table: u64, k: nat)
    requires table % PAGE == 0 && table + PAGE <= |m| && k < 512
    ensures Entry(m, table / PAGE, k) == Load64(m, table + k * 8)
  {
  }

  /** Entries of different tables, or different entries of one table, do not overlap. */
  lemma EntriesApart(m: seq<byte>, m': seq<byte>, f: nat, k: nat, h: nat, j: nat)
    requires SameOutside(m, m', f * PAGE + k * 8, 8) && k < 512
    requires f != h || k != j
    ensures Entry(m', h, j) == Entry(m, h, j)
  {
    if j < 512 && h * PAGE + PAGE <= |m| {
      if f < h {
        assert f * PAGE + PAGE <= h * PAGE;
      } else if h < f {
        assert h * PAGE + PAGE <= f * PAGE;
      }
    }
    SameEntry(m, m', h, j);
  }

  /** Writing one entry of a table. */
  lemma EntryWritten(m: seq<byte>, m': seq<byte>, root: nat, path: Path, k: nat, p: Path, j: nat)
    requires |path| <= 3 && |p| <= 3 && Tree(m, root) && k < 512
    requires Node(m, root, path).Some? && Node(m, root, p).Some?
    requires SameOutside(m, m', Node(m, root, path).value * PAGE + k * 8, 8)
    requires p != path || j != k
    ensures Entry(m', Node(m, root, p).value, j) == Entry(m, Node(m, root, p).value, j)
  {
    EntriesApart(m, m', Node(m, root, path).value, k, Node(m, root, p).value, j);
  }

  /** The three writes that give entry `k` of the table in frame `f` a fresh, empty table in
      frame `g`: the bitmap's, the zeroing of `g`, and the entry's. */
  ghost predicate Linking(m: seq<byte>, m1: seq<byte>, m2: seq<byte>, m3: seq<byte>,
                          f: nat, k: nat, g: nat, buffer: nat, size: nat) {
    && SameOutside(m, m1, buffer, size + 1)
    && SameOutside(m1, m2, g * PAGE, PAGE)
    && (forall b | g * PAGE <= b < g * PAGE + PAGE && b < |m2| :: m2[b] == 0)
    && SameOutside(m2, m3, f * PAGE + k * 8, 8)
    && Links(Entry(m, f, k), Entry(m3, f, k), g)
  }

  lemma ChildLinked(m: seq<byte>, m1: seq<byte>, m2: seq<byte>, m3: seq<byte>,
                    root: nat, path: Path, k: nat, g: nat, buffer: nat, size: nat)
    requires |path| < 3 && k < 512 && Node(m, root, path).Some? && Tree(m, root)
    requires TablesClear(m, root, buffer, size) && Clear(m, g, buffer, size) && !IsTable(m, root, g)
    requires Linking(m, m1, m2, m3, Node(m, root, path).value, k, g, buffer, size)
    requires !Bit(Entry(m, Node(m, root, path).value, k), PRESENT)
    ensures OneEntryChanged(m, m3, root, path, k)
    ensures forall j: nat :: Entry(m3, g, j) == 0
  {
    var f := Node(m, root, path).value;
    assert f != g;
    forall j: nat
      ensures Entry(m3, g, j) == 0
    {
      ZeroEntry(m2, g, j);
      EntriesApart(m2, m3, f, k, g, j);
    }
    forall p: Path, j: nat | |p| <= 3 && Node(m, root, p).Some? && (p != path || j != k)
      ensures Entry(m3, Node(m, root, p).value, j) == Entry(m, Node(m, root, p).value, j)
    {
      var h := Node(m, root, p).value;
      assert h != g;
      assert Clear(m, h, buffer, size);
      assert SameBytes(m, m2, h * PAGE, PAGE) by {
        if g < h {
          assert g * PAGE + PAGE <= h * PAGE;
        } else {
          assert h * PAGE + PAGE <= g * PAGE;
        }
      }
      SameEntry(m, m2, h, j);
      EntriesApart(m2, m3, f, k, h, j);
    }
  }

  /** The same three writes leave other frames' data alone. */
  lemma ChildKeepsData(m: seq<byte>, m1: seq<byte>, m2: seq<byte>, m3: seq<byte>,
                       root: nat, path: Path, k: nat, g: nat, bits: seq<bool>, buffer: nat, size: nat)
    requires |path| < 3 && k < 512 && Node(m, root, path).Some?
    requires Linking(m, m1, m2, m3, Node(m, root, path).value, k, g, buffer, size)
    requires g < |bits| - 1 && !bits[g]
    ensures DataKept(m, m3, root, bits, buffer, size)
  {
    var f := Node(m, root, path).value;
    assert IsTable(m, root, f);
    forall b | 0 <= b < |m| && !(buffer <= b <= buffer + size)
               && (b / PAGE < |bits| - 1 ==> bits[b / PAGE]) && !IsTable(m, root, b / PAGE)
      ensures m3[b] == m[b]
    {
      OutsideFrame(b, f);
      OutsideFrame(b, g);
    }
  }

  lemma OutsideFrame(b: nat, f: nat)
    requires b / PAGE != f
    ensures b < f * PAGE || f * PAGE + PAGE <= b
  {
  }

  /** The tables reachable from the PML4 form a tree of writable entries, are marked in use,
      and share no byte with the bitmap; neither does any frame that can still be handed out. */
  ghost predicate Sound(m: seq<byte>, root: nat, bits: seq<bool>, buffer: nat, size: nat) {
    && |bits| > 0
    && Tree(m, root) && Writable(m, root)
    && TablesClear(m, root, buffer, size)
    && TablesInUse(m, root, bits)
    && FreeClear(bits, buffer, size)
  }

  lemma MissingNext(m: seq<byte>, root: nat, path: Path, n: nat)
    requires n < |path|
    ensures MissingUpTo(m, root, path, n + 1) == MissingUpTo(m, root, path, n) + Lacks(m, root, path[..n + 1])
  {
  }

  lemma {:induction false} MissingGrows(m: seq<byte>, root: nat, path: Path, n: nat, k: nat)
    requires n <= k <= |path|
    ensures MissingUpTo(m, root, path, n) <= MissingUpTo(m, root, path, k)
    decreases k
  {
    if n < k {
      MissingGrows(m, root, path, n, k - 1);
    }
  }

  lemma FreeIsNoTable(m: seq<byte>, root: nat, bits: seq<bool>, g: nat)
    requires TablesInUse(m, root, bits) && g < |bits| - 1 && !bits[g]
    ensures !IsTable(m, root, g)
  {
  }

  lemma ChildSound(m: seq<byte>, m': seq<byte>, root: nat, path: Path, k: nat, g: nat,
                   bits: seq<bool>, buffer: nat, size: nat)
    requires Sound(m, root, bits, buffer, size) && |m| == |m'|
    requires OneEntryChanged(m, m', root, path, k) && |path| < 3
    requires Address(Entry(m', Node(m, root, path).value, k)) == g
    requires Bit(Entry(m', Node(m, root, path).value, k), READ_WRITE)
    requires g < |bits| - 1 && !bits[g] && g < |m| / PAGE
    ensures Sound(m', root, bits[g := true], buffer, size)
  {
    hide Node, Address, Links;
    FreeIsNoTable(m, root, bits, g);
    TreeKept(m, m', root, path, k);
    WritableKept(m, m', root, path, k);
    forall p: Path | |p| <= 3 && Node(m', root, p).Some?
      ensures Clear(m', Node(m', root, p).value, buffer, size)
      ensures Node(m', root, p).value < |bits| - 1 && bits[g := true][Node(m', root, p).value]
    {
      OneWalkChanged(m, m', root, path, k, p);
    }
  }

  /** m' is m with one more table, the empty frame `g` at `path`. */
  ghost predicate TableAdded(m: seq<byte>, m': seq<byte>, root: nat, path: Path, g: nat) {
    && Node(m', root, path) == Some(g)
    && (forall q: Path | |q| <= 4 && q != path :: Node(m', root, q) == Node(m, root, q))
    && (forall j: nat :: Entry(m', g, j) == 0)
  }

  lemma ChildReached(m: seq<byte>, m': seq<byte>, root: nat, path: Path, k: nat, g: nat)
    requires OneEntryChanged(m, m', root, path, k) && |path| < 3
    requires Address(Entry(m', Node(m, root, path).value, k)) == g
    ensures TableAdded(m, m', root, path + [k], g)
  {
    forall q: Path | |q| <= 4
      ensures Node(m', root, q) == if q == path + [k] then Some(g) else Node(m, root, q)
    {
      OneWalkChanged(m, m', root, path, k, q);
    }
  }

  /** One level of MapMemory: nothing where the table exists, else a new table from a free frame. */
  ghost predicate Grown(m: seq<byte>, m': seq<byte>, root: nat, path: Path, bits: seq<bool>, bits': seq<bool>) {
    if Node(m, root, path).Some? then m' == m && bits' == bits
    else
      && Node(m', root, path).Some?
      && var g := Node(m', root, path).value;
         g < |bits| - 1 && !bits[g] && bits' == bits[g := true] && TableAdded(m, m', root, path, g)
  }

  /** What giving the table at `path` a fresh child `g` achieves. */
  lemma ChildAdded(m: seq<byte>, m1: seq<byte>, m2: seq<byte>, m3: seq<byte>, root: nat, path: Path, k: nat, g: nat,
                   bits: seq<bool>, buffer: nat, size: nat)
    requires Sound(m, root, bits, buffer, size) && |path| < 3 && k < 512
    requires Node(m, root, path).Some? && Node(m, root, path + [k]).None?
    requires g < |bits| - 1 && !bits[g] && g < |m| / PAGE
    requires Linking(m, m1, m2, m3, Node(m, root, path).value, k, g, buffer, size)
    ensures Sound(m3, root, bits[g := true], buffer, size)
    ensures Grown(m, m3, root, path + [k], bits, bits[g := true]) && Node(m3, root, path + [k]) == Some(g)
    ensures DataKept(m, m3, root, bits, buffer, size)
  {
    hide PointsTo;
    NodeStep(m, root, path, k);
    FreeFrame(m, root, bits, buffer, size, g);
    ChildLinked(m, m1, m2, m3, root, path, k, g, buffer, size);
    PointedBits(Entry(m, Node(m, root, path).value, k), Entry(m3, Node(m, root, path).value, k), g);
    ChildSound(m, m3, root, path, k, g, bits, buffer, size);
    ChildKeepsData(m, m1, m2, m3, root, path, k, g, bits, buffer, size);
    ChildReached(m, m3, root, path, k, g);
  }

  lemma ChildPlain(m: seq<byte>, m1: seq<byte>, m2: seq<byte>, m3: seq<byte>, root: nat, path: Path, k: nat, g: nat,
                   bits: seq<bool>, buffer: nat, size: nat)
    requires Sound(m, root, bits, buffer, size) && |path| < 3 && k < 512
    requires Node(m, root, path).Some? && Node(m, root, path + [k]).None?
    requires g < |bits| - 1 && !bits[g] && g < |m| / PAGE
    requires Linking(m, m1, m2, m3, Node(m, root, path).value, k, g, buffer, size)
    ensures Plain(m, root) ==> Plain(m3, root)
  {
    hide PointsTo, Plain;
    NodeStep(m, root, path, k);
    FreeFrame(m, root, bits, buffer, size, g);
    ChildLinked(m, m1, m2, m3, root, path, k, g, buffer, size);
    if Plain(m, root) {
      PointedInTree(m, m3, root, path, k, g);
    }
  }

  /** Pointing an entry of a plain tree to a frame leaves it plain. */
  lemma PointedInTree(m: seq<byte>, m': seq<byte>, root: nat, path: Path, k: nat, f: nat)
    requires OneEntryChanged(m, m', root, path, k) && Plain(m, root)
    requires PointsTo(Entry(m, Node(m, root, path).value, k), Entry(m', Node(m, root, path).value, k), f)
    ensures Plain(m', root)
  {
    hide PointsTo, PlainEntry, OneEntryChanged;
    assert Node(m, root, path).Some? && |path| <= 3 by {
      ChangedTable(m, m', root, path, k);
    }
    PointedPlain(Entry(m, Node(m, root, path).value, k), Entry(m', Node(m, root, path).value, k), f);
    PlainKept(m, m', root, path, k);
  }

  lemma ChangedTable(m: seq<byte>, m': seq<byte>, root: nat, path: Path, k: nat)
    requires OneEntryChanged(m, m', root, path, k)
    ensures Node(m, root, path).Some? && |path| <= 3
  {
  }

  lemma FreeFrame(m: seq<byte>, root: nat, bits: seq<bool>, buffer: nat, size: nat, g: nat)
    requires Sound(m, root, bits, buffer, size) && g < |bits| - 1 && !bits[g] && g < |m| / PAGE
    ensures Clear(m, g, buffer, size) && !IsTable(m, root, g)
  {
  }

  lemma TableFrame(m: seq<byte>, root: nat, bits: seq<bool>, buffer: nat, size: nat, path: Path)
    requires Sound(m, root, bits, buffer, size) && |path| <= 3 && Node(m, root, path).Some?
    ensures Clear(m, Node(m, root, path).value, buffer, size) && IsTable(m, root, Node(m, root, path).value)
  {
  }

  /** m' is m with the tables missing among the first `n` on the way to a page added, each from
      a frame that was free; the last of them is empty if it is new. */
  ghost predicate Opened(m: seq<byte>, m': seq<byte>, root: nat, path: Path, n: nat, bits: seq<bool>,
                         bits': seq<bool>) {
    && n < |path| == 4
    && (forall q: Path | |q| <= 4 && !(1 <= |q| <= n && q == path[..|q|]) :: Node(m', root, q) == Node(m, root, q))
    && (forall j | 1 <= j <= n ::
          Node(m', root, path[..j]).Some? &&
          if Node(m, root, path[..j]).Some? then Node(m', root, path[..j]) == Node(m, root, path[..j])
          else Node(m', root, path[..j]).value < |bits| - 1 && !bits[Node(m', root, path[..j]).value])
    && |bits'| == |bits| && (forall i | 0 <= i < |bits| && bits[i] :: bits'[i])
    && (if Node(m, root, path[..n]).Some? then m' == m && bits' == bits
        else n > 0 && forall k: nat :: Entry(m', Node(m', root, path[..n]).value, k) == 0)
  }

  lemma OpenedAhead(m: seq<byte>, m1: seq<byte>, root: nat, path: Path, n: nat, bits: seq<bool>, bits1: seq<bool>)
    requires n < 3 && Opened(m, m1, root, path, n, bits, bits1)
    ensures Node(m1, root, path[..n + 1]) == Node(m, root, path[..n + 1])
  {
    assert |path[..n + 1]| == n + 1;
  }

  lemma OpenedFurther(m: seq<byte>, m1: seq<byte>, m2: seq<byte>, root: nat, path: Path, n: nat,
                      bits: seq<bool>, bits1: seq<bool>, bits2: seq<bool>)
    requires n < 3 && Opened(m, m1, root, path, n, bits, bits1)
    requires Grown(m1, m2, root, path[..n + 1], bits1, bits2)
    ensures Opened(m, m2, root, path, n + 1, bits, bits2)
  {
    hide Node;
    var r := path[..n + 1];
    assert |r| == n + 1;
    OpenedAhead(m, m1, root, path, n, bits, bits1);
    if Node(m, root, r).Some? {
      OpenedTrivial(m, m1, root, path, n, bits, bits1);
    }
    forall j | 1 <= j <= n + 1
      ensures |path[..j]| == j
    {
    }
  }

  lemma OpenedTrivial(m: seq<byte>, m1: seq<byte>, root: nat, path: Path, n: nat, bits: seq<bool>, bits1: seq<bool>)
    requires n < 3 && Opened(m, m1, root, path, n, bits, bits1)
    requires Node(m, root, path[..n + 1]).Some?
    ensures m1 == m && bits1 == bits
  {
    assert path[..n + 1][..n] == path[..n];
  }

  /** Every table of m' is a table of m or was a free frame. */
  ghost predicate TablesFromFree(m: seq<byte>, m': seq<byte>, root: nat, bits: seq<bool>) {
    forall f: nat | IsTable(m', root, f) :: IsTable(m, root, f) || (f < |bits| - 1 && !bits[f])
  }

  lemma OpenedFromFree(m: seq<byte>, m1: seq<byte>, root: nat, path: Path, n: nat, bits: seq<bool>, bits1: seq<bool>)
    requires Opened(m, m1, root, path, n, bits, bits1)
    ensures TablesFromFree(m, m1, root, bits)
  {
    forall f: nat | IsTable(m1, root, f)
      ensures IsTable(m, root, f) || (f < |bits| - 1 && !bits[f])
    {
      var p: Path :| |p| <= 3 && Node(m1, root, p) == Some(f);
      if 1 <= |p| <= n && p == path[..|p|] {
        assert Node(m, root, p).Some? ==> Node(m, root, p) == Some(f);
      } else {
        assert Node(m, root, p) == Some(f);
      }
    }
  }

  lemma OpenedKeeps(m: seq<byte>, m1: seq<byte>, m2: seq<byte>, root: nat, path: Path, n: nat,
                    bits: seq<bool>, bits1: seq<bool>, buffer: nat, size: nat)
    requires Opened(m, m1, root, path, n, bits, bits1)
    requires DataKept(m, m1, root, bits, buffer, size) && DataKept(m1, m2, root, bits1, buffer, size)
    ensures DataKept(m, m2, root, bits, buffer, size)
  {
    OpenedFromFree(m, m1, root, path, n, bits, bits1);
    KeptTwice(m, m1, m2, root, bits, bits1, buffer, size);
  }

  /** Data kept by two successive changes is kept by both together. */
  lemma KeptTwice(m: seq<byte>, m1: seq<byte>, m2: seq<byte>, root: nat, bits: seq<bool>, bits1: seq<bool>,
                  buffer: nat, size: nat)
    requires TablesFromFree(m, m1, root, bits)
    requires |bits| == |bits1| && forall i | 0 <= i < |bits| && bits[i] :: bits1[i]
    requires DataKept(m, m1, root, bits, buffer, size) && DataKept(m1, m2, root, bits1, buffer, size)
    ensures DataKept(m, m2, root, bits, buffer, size)
  {
  }

  // ----- memory and allocator together

  /** The memory, the frame of the PML4, the allocator, and where its bitmap lies. */
  datatype World = World(m: seq<byte>, root: nat, s: Frames, buffer: nat, size: nat) {
    function At(path: Path): Option<nat> {
      Node(m, root, path)
    }

    /** The number of frames in memory. */
    function FrameCount(): nat {
      |m| / PAGE
    }

    /** How many of them can still be handed out. */
    function Room(): nat {
      Supply(s, FrameCount())
    }
  }

  ghost predicate Healthy(w: World) {
    HintSound(w.s) && Sound(w.m, w.root, w.s.bits, w.buffer, w.size)
  }

  ghost predicate SamePlaces(w: World, w': World) {
    w'.root == w.root && w'.buffer == w.buffer && w'.size == w.size && |w'.m| == |w.m|
  }

  /** One level of MapMemory. */
  ghost predicate Stepped(w: World, w': World, path: Path) {
    && SamePlaces(w, w') && w.s.Valid()
    && Grown(w.m, w'.m, w.root, path, w.s.bits, w'.s.bits)
    && w'.s == Requests(w.s, Lacks(w.m, w.root, path))
    && DataKept(w.m, w'.m, w.root, w.s.bits, w.buffer, w.size)
    && (Plain(w.m, w.root) ==> Plain(w'.m, w'.root))
  }

  /** The first `n` levels of a page's path, started from `w0`. */
  ghost predicate Advanced(w0: World, w: World, path: Path, n: nat) {
    && |path| == 4 && SamePlaces(w0, w) && w0.s.Valid() && HintSound(w0.s)
    && Opened(w0.m, w.m, w0.root, path, n, w0.s.bits, w.s.bits)
    && Missing(w0.m, w0.root, path) <= w0.Room()
    && w.s == Requests(w0.s, MissingUpTo(w0.m, w0.root, path, n))
    && DataKept(w0.m, w.m, w0.root, w0.s.bits, w0.buffer, w0.size)
    && (Plain(w0.m, w0.root) ==> Plain(w.m, w.root))
  }

  lemma NothingYet(w: World, path: Path)
    requires |path| == 4 && HintSound(w.s) && Missing(w.m, w.root, path) <= w.Room()
    ensures Advanced(w, w, path, 0) && w.At(path[..0]) == Some(w.root)
  {
  }

  lemma BeforeStep(w0: World, w1: World, path: Path, n: nat)
    requires n < 3 && Advanced(w0, w1, path, n)
    ensures path[..n + 1][..n] == path[..n]
    ensures Lacks(w1.m, w1.root, path[..n + 1]) <= w1.Room()
  {
    MissingNext(w0.m, w0.root, path, n);
    MissingGrows(w0.m, w0.root, path, n + 1, 3);
    RequestsSupply(w0.s, MissingUpTo(w0.m, w0.root, path, n), w0.FrameCount());
    OpenedAhead(w0.m, w1.m, w0.root, path, n, w0.s.bits, w1.s.bits);
  }

  lemma AfterStep(w0: World, w1: World, w2: World, path: Path, n: nat)
    requires n < 3 && Advanced(w0, w1, path, n) && Stepped(w1, w2, path[..n + 1])
    ensures Advanced(w0, w2, path, n + 1)
  {
    hide Opened, Grown, DataKept, HintSound, Supply, Requests, MissingUpTo, Node;
    MissingNext(w0.m, w0.root, path, n);
    OpenedAhead(w0.m, w1.m, w0.root, path, n, w0.s.bits, w1.s.bits);
    RequestsCompose(w0.s, MissingUpTo(w0.m, w0.root, path, n), Lacks(w0.m, w0.root, path[..n + 1]));
    OpenedFurther(w0.m, w1.m, w2.m, w0.root, path, n, w0.s.bits, w1.s.bits, w2.s.bits);
    OpenedKeeps(w0.m, w1.m, w2.m, w0.root, path, n, w0.s.bits, w1.s.bits, w0.buffer, w0.size);
  }

  /** A level that is already there. */
  lemma StayedPut(w: World, path: Path)
    requires Healthy(w)
    ensures w.At(path).Some? ==> Stepped(w, w, path)
  {
  }

  /** A table added to a healthy world. */
  lemma StepAdded(w: World, m1: seq<byte>, m2: seq<byte>, w': World, path: Path, k: nat)
    requires Healthy(w) && SamePlaces(w, w') && |path| < 3 && k < 512
    requires w.At(path).Some? && w.At(path + [k]).None? && w.Room() > 0
    requires w'.s == Request(w.s).0 && Request(w.s).1.Some?
    requires Linking(w.m, m1, m2, w'.m, w.At(path).value, k, Request(w.s).1.value, w.buffer, w.size)
    ensures Healthy(w') && Stepped(w, w', path + [k])
    ensures w'.At(path + [k]) == Request(w.s).1
  {
    RequestTakesOne(w.s, w.FrameCount());
    assert Requests(w.s, 0) == w.s && Requests(w.s, 1) == Request(Requests(w.s, 0)).0;
    ChildAdded(w.m, m1, m2, w'.m, w.root, path, k, Request(w.s).1.value, w.s.bits, w.buffer, w.size);
    ChildPlain(w.m, m1, m2, w'.m, w.root, path, k, Request(w.s).1.value, w.s.bits, w.buffer, w.size);
  }

  lemma HealthyTable(w: World, path: Path)
    requires Healthy(w) && |path| <= 3 && w.At(path).Some?
    ensures Clear(w.m, w.At(path).value, w.buffer, w.size)
  {
  }

  lemma LastStep(path: Path, k: nat)
    requires path != [] && path[|path| - 1] == k
    ensures path == path[..|path| - 1] + [k]
  {
  }

  lemma StillClear(m: seq<byte>, m1: seq<byte>, f: nat, g: nat, buffer: nat, size: nat)
    requires SameOutside(m, m1, buffer, size + 1) && Clear(m, f, buffer, size) && Clear(m, g, buffer, size)
    ensures |m1| == |m| && Clear(m1, f, buffer, size) && Clear(m1, g, buffer, size)
  {
  }

  /** What AddTable may rely on. */
  lemma BeforeLink(w: World, path: Path)
    requires Healthy(w) && |path| <= 3 && w.At(path).Some? && w.Room() > 0
    ensures Clear(w.m, w.At(path).value, w.buffer, w.size)
    ensures Request(w.s).1.Some? && Request(w.s).1.value < w.FrameCount()
    ensures Clear(w.m, Request(w.s).1.value, w.buffer, w.size)
    ensures Request(w.s).1.value != w.At(path).value
  {
    RequestTakesOne(w.s, w.FrameCount());
    FreeFrame(w.m, w.root, w.s.bits, w.buffer, w.size, Request(w.s).1.value);
    TableFrame(w.m, w.root, w.s.bits, w.buffer, w.size, path);
  }

  lemma LeafSound(m: seq<byte>, m': seq<byte>, root: nat, path: Path, k: nat, bits: seq<bool>, buffer: nat, size: nat)
    requires Sound(m, root, bits, buffer, size) && |m| == |m'|
    requires OneEntryChanged(m, m', root, path, k) && |path| == 3
    requires Bit(Entry(m', Node(m, root, path).value, k), READ_WRITE)
    ensures Sound(m', root, bits, buffer, size)
  {
    TreeKept(m, m', root, path, k);
    WritableKept(m, m', root, path, k);
    forall p: Path | |p| <= 3
      ensures Node(m', root, p) == Node(m, root, p)
    {
      OneWalkChanged(m, m', root, path, k, p);
    }
  }

  /** The entry of a page, 0 if it has no table yet. */
  function LeafEntry(m: seq<byte>, root: nat, path: Path): u64
    requires |path| == 4
  {
    match Node(m, root, path[..3])
    case Some(f) => Entry(m, f, path[3])
    case None => 0
  }

  /** What MapMemory does to the address map: the page at `path` now leads to `physical`; every
      walk that is no part of the way to that page, and every table that was on it, is as before. */
  ghost predicate PageMapped(m: seq<byte>, m': seq<byte>, root: nat, path: Path, physical: u64) {
    && |path| == 4
    && Node(m', root, path) == Some(physical / PAGE % ADDRESS_LIMIT)
    && LeafEntry(m', root, path) == Mapped(LeafEntry(m, root, path), physical)
    && (forall q: Path | |q| <= 4 && !(1 <= |q| && q == path[..|q|]) :: Node(m', root, q) == Node(m, root, q))
    && (forall j | 1 <= j <= 3 :: Node(m', root, path[..j]).Some?)
    && (forall j | 1 <= j <= 3 && Node(m, root, path[..j]).Some? ::
          Node(m', root, path[..j]) == Node(m, root, path[..j]))
  }

  /** One call of MapMemory. */
  ghost predicate MapStep(w: World, w': World, path: Path, physical: u64) {
    && SamePlaces(w, w') && w.s.Valid()
    && PageMapped(w.m, w'.m, w.root, path, physical)
    && w'.s == Requests(w.s, Missing(w.m, w.root, path))
    && DataKept(w.m, w'.m, w.root, w.s.bits, w.buffer, w.size)
    && TablesFromFree(w.m, w'.m, w.root, w.s.bits)
    && (Plain(w.m, w.root) ==> Plain(w'.m, w'.root))
  }

  /** Writing the leaf entry of a page. */
  lemma LeafWritten(m: seq<byte>, m': seq<byte>, root: nat, path: Path, bits: seq<bool>, buffer: nat, size: nat)
    requires Sound(m, root, bits, buffer, size) && |path| == 4 && path[3] < 512
    requires Node(m, root, path[..3]).Some?
    requires SameOutside(m, m', Node(m, root, path[..3]).value * PAGE + path[3] * 8, 8)
    requires var f, k := Node(m, root, path[..3]).value, path[3];
             PointsTo(Entry(m, f, k), Entry(m', f, k), Address(Entry(m', f, k)))
    ensures Sound(m', root, bits, buffer, size)
    ensures Plain(m, root) ==> Plain(m', root)
    ensures forall q: Path | |q| <= 4 && q != path :: Node(m', root, q) == Node(m, root, q)
    ensures Node(m', root, path) == Some(Address(Entry(m', Node(m, root, path[..3]).value, path[3])))
  {
    hide PointsTo, Plain;
    PointedBits(Entry(m, Node(m, root, path[..3]).value, path[3]), Entry(m', Node(m, root, path[..3]).value, path[3]),
                Address(Entry(m', Node(m, root, path[..3]).value, path[3])));
    var r, k := path[..3], path[3];
    assert path == r + [k];
    forall p: Path, j: nat | |p| <= 3 && Node(m, root, p).Some? && (p != r || j != k)
      ensures Entry(m', Node(m, root, p).value, j) == Entry(m, Node(m, root, p).value, j)
    {
      EntryWritten(m, m', root, r, k, p, j);
    }
    LeafSound(m, m', root, r, k, bits, buffer, size);
    if Plain(m, root) {
      PointedInTree(m, m', root, r, k, Address(Entry(m', Node(m, root, r).value, k)));
    }
    forall q: Path | |q| <= 4
      ensures Node(m', root, q)
           == if q == path then Some(Address(Entry(m', Node(m, root, r).value, k))) else Node(m, root, q)
    {
      OneWalkChanged(m, m', root, r, k, q);
    }
  }

  lemma LeafKeepsData(m: seq<byte>, m': seq<byte>, root: nat, path: Path, bits: seq<bool>, buffer: nat, size: nat)
    requires |path| == 4 && path[3] < 512 && Node(m, root, path[..3]).Some?
    requires SameOutside(m, m', Node(m, root, path[..3]).value * PAGE + path[3] * 8, 8)
    ensures DataKept(m, m', root, bits, buffer, size)
  {
    var f := Node(m, root, path[..3]).value;
    assert IsTable(m, root, f);
    forall b | 0 <= b < |m| && !(buffer <= b <= buffer + size)
               && (b / PAGE < |bits| - 1 ==> bits[b / PAGE]) && !IsTable(m, root, b / PAGE)
      ensures m'[b] == m[b]
    {
      OutsideFrame(b, f);
    }
  }

  lemma MissingThree(w: World, path: Path)
    requires |path| == 4
    ensures Missing(w.m, w.root, path) == MissingUpTo(w.m, w.root, path, 3)
  {
  }

  /** Opening the levels and then writing the leaf maps the page. */
  lemma MappedAfter(w0: World, w1: World, w2: World, path: Path, physical: u64)
    requires Advanced(w0, w1, path, 3) && w1.At(path[..3]).Some? && Healthy(w1)
    requires SamePlaces(w1, w2) && w2.s == w1.s && path[3] < 512
    requires SameOutside(w1.m, w2.m, w1.At(path[..3]).value * PAGE + path[3] * 8, 8)
    requires Entry(w2.m, w1.At(path[..3]).value, path[3])
          == Mapped(Entry(w1.m, w1.At(path[..3]).value, path[3]), physical)
    ensures Healthy(w2) && MapStep(w0, w2, path, physical)
  {
    hide Mapped, Address, Sound, DataKept, TablesFromFree, SameOutside, Opened, PageMapped, HintSound, MissingUpTo;
    hide Requests, Supply;
    MissingThree(w0, path);
    var f := w1.At(path[..3]).value;
    MappedFields(Entry(w1.m, f, path[3]), physical);
    PointsToOwn(Entry(w1.m, f, path[3]), Mapped(Entry(w1.m, f, path[3]), physical), physical / PAGE);
    hide PointsTo, Plain;
    LeafWritten(w1.m, w2.m, w1.root, path, w1.s.bits, w1.buffer, w1.size);
    LeafKeepsData(w1.m, w2.m, w1.root, path, w1.s.bits, w1.buffer, w1.size);
    OpenedKeeps(w0.m, w1.m, w2.m, w0.root, path, 3, w0.s.bits, w1.s.bits, w0.buffer, w0.size);
    OpenedThenMapped(w0.m, w1.m, w2.m, w0.root, path, physical, w0.s.bits, w1.s.bits);
    OpenedFromFree(w0.m, w1.m, w0.root, path, 3, w0.s.bits, w1.s.bits);
    LeafKeepsTables(w0.m, w1.m, w2.m, w0.root, path, w0.s.bits);
  }

  lemma LeafKeepsTables(m: seq<byte>, m1: seq<byte>, m2: seq<byte>, root: nat, path: Path, bits: seq<bool>)
    requires TablesFromFree(m, m1, root, bits) && |path| == 4
    requires forall q: Path | |q| <= 4 && q != path :: Node(m2, root, q) == Node(m1, root, q)
    ensures TablesFromFree(m, m2, root, bits)
  {
    forall f: nat | IsTable(m2, root, f)
      ensures IsTable(m1, root, f)
    {
      var p: Path :| |p| <= 3 && Node(m2, root, p) == Some(f);
      assert Node(m1, root, p) == Some(f);
    }
  }

  lemma OpenedThenMapped(m: seq<byte>, m1: seq<byte>, m2: seq<byte>, root: nat, path: Path, physical: u64,
                         bits: seq<bool>, bits1: seq<bool>)
    requires Opened(m, m1, root, path, 3, bits, bits1) && path[3] < 512
    requires forall q: Path | |q| <= 4 && q != path :: Node(m2, root, q) == Node(m1, root, q)
    requires Node(m2, root, path) == Some(physical / PAGE % ADDRESS_LIMIT)
    requires Entry(m2, Node(m1, root, path[..3]).value, path[3])
          == Mapped(Entry(m1, Node(m1, root, path[..3]).value, path[3]), physical)
    ensures PageMapped(m, m2, root, path, physical)
  {
    hide Mapped, Address;
    assert Entry(m1, Node(m1, root, path[..3]).value, path[3]) == LeafEntry(m, root, path);
    hide Entry, Node;
    forall j | 1 <= j <= 3
      ensures path[..j] != path && Node(m2, root, path[..j]) == Node(m1, root, path[..j])
    {
      assert |path[..j]| == j;
    }
    assert path[..4] == path;
    forall q: Path | |q| <= 4 && !(1 <= |q| && q == path[..|q|])
      ensures Node(m2, root, q) == Node(m, root, q)
    {
    }
  }

  // ----- what a caller sees

  /** Pages that differ in bits 12 to 47 are translated as before. */
  lemma OtherPagesKept(m: seq<byte>, m': seq<byte>, root: nat, v: u64, physical: u64, w: u64)
    requires PageMapped(m, m', root, PathOf(v / PAGE), physical)
    requires v / PAGE % 0x10_0000_0000 != w / PAGE % 0x10_0000_0000
    ensures Walk(m', root, w) == Walk(m, root, w)
  {
    PathDecides(v / PAGE, w / PAGE);
    var path := PathOf(v / PAGE);
    assert path[..4] == path;
  }

  /** Mapping a page again takes no frame. */
  lemma RemapTakesNothing(m: seq<byte>, m': seq<byte>, root: nat, v: u64, physical: u64)
    requires PageMapped(m, m', root, PathOf(v / PAGE), physical)
    ensures Missing(m', root, PathOf(v / PAGE)) == 0
  {
    var path := PathOf(v / PAGE);
    assert MissingUpTo(m', root, path, 1) == 0;
    assert MissingUpTo(m', root, path, 2) == 0;
  }

  // ----- the two ways MapMemory writes

  /** The allocator's view of the bitmap is what the bitmap's bytes in memory say. */
  ghost predicate BitmapRead(m: seq<byte>, bits: seq<bool>, buffer: nat, size: nat) {
    buffer + size < |m| && bits == BitmapModel.BitsOf(m, buffer, size * 8 + 1)
  }

  /** MapMemory links a new table below the table at `path`: the bitmap's byte is written, the
      frame is zeroed, the entry is written. */
  ghost predicate LinkStep(w: World, w': World, path: Path, k: nat) {
    && SamePlaces(w, w') && w.s.Valid() && |path| < 3 && k < 512
    && w.At(path).Some? && w.At(path + [k]).None?
    && Request(w.s).1.Some? && Request(w.s).1.value < w.FrameCount() && w'.s == Request(w.s).0
    && exists m1, m2 ::
         && BitmapRead(m1, w'.s.bits, w.buffer, w.size)
         && Linking(w.m, m1, m2, w'.m, w.At(path).value, k, Request(w.s).1.value, w.buffer, w.size)
  }

  /** MapMemory writes the leaf entry of the page at `path`. */
  ghost predicate LeafStep(w: World, w': World, path: Path) {
    && SamePlaces(w, w') && w'.s == w.s && |path| == 4 && path[3] < 512
    && w.At(path[..3]).Some?
    && SameOutside(w.m, w'.m, w.At(path[..3]).value * PAGE + path[3] * 8, 8)
    && var f, k := w.At(path[..3]).value, path[3];
       PointsTo(Entry(w.m, f, k), Entry(w'.m, f, k), Address(Entry(w'.m, f, k)))
  }

  lemma IsLeafStep(w: World, w': World, path: Path, physical: u64)
    requires SamePlaces(w, w') && w'.s == w.s && |path| == 4 && path[3] < 512 && w.At(path[..3]).Some?
    requires SameOutside(w.m, w'.m, w.At(path[..3]).value * PAGE + path[3] * 8, 8)
    requires var f, k := w.At(path[..3]).value, path[3]; Entry(w'.m, f, k) == Mapped(Entry(w.m, f, k), physical)
    ensures LeafStep(w, w', path)
  {
    hide Mapped, PointsTo, SamePlaces, SameOutside;
    var e := Entry(w.m, w.At(path[..3]).value, path[3]);
    MappedFields(e, physical);
    PointsToOwn(e, Mapped(e, physical), physical / PAGE);
  }

  /** One level of MapMemory as steps: it links a table, or nothing changes. */
  ghost predicate LinkOrStay(w: World, w': World) {
    w' == w || exists path: Path, k: nat :: LinkStep(w, w', path, k)
  }

  /** One call of MapMemory as steps: three levels and a leaf. */
  ghost predicate MapRun(w: World, w': World, path: Path) {
    exists w1, w2, w3 :: LinkOrStay(w, w1) && LinkOrStay(w1, w2) && LinkOrStay(w2, w3) && LeafStep(w3, w', path)
  }

  lemma IsLinkStep(w: World, m1: seq<byte>, m2: seq<byte>, w': World, path: Path, k: nat)
    requires w.s.Valid() && |path| < 3 && k < 512 && w.At(path).Some? && w.At(path + [k]).None?
    requires Request(w.s).1.Some? && Request(w.s).1.value < w.FrameCount()
    requires w' == w.(m := w'.m, s := Request(w.s).0) && |w'.m| == |w.m|
    requires BitmapRead(m1, w'.s.bits, w.buffer, w.size)
    requires Linking(w.m, m1, m2, w'.m, w.At(path).value, k, Request(w.s).1.value, w.buffer, w.size)
    ensures LinkStep(w, w', path, k)
  {
  }

  // ----- the page table manager

  class PageTableManager {
    var PML4: u64
    const GlobalAllocator: PageFrameAllocator

    constructor (pml4Address: u64, allocator: PageFrameAllocator)
      ensures PML4 == pml4Address && GlobalAllocator == allocator
    {
      PML4 := pml4Address;
      GlobalAllocator := allocator;
    }

    ghost function Now(): (w: World)
      requires GlobalAllocator.Valid()
      reads this, GlobalAllocator, GlobalAllocator.PageBitmap, GlobalAllocator.ram
    {
      World(GlobalAllocator.ram[..], PML4 / PAGE, GlobalAllocator.State(),
            GlobalAllocator.PageBitmap.Buffer, GlobalAllocator.PageBitmap.Size)
    }

    ghost predicate Inv()
      reads this, GlobalAllocator, GlobalAllocator.PageBitmap, GlobalAllocator.ram
    {
      GlobalAllocator.Valid() && PML4 % PAGE == 0 && Healthy(Now())
    }

    lemma Facts()
      requires Inv()
      ensures GlobalAllocator.Valid() && PML4 % PAGE == 0 && HintSound(Now().s) && Now().root == PML4 / PAGE
    {
    }

    /** The three calls that point an entry at a frame. */
    method PointTo(pde: PageDirectoryEntry, address: u64)
      modifies pde
      ensures pde.Value == Mapped(old(pde.Value), address)
    {
      hide WithFlag, WithAddress, FieldSum;
      ghost var v0 := pde.Value;
      pde.SetAddress(address / 0x1000);
      ghost var v1 := pde.Value;
      SetAddressIs(v0, address / 0x1000);
      pde.SetFlag(PRESENT, true);
      ghost var v2 := pde.Value;
      FlagDetermined(v1, PRESENT, true, v2);
      pde.SetFlag(READ_WRITE, true);
      FlagDetermined(v2, READ_WRITE, true, pde.Value);
    }

    /** `memset` of one page that is not part of the bitmap. */
    method ClearFrame(page: u64)
      requires GlobalAllocator.Valid() && page % PAGE == 0
      requires Clear(Now().m, page / PAGE, Now().buffer, Now().size)
      modifies GlobalAllocator.ram
      ensures GlobalAllocator.Valid() && Now() == old(Now()).(m := Now().m)
      ensures SameOutside(old(Now()).m, Now().m, page, PAGE)
      ensures forall b | page <= b < page + PAGE :: Now().m[b] == 0
    {
      Memset(GlobalAllocator.ram, page, 0, 0x1000);
      BitmapModel.SameBitmap(old(Now()).m, GlobalAllocator.ram[..], old(Now()).buffer, old(Now()).size);
    }

    /** The assignment to `table->entries[index]`. */
    method WriteEntry(table: u64, index: nat, value: u64)
      requires GlobalAllocator.Valid() && index < 512 && table % PAGE == 0
      requires Clear(Now().m, table / PAGE, Now().buffer, Now().size)
      modifies GlobalAllocator.ram
      ensures GlobalAllocator.Valid() && Now() == old(Now()).(m := Now().m)
      ensures SameOutside(old(Now()).m, Now().m, table / PAGE * PAGE + index * 8, 8)
      ensures Entry(Now().m, table / PAGE, index) == value
    {
      Store64(GlobalAllocator.ram, table + index * 8, value);
      EntryAt(GlobalAllocator.ram[..], table, index);
      BitmapModel.SameBitmap(old(Now()).m, GlobalAllocator.ram[..], old(Now()).buffer, old(Now()).size);
    }

    /** The branch for an entry that is not present: take a frame, clear it, link it. */
    method LinkFresh(pde: PageDirectoryEntry, table: u64, index: nat)
        returns (next: u64, ghost m1: seq<byte>, ghost m2: seq<byte>)
      requires GlobalAllocator.Valid() && index < 512 && table % PAGE == 0
      requires pde.Value == Entry(Now().m, table / PAGE, index)
      requires Clear(Now().m, table / PAGE, Now().buffer, Now().size)
      requires Request(Now().s).1.Some? && Request(Now().s).1.value != table / PAGE
      requires Clear(Now().m, Request(Now().s).1.value, Now().buffer, Now().size)
      modifies pde, GlobalAllocator`freeMemory, GlobalAllocator`usedMemory, GlobalAllocator`pageBitmapIndex,
               GlobalAllocator.ram
      ensures GlobalAllocator.Valid() && Now() == old(Now()).(m := Now().m, s := Request(old(Now()).s).0)
      ensures next % PAGE == 0 && Some(next / PAGE) == Request(old(Now()).s).1
      ensures |m1| == |Now().m| && BitmapRead(m1, Now().s.bits, Now().buffer, Now().size)
      ensures Linking(old(Now()).m, m1, m2, Now().m, table / PAGE, index, next / PAGE, Now().buffer, Now().size)
    {
      assert Now().s.Valid() && Request(Now().s).1.value < ADDRESS_LIMIT;
      hide HintSound, Request, Mapped, Links, SameOutside, Entry;
      FrameAddress(Request(Now().s).1.value);
      ghost var w := Now();
      next := GlobalAllocator.RequestPage();
      m1 := Now().m;
      StillClear(w.m, m1, table / PAGE, next / PAGE, w.buffer, w.size);
      ClearFrame(next);
      m2 := Now().m;
      WriteLink(pde, table, index, next);
    }

    /** The end of that branch: the entry is pointed at the new table and written back. */
    method WriteLink(pde: PageDirectoryEntry, table: u64, index: nat, next: u64)
      requires GlobalAllocator.Valid() && index < 512 && table % PAGE == 0 && next % PAGE == 0
      requires Clear(Now().m, table / PAGE, Now().buffer, Now().size) && next / PAGE < ADDRESS_LIMIT
      modifies pde, GlobalAllocator.ram
      ensures GlobalAllocator.Valid() && Now() == old(Now()).(m := Now().m)
      ensures SameOutside(old(Now()).m, Now().m, table / PAGE * PAGE + index * 8, 8)
      ensures Links(old(pde.Value), Entry(Now().m, table / PAGE, index), next / PAGE)
    {
      hide Mapped, Links, SameOutside, Entry;
      MappedLinks(pde.Value, next / PAGE);
      PointTo(pde, next);
      WriteEntry(table, index, pde.Value);
    }

    method AddTable(pde: PageDirectoryEntry, table: u64, index: nat, ghost path: Path) returns (next: u64)
      requires Inv() && 0 < |path| <= 3 && index < 512 && path[|path| - 1] == index
      requires table % PAGE == 0 && Now().At(path[..|path| - 1]) == Some(table / PAGE)
      requires Now().At(path).None? && Now().Room() > 0
      requires pde.Value == Entry(Now().m, table / PAGE, index)
      modifies pde, GlobalAllocator`freeMemory, GlobalAllocator`usedMemory, GlobalAllocator`pageBitmapIndex,
               GlobalAllocator.ram
      ensures Inv() && Stepped(old(Now()), Now(), path)
      ensures LinkStep(old(Now()), Now(), path[..|path| - 1], index)
      ensures next % PAGE == 0 && Now().At(path) == Some(next / PAGE)
    {
      ghost var w, parent := Now(), path[..|path| - 1];
      LastStep(path, index);
      hide Healthy, Stepped, HintSound, Supply, Request, Clear, Linking, LinkStep, BitmapRead;
      BeforeLink(w, parent);
      ghost var m1, m2;
      next, m1, m2 := LinkFresh(pde, table, index);
      StepAdded(w, m1, m2, Now(), parent, index);
      IsLinkStep(w, m1, m2, Now(), parent, index);
    }

    /** The entry, and the table it points to if it is present. */
    method ReadEntry(table: u64, index: nat, ghost path: Path)
      returns (pde: PageDirectoryEntry, present: bool, child: u64)
      requires Inv() && 0 < |path| <= 3 && index < 512 && path[|path| - 1] == index
      requires table % PAGE == 0 && Now().At(path[..|path| - 1]) == Some(table / PAGE)
      ensures fresh(pde) && pde.Value == Entry(Now().m, table / PAGE, index)
      ensures present <==> Now().At(path).Some?
      ensures present ==> child % PAGE == 0 && Now().At(path) == Some(child / PAGE)
    {
      assert Clear(Now().m, table / PAGE, Now().buffer, Now().size);
      EntryAt(GlobalAllocator.ram[..], table, index);
      pde := new PageDirectoryEntry(Load64(GlobalAllocator.ram[..], table + index * 8));
      present := pde.GetFlag(PRESENT);
      AddressField(pde.Value);
      var address := pde.GetAddress();
      child := address * 0x1000;
      FrameAddress(address);
    }

    /** The block MapMemory repeats at every level: follow an entry, or give it a new table. */
    method Descend(table: u64, index: nat, ghost path: Path) returns (next: u64)
      requires Inv() && 0 < |path| <= 3 && index < 512 && path[|path| - 1] == index
      requires table % PAGE == 0 && Now().At(path[..|path| - 1]) == Some(table / PAGE)
      requires Lacks(Now().m, Now().root, path) <= Now().Room()
      modifies GlobalAllocator`freeMemory, GlobalAllocator`usedMemory, GlobalAllocator`pageBitmapIndex,
               GlobalAllocator.ram
      ensures Inv() && Stepped(old(Now()), Now(), path) && LinkOrStay(old(Now()), Now())
      ensures next % PAGE == 0 && Now().At(path) == Some(next / PAGE)
    {
      StayedPut(Now(), path);
      hide Healthy, Stepped, HintSound, Supply, Node, LinkStep;
      var pde, present, child := ReadEntry(table, index, path);
      next := child;
      if !present {
        next := AddTable(pde, table, index, path);
      }
    }

    /** One level further on the way from world `w0`. */
    method NextTable(table: u64, index: nat, ghost path: Path, ghost n: nat, ghost w0: World) returns (next: u64)
      requires Inv() && Advanced(w0, Now(), path, n) && n < 3 && |path| == 4 && path[n] == index < 512
      requires table % PAGE == 0 && Now().At(path[..n]) == Some(table / PAGE)
      modifies GlobalAllocator`freeMemory, GlobalAllocator`usedMemory, GlobalAllocator`pageBitmapIndex,
               GlobalAllocator.ram
      ensures Inv() && Advanced(w0, Now(), path, n + 1) && LinkOrStay(old(Now()), Now())
      ensures next % PAGE == 0 && Now().At(path[..n + 1]) == Some(next / PAGE)
    {
      hide Healthy, HintSound, Stepped, Advanced, Node, LinkOrStay;
      ghost var w1 := Now();
      BeforeStep(w0, w1, path, n);
      next := Descend(table, index, path[..n + 1]);
      AfterStep(w0, w1, Now(), path, n);
    }

    /** MapMemory's first two levels. */
    method UpperTables(indexer: PageMapIndexer, ghost path: Path) returns (pd: u64, ghost w1: World)
      requires path == [indexer.PDP_i, indexer.PD_i, indexer.PT_i, indexer.P_i]
      requires indexer.PDP_i < 512 && indexer.PD_i < 512
      requires Inv() && Missing(Now().m, Now().root, path) <= Now().Room()
      modifies GlobalAllocator`freeMemory, GlobalAllocator`usedMemory, GlobalAllocator`pageBitmapIndex,
               GlobalAllocator.ram
      ensures Inv() && Advanced(old(Now()), Now(), path, 2)
      ensures LinkOrStay(old(Now()), w1) && LinkOrStay(w1, Now())
      ensures pd % PAGE == 0 && Now().At(path[..2]) == Some(pd / PAGE)
    {
      hide Inv, Advanced, Node, Missing, Supply, LinkOrStay;
      Facts();
      ghost var w0 := Now();
      NothingYet(w0, path);
      var pdp := NextTable(PML4, indexer.PDP_i, path, 0, w0);
      Facts();
      w1 := Now();
      pd := NextTable(pdp, indexer.PD_i, path, 1, w0);
    }

    /** MapMemory down to the table that holds the entry of the page. */
    method LowestTable(indexer: PageMapIndexer, ghost path: Path)
      returns (pt: u64, ghost w1: World, ghost w2: World)
      requires path == [indexer.PDP_i, indexer.PD_i, indexer.PT_i, indexer.P_i]
      requires indexer.PDP_i < 512 && indexer.PD_i < 512 && indexer.PT_i < 512
      requires Inv() && Missing(Now().m, Now().root, path) <= Now().Room()
      modifies GlobalAllocator`freeMemory, GlobalAllocator`usedMemory, GlobalAllocator`pageBitmapIndex,
               GlobalAllocator.ram
      ensures Inv() && Advanced(old(Now()), Now(), path, 3)
      ensures LinkOrStay(old(Now()), w1) && LinkOrStay(w1, w2) && LinkOrStay(w2, Now())
      ensures pt % PAGE == 0 && Now().At(path[..3]) == Some(pt / PAGE)
    {
      ghost var w0 := Now();
      hide Inv, Advanced, Node, Missing, Supply, LinkOrStay;
      var pd;
      pd, w1 := UpperTables(indexer, path);
      w2 := Now();
      pt := NextTable(pd, indexer.PT_i, path, 2, w0);
    }

    /** The last five statements of MapMemory. */
    method SetLeaf(pt: u64, index: nat, physicalMemory: u64, ghost path: Path)
      requires GlobalAllocator.Valid() && pt % PAGE == 0 && index < 512
      requires |path| == 4 && path[3] == index && Now().At(path[..3]) == Some(pt / PAGE)
      requires Clear(Now().m, pt / PAGE, Now().buffer, Now().size)
      modifies GlobalAllocator.ram
      ensures GlobalAllocator.Valid() && Now() == old(Now()).(m := Now().m)
      ensures SameOutside(old(Now()).m, Now().m, pt / PAGE * PAGE + index * 8, 8)
      ensures Entry(Now().m, pt / PAGE, index) == Mapped(Entry(old(Now()).m, pt / PAGE, index), physicalMemory)
      ensures LeafStep(old(Now()), Now(), path)
    {
      hide Mapped, LeafStep, PointsTo;
      ghost var w := Now();
      EntryAt(GlobalAllocator.ram[..], pt, index);
      var pde := new PageDirectoryEntry(Load64(GlobalAllocator.ram[..], pt + index * 8));
      PointTo(pde, physicalMemory);
      WriteEntry(pt, index, pde.Value);
      IsLeafStep(w, Now(), path, physicalMemory);
    }

    /** MapMemory behind the call that splits the address. */
    method MapAlong(indexer: PageMapIndexer, ghost path: Path, physicalMemory: u64)
      requires path == [indexer.PDP_i, indexer.PD_i, indexer.PT_i, indexer.P_i]
      requires indexer.PDP_i < 512 && indexer.PD_i < 512 && indexer.PT_i < 512 && indexer.P_i < 512
      requires Inv() && Missing(Now().m, Now().root, path) <= Now().Room()
      modifies GlobalAllocator`freeMemory, GlobalAllocator`usedMemory, GlobalAllocator`pageBitmapIndex,
               GlobalAllocator.ram
      ensures Inv() && MapStep(old(Now()), Now(), path, physicalMemory) && MapRun(old(Now()), Now(), path)
    {
      hide Healthy, HintSound, Advanced, MapStep, Missing, Supply, Mapped, Clear, SameOutside, LinkOrStay, LeafStep;
      ghost var w0 := Now();
      var pt;
      ghost var v1, v2;
      pt, v1, v2 := LowestTable(indexer, path);
      ghost var w1 := Now();
      HealthyTable(w1, path[..3]);
      SetLeaf(pt, indexer.P_i, physicalMemory, path);
      MappedAfter(w0, w1, Now(), path, physicalMemory);
    }

    method MapMemory(virtualMemory: u64, physicalMemory: u64)
      requires Inv()
      requires Missing(Now().m, Now().root, PathOf(virtualMemory / PAGE)) <= Now().Room()
      modifies GlobalAllocator`freeMemory, GlobalAllocator`usedMemory, GlobalAllocator`pageBitmapIndex,
               GlobalAllocator.ram
      ensures Inv() && MapStep(old(Now()), Now(), PathOf(virtualMemory / PAGE), physicalMemory)
      ensures MapRun(old(Now()), Now(), PathOf(virtualMemory / PAGE))
    {
      ghost var path := PathOf(virtualMemory / PAGE);
      var indexer := new PageMapIndexer(virtualMemory);
      FourIndices(virtualMemory / PAGE, indexer.PDP_i, indexer.PD_i, indexer.PT_i, indexer.P_i);
      hide PathOf, MapStep, MapRun, Missing, Supply, Healthy, HintSound;
      MapAlong(indexer, path, physicalMemory);
    }
  }

  lemma FourIndices(page: nat, a: nat, b: nat, c: nat, d: nat)
    requires [a, b, c, d] == PathOf(page)
    ensures a < 512 && b < 512 && c < 512 && d < 512
  {
    var path := PathOf(page);
    assert a == path[0] && b == path[1] && c == path[2] && d == path[3];
  }
}

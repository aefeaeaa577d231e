/** The identity-mapping loops of kernel/src/kernelUtil.cpp: which walks exist, and how many
    tables they take. */
module IdentityMapModel {
  import opened BitWords
  import opened Options
  import opened Ram
  import opened PageEntry
  import opened PageTree
  import opened FrameSpec
  import opened PageTableManagerModel

  const PAGES: nat := 0x10_0000_0000

  /** Exactly the pages in `S` are mapped, each to the frame of its own number; the tables are
      exactly the ones on the way to them. */
  ghost predicate Identity(m: seq<byte>, root: nat, S: iset<nat>) {
    && (forall v | v in S :: v < PAGES)
    && (forall v | v in S :: Node(m, root, PathOf(v)) == Some(v))
    && (forall v, j | v in S && 1 <= j <= 4 :: Node(m, root, PathOf(v)[..j]).Some?)
    && (forall q: Path | 1 <= |q| <= 4 && Node(m, root, q).Some? :: OnTheWay(S, q))
  }

  ghost predicate OnTheWay(S: iset<nat>, q: Path) {
    |q| <= 4 && exists v :: v in S && q == PathOf(v)[..|q|]
  }

  /** The tables missing for page `t` when the pages in `S` are mapped. */
  ghost function NewTables(S: iset<nat>, t: nat): nat {
    (if OnTheWay(S, PathOf(t)[..1]) then 0 else 1) +
    (if OnTheWay(S, PathOf(t)[..2]) then 0 else 1) +
    (if OnTheWay(S, PathOf(t)[..3]) then 0 else 1)
  }

  /** The tables missing for the pages `a..b`. */
  ghost function TablesNeeded(S: iset<nat>, a: nat, b: nat): nat {
    if b <= a then 0 else TablesNeeded(S, a, b - 1) + NewTables(With(S, a, b - 1), b - 1)
  }

  /** `S` and the pages `a..b`. */
  ghost function With(S: iset<nat>, a: nat, b: nat): iset<nat> {
    iset v: nat | v in S || a <= v < b
  }

  lemma MissingIsNewTables(m: seq<byte>, root: nat, S: iset<nat>, t: nat)
    requires Identity(m, root, S) && t < PAGES
    ensures Missing(m, root, PathOf(t)) == NewTables(S, t)
  {
    hide PathOf, Node, Missing;
    var p := PathOf(t);
    MissingSum(m, root, p);
    forall j | 1 <= j <= 3
      ensures Node(m, root, p[..j]).Some? <==> OnTheWay(S, p[..j])
    {
      assert |p[..j]| == j;
    }
  }

  lemma MissingSum(m: seq<byte>, root: nat, p: Path)
    requires |p| == 4
    ensures Missing(m, root, p) == Lacks(m, root, p[..1]) + Lacks(m, root, p[..2]) + Lacks(m, root, p[..3])
  {
    hide Lacks;
    assert MissingUpTo(m, root, p, 1) == Lacks(m, root, p[..1]);
    assert MissingUpTo(m, root, p, 2) == Lacks(m, root, p[..1]) + Lacks(m, root, p[..2]);
  }

  /** Mapping page `t` to its own frame adds `t` to the identity map. */
  lemma IdentityGrows(m: seq<byte>, m': seq<byte>, root: nat, S: iset<nat>, t: nat, physical: u64)
    requires Identity(m, root, S) && t < PAGES && physical / PAGE == t
    requires PageMapped(m, m', root, PathOf(t), physical)
    ensures Identity(m', root, S + iset{t})
  {
    hide Node, PathOf, PageMapped;
    forall v | v in S + iset{t}
      ensures v < PAGES && Node(m', root, PathOf(v)) == Some(v)
    {
      PageKept(m, m', root, S, t, physical, v, 4);
    }
    forall v, j | v in S + iset{t} && 1 <= j <= 4
      ensures Node(m', root, PathOf(v)[..j]).Some?
    {
      PageKept(m, m', root, S, t, physical, v, j);
    }
    forall q: Path | 1 <= |q| <= 4 && Node(m', root, q).Some?
      ensures OnTheWay(S + iset{t}, q)
    {
      TableKept(m, m', root, S, t, physical, q);
    }
  }

  /** A page that is not on the path that was mapped is where it was, and one that is is mapped. */
  lemma OnThePath(m: seq<byte>, m': seq<byte>, root: nat, path: Path, physical: u64, q: Path)
    requires PageMapped(m, m', root, path, physical) && 1 <= |q| <= 4
    ensures q == path[..|q|] ==> Node(m', root, q).Some?
    ensures q == path ==> Node(m', root, q) == Some(physical / PAGE % ADDRESS_LIMIT)
    ensures q != path[..|q|] ==> Node(m', root, q) == Node(m, root, q)
  {
    hide Node;
    assert path[..4] == path;
  }

  lemma PageKept(m: seq<byte>, m': seq<byte>, root: nat, S: iset<nat>, t: nat, physical: u64, v: nat, j: nat)
    requires Identity(m, root, S) && t < PAGES && physical / PAGE == t && v in S + iset{t}
    requires PageMapped(m, m', root, PathOf(t), physical) && 1 <= j <= 4
    ensures v < PAGES && Node(m', root, PathOf(v)) == Some(v)
    ensures Node(m', root, PathOf(v)[..j]).Some?
  {
    hide Node, PathOf, PageMapped;
    var p, q := PathOf(t), PathOf(v);
    OnThePath(m, m', root, p, physical, q);
    OnThePath(m, m', root, p, physical, q[..j]);
    assert q[..4] == q && p[..4] == p;
    if v != t {
      DistinctPaths(v, t);
    }
  }

  lemma TableKept(m: seq<byte>, m': seq<byte>, root: nat, S: iset<nat>, t: nat, physical: u64, q: Path)
    requires Identity(m, root, S) && PageMapped(m, m', root, PathOf(t), physical)
    requires 1 <= |q| <= 4 && Node(m', root, q).Some?
    ensures OnTheWay(S + iset{t}, q)
  {
    hide Node, PathOf, PageMapped;
    OnThePath(m, m', root, PathOf(t), physical, q);
    if q == PathOf(t)[..|q|] {
      assert t in S + iset{t};
    } else {
      var v :| v in S && q == PathOf(v)[..|q|];
      assert v in S + iset{t};
    }
  }

  lemma DistinctPaths(a: nat, b: nat)
    requires a < PAGES && b < PAGES && a != b
    ensures PathOf(a) != PathOf(b)
  {
    hide PathOf;
    PathDecides(a, b);
    assert a % PAGES == a && b % PAGES == b;
  }

  // ----- how many tables the pages below n take

  function Ceil(a: nat, b: nat): nat
    requires b > 0
  {
    (a + b - 1) / b
  }

  /** Two pages share their first `j` indices exactly when the higher bits agree. */
  lemma SharedPrefix(v: nat, t: nat)
    requires v < PAGES && t < PAGES
    ensures PathOf(v)[..1] == PathOf(t)[..1] <==> v / 0x800_0000 == t / 0x800_0000
    ensures PathOf(v)[..2] == PathOf(t)[..2] <==> v / 0x4_0000 == t / 0x4_0000
    ensures PathOf(v)[..3] == PathOf(t)[..3] <==> v / 0x200 == t / 0x200
  {
    hide PathOf;
    var p, q := PathOf(v), PathOf(t);
    Quotients(v);
    Quotients(t);
    assert p[..1] == [p[0]] && p[..2] == [p[0], p[1]] && p[..3] == [p[0], p[1], p[2]];
    assert q[..1] == [q[0]] && q[..2] == [q[0], q[1]] && q[..3] == [q[0], q[1], q[2]];
  }

  lemma Quotients(v: nat)
    requires v < PAGES
    ensures var p := PathOf(v);
            && p[0] == v / 0x800_0000 && p[1] < 512 && p[2] < 512
            && p[0] * 512 + p[1] == v / 0x4_0000
            && (p[0] * 512 + p[1]) * 512 + p[2] == v / 0x200
  {
    DivideTwice(v);
    DivideThrice(v);
    var p1 := v / 512;
    var p2 := p1 / 512;
    var p3 := p2 / 512;
    DigitOnTop(p1);
    DigitOnTop(p2);
    assert p3 % 512 == p3;
  }

  lemma DivideTwice(v: nat)
    ensures v / 512 / 512 == v / 0x4_0000
  {
  }

  lemma DivideThrice(v: nat)
    requires v < PAGES
    ensures v / 0x4_0000 / 512 == v / 0x800_0000 < 512
  {
  }

  lemma DigitOnTop(x: nat)
    ensures x / 512 * 512 + x % 512 == x
  {
  }

  /** With all pages below `t` mapped, page `t` starts a new table at each level whose index
      bits below it are all zero. */
  lemma NewTablesBelow(t: nat)
    requires t < PAGES
    ensures NewTables(With(iset{}, 0, t), t)
         == (if t % 0x800_0000 == 0 then 1 else 0) + (if t % 0x4_0000 == 0 then 1 else 0)
           + (if t % 0x200 == 0 then 1 else 0)
  {
    var S := With(iset{}, 0, t);
    OnTheWayBelow(t, 1, 0x800_0000);
    OnTheWayBelow(t, 2, 0x4_0000);
    OnTheWayBelow(t, 3, 0x200);
  }

  lemma OnTheWayBelow(t: nat, j: nat, b: nat)
    requires t < PAGES
    requires (j == 1 && b == 0x800_0000) || (j == 2 && b == 0x4_0000) || (j == 3 && b == 0x200)
    ensures OnTheWay(With(iset{}, 0, t), PathOf(t)[..j]) <==> t % b != 0
  {
    var S := With(iset{}, 0, t);
    assert |PathOf(t)[..j]| == j;
    if t % b != 0 {
      SharedPrefix(t - 1, t);
      assert t - 1 in S;
    }
    if OnTheWay(S, PathOf(t)[..j]) {
      var v :| v in S && PathOf(t)[..j] == PathOf(v)[..j];
      SharedPrefix(v, t);
    }
  }

  /** The identity map of pages 0..n takes one table for every 2^9, 2^18 and 2^27 pages begun. */
  lemma {:induction false} TablesForFirstPages(n: nat)
    requires n <= PAGES
    ensures TablesNeeded(iset{}, 0, n) == Ceil(n, 0x200) + Ceil(n, 0x4_0000) + Ceil(n, 0x800_0000)
  {
    hide NewTables, With, Ceil;
    if n > 0 {
      TablesForFirstPages(n - 1);
      NewTablesBelow(n - 1);
      CeilStep(n - 1, 0x200);
      CeilStep(n - 1, 0x4_0000);
      CeilStep(n - 1, 0x800_0000);
    } else {
      CeilZero();
    }
  }

  lemma CeilZero()
    ensures Ceil(0, 0x200) == Ceil(0, 0x4_0000) == Ceil(0, 0x800_0000) == 0
  {
  }

  lemma CeilStep(t: nat, b: nat)
    requires b == 0x200 || b == 0x4_0000 || b == 0x800_0000
    ensures Ceil(t + 1, b) == Ceil(t, b) + (if t % b == 0 then 1 else 0)
  {
  }

  // ----- the loop

  /** From world `w0`, in which `S` was mapped, the pages `a..b` have been mapped too. */
  ghost predicate RangeMapped(w0: World, w: World, S: iset<nat>, a: nat, b: nat) {
    && SamePlaces(w0, w) && w0.s.Valid() && |w.s.bits| == |w0.s.bits|
    && Identity(w.m, w.root, With(S, a, b))
    && w.s == Requests(w0.s, TablesNeeded(S, a, b))
    && DataKept(w0.m, w.m, w0.root, w0.s.bits, w0.buffer, w0.size)
    && TablesFromFree(w0.m, w.m, w0.root, w0.s.bits)
    && (Plain(w0.m, w0.root) ==> Plain(w.m, w.root))
  }

  lemma {:induction false} NeedGrows(S: iset<nat>, a: nat, b: nat, c: nat)
    requires b <= c
    ensures TablesNeeded(S, a, b) <= TablesNeeded(S, a, c)
    decreases c
  {
    hide NewTables, With;
    if b < c {
      NeedGrows(S, a, b, c - 1);
      assert c > a ==> TablesNeeded(S, a, c) >= TablesNeeded(S, a, c - 1);
    }
  }

  lemma RangeStarts(w: World, S: iset<nat>, a: nat)
    requires w.s.Valid() && Identity(w.m, w.root, S)
    ensures RangeMapped(w, w, S, a, a)
  {
    assert With(S, a, a) == S;
  }

  lemma HealthyHint(w: World)
    requires Healthy(w)
    ensures HintSound(w.s) && w.s.Valid()
  {
  }

  /** The next page can be mapped. */
  lemma RangeBefore(w0: World, w: World, S: iset<nat>, a: nat, b: nat, c: nat)
    requires RangeMapped(w0, w, S, a, b) && HintSound(w0.s) && a <= b < c <= PAGES
    requires TablesNeeded(S, a, c) <= w0.Room()
    ensures Missing(w.m, w.root, PathOf(b)) <= w.Room()
  {
    hide Identity, DataKept, TablesFromFree, Requests, Missing, Supply, PathOf, NewTables, With;
    NeedGrows(S, a, b, c);
    NeedGrows(S, a, b + 1, c);
    assert TablesNeeded(S, a, b + 1) == TablesNeeded(S, a, b) + NewTables(With(S, a, b), b);
    RequestsSupply(w0.s, TablesNeeded(S, a, b), w0.FrameCount());
    MissingIsNewTables(w.m, w.root, With(S, a, b), b);
  }

  lemma RangeAfter(w0: World, w: World, w': World, S: iset<nat>, a: nat, b: nat, physical: u64)
    requires RangeMapped(w0, w, S, a, b) && a <= b < PAGES
    requires MapStep(w, w', PathOf(b), physical) && physical / PAGE == b
    ensures RangeMapped(w0, w', S, a, b + 1)
  {
    hide Identity, PageMapped, DataKept, TablesFromFree, Requests, Missing, PathOf, NewTables, OnTheWay;
    MissingIsNewTables(w.m, w.root, With(S, a, b), b);
    IdentityGrows(w.m, w'.m, w.root, With(S, a, b), b, physical);
    assert With(S, a, b) + iset{b} == With(S, a, b + 1);
    RequestsCompose(w0.s, TablesNeeded(S, a, b), NewTables(With(S, a, b), b));
    RequestsOnlySet(w0.s, TablesNeeded(S, a, b));
    RequestsOnlySet(w.s, Missing(w.m, w.root, PathOf(b)));
    KeptTwice(w0.m, w.m, w'.m, w0.root, w0.s.bits, w.s.bits, w0.buffer, w0.size);
    FromFreeTwice(w0.m, w.m, w'.m, w0.root, w0.s.bits, w.s.bits);
  }

  lemma FromFreeTwice(m: seq<byte>, m1: seq<byte>, m2: seq<byte>, root: nat, bits: seq<bool>, bits1: seq<bool>)
    requires TablesFromFree(m, m1, root, bits) && TablesFromFree(m1, m2, root, bits1)
    requires |bits| == |bits1| && forall i | 0 <= i < |bits| && bits[i] :: bits1[i]
    ensures TablesFromFree(m, m2, root, bits)
  {
  }

  /** The number of pages a loop `for (t = start; t < end; t += 0x1000)` visits. */
  function Visited(start: nat, end: nat): nat {
    if end <= start then 0 else (end - start + 0xfff) / 0x1000
  }

  lemma LoopCount(start: nat, end: nat, i: nat)
    ensures start + i * 0x1000 < end <==> i < Visited(start, end)
    ensures (start + i * 0x1000) / PAGE == start / PAGE + i
    ensures start + Visited(start, end) * PAGE < (if start < end then end else start) + PAGE
  {
  }

  /** One round: page `b` of the pages `a..c`. */
  method MapNext(manager: PageTableManager, t: u64, ghost w0: World, ghost S: iset<nat>,
                 ghost a: nat, ghost b: nat, ghost c: nat)
    requires manager.Inv() && RangeMapped(w0, manager.Now(), S, a, b)
    requires HintSound(w0.s) && TablesNeeded(S, a, c) <= w0.Room()
    requires t / PAGE == b && a <= b < c <= PAGES
    modifies manager.GlobalAllocator`freeMemory, manager.GlobalAllocator`usedMemory,
             manager.GlobalAllocator`pageBitmapIndex, manager.GlobalAllocator.ram
    ensures manager.GlobalAllocator.Valid() && manager.Inv() && RangeMapped(w0, manager.Now(), S, a, b + 1)
  {
    hide HintSound, Healthy, MapStep, Missing, Supply, TablesNeeded, RangeMapped;
    ghost var w := manager.Now();
    RangeBefore(w0, w, S, a, b, c);
    manager.MapMemory(t, t);
    RangeAfter(w0, w, manager.Now(), S, a, b, t);
  }

  /** Both identity-mapping loops of PrepareMemory. */
  method MapIdentity(manager: PageTableManager, start: u64, end: u64, ghost S: iset<nat>)
    requires manager.Inv() && Identity(manager.Now().m, manager.Now().root, S)
    requires start / PAGE + Visited(start, end) <= PAGES && start + PAGE <= TWO_64 && end + PAGE <= TWO_64
    requires TablesNeeded(S, start / PAGE, start / PAGE + Visited(start, end)) <= manager.Now().Room()
    modifies manager.GlobalAllocator`freeMemory, manager.GlobalAllocator`usedMemory,
             manager.GlobalAllocator`pageBitmapIndex, manager.GlobalAllocator.ram
    ensures manager.Inv()
    ensures RangeMapped(old(manager.Now()), manager.Now(), S, start / PAGE, start / PAGE + Visited(start, end))
  {
    hide Healthy, HintSound, Sound, RangeMapped, TablesNeeded, Supply, Visited, Identity;
    ghost var w0, a, n := manager.Now(), start / PAGE, Visited(start, end);
    HealthyHint(w0);
    RangeStarts(w0, S, a);
    var t := start;
    ghost var i := 0;
    LoopCount(start, end, 0);
    while t < end
      invariant i <= n && t == start + i * 0x1000 && (t < end <==> i < n)
      invariant manager.GlobalAllocator.Valid() && manager.Inv()
      invariant RangeMapped(w0, manager.Now(), S, a, a + i)
      decreases n - i
    {
      LoopCount(start, end, i);
      MapNext(manager, t, w0, S, a, a + i, a + n);
      LoopCount(start, end, i + 1);
      t := t + 0x1000;
      i := i + 1;
    }
  }
}

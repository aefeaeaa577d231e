/** The four-level page table as a walk over memory (Intel SDM Vol. 3A, section 4.5), and what
    one entry write does to it. A path is the sequence of indices from the PML4 down; a walk of
    one to three steps ends at a table, a walk of four steps at a mapped frame. */
module PageTree {
  import opened BitWords
  import opened Options
  import opened Ram
  import opened PageEntry
  import opened FrameSpec

  type Path = seq<nat>

  /** The present-bit walk: the frame reached from the PML4 in frame `root`. */
  function Node(m: seq<byte>, root: nat, path: Path): Option<nat>
    decreases |path|
  {
    if path == [] then Some(root)
    else
      var last := |path| - 1;
      match Node(m, root, path[..last])
      case None => None
      case Some(f) =>
        var e := Entry(m, f, path[last]);
        if Bit(e, PRESENT) then Some(Address(e)) else None
  }

  lemma NodeStep(m: seq<byte>, root: nat, path: Path, k: nat)
    ensures Node(m, root, path + [k]) ==
            match Node(m, root, path)
            case None => None
            case Some(f) => if Bit(Entry(m, f, k), PRESENT) then Some(Address(Entry(m, f, k))) else None
  {
    assert (path + [k])[..|path|] == path;
  }

  /** A walk that succeeds uses entries that exist. */
  lemma {:induction false} NodeIndices(m: seq<byte>, root: nat, path: Path)
    requires Node(m, root, path).Some?
    ensures forall k | k in path :: k < 512
    decreases |path|
  {
    if path != [] {
      var last := |path| - 1;
      NodeIndices(m, root, path[..last]);
      if path[last] >= 512 {
        ZeroBit(PRESENT);
      }
      assert path == path[..last] + [path[last]];
    }
  }

  /** The tables form a tree: no frame is reached along two paths. */
  ghost predicate Tree(m: seq<byte>, root: nat) {
    forall p: Path, q: Path | |p| <= 3 && |q| <= 3 && Node(m, root, p).Some? && Node(m, root, p) == Node(m, root, q) ::
      p == q
  }

  /** Frame `f` is one of the tables. */
  ghost predicate IsTable(m: seq<byte>, root: nat, f: nat) {
    exists p: Path | |p| <= 3 :: Node(m, root, p) == Some(f)
  }

  /** Every present entry in the tree, at any level, allows writing. */
  ghost predicate Writable(m: seq<byte>, root: nat) {
    forall p: Path, k: nat | |p| <= 3 && Node(m, root, p).Some? && Bit(Entry(m, Node(m, root, p).value, k), PRESENT) ::
      Bit(Entry(m, Node(m, root, p).value, k), READ_WRITE)
  }

  /** Every entry in the tree, at any level, is zero or a frame's address with Present and ReadWrite. */
  ghost predicate Plain(m: seq<byte>, root: nat) {
    forall p: Path, k: nat | |p| <= 3 && Node(m, root, p).Some? :: PlainEntry(Entry(m, Node(m, root, p).value, k))
  }

  /** Memory m' is m except for entry `k` of the table at `path`; a fresh child table is empty. */
  ghost predicate OneEntryChanged(m: seq<byte>, m': seq<byte>, root: nat, path: Path, k: nat) {
    && |path| <= 3
    && Node(m, root, path).Some?
    && (forall p: Path, j: nat | |p| <= 3 && Node(m, root, p).Some? && (p != path || j != k) ::
          Entry(m', Node(m, root, p).value, j) == Entry(m, Node(m, root, p).value, j))
    && var f := Node(m, root, path).value;
       && Bit(Entry(m', f, k), PRESENT)
       && (|path| < 3 ==> !Bit(Entry(m, f, k), PRESENT)
                          && forall j: nat :: Entry(m', Address(Entry(m', f, k)), j) == 0)
  }

  /** Such a write redirects one walk and leaves every other walk as it was. */
  lemma {:induction false} OneWalkChanged(m: seq<byte>, m': seq<byte>, root: nat, path: Path, k: nat, q: Path)
    requires OneEntryChanged(m, m', root, path, k) && |q| <= 4
    ensures Node(m', root, q) ==
            if q == path + [k] then Some(Address(Entry(m', Node(m, root, path).value, k))) else Node(m, root, q)
    decreases |q|
  {
    if q != [] {
      var p, j := q[..|q| - 1], q[|q| - 1];
      assert q == p + [j];
      OneWalkChanged(m, m', root, path, k, p);
      NodeStep(m, root, p, j);
      NodeStep(m', root, p, j);
      if p == path + [k] {
        NodeStep(m, root, path, k);
        ZeroBit(PRESENT);
      } else {
        assert q == path + [k] <==> p == path && j == k;
      }
    }
  }

  /** Writing an entry of a table at level 3 or above with a frame that was no table keeps the
      tree; writing a leaf always does. */
  lemma TreeKept(m: seq<byte>, m': seq<byte>, root: nat, path: Path, k: nat)
    requires OneEntryChanged(m, m', root, path, k) && Tree(m, root)
    requires |path| < 3 ==> !IsTable(m, root, Address(Entry(m', Node(m, root, path).value, k)))
    ensures Tree(m', root)
  {
    forall p: Path, q: Path | |p| <= 3 && |q| <= 3 && Node(m', root, p).Some? && Node(m', root, p) == Node(m', root, q)
      ensures p == q
    {
      OneWalkChanged(m, m', root, path, k, p);
      OneWalkChanged(m, m', root, path, k, q);
    }
  }

  lemma WritableKept(m: seq<byte>, m': seq<byte>, root: nat, path: Path, k: nat)
    requires OneEntryChanged(m, m', root, path, k) && Writable(m, root)
    requires Bit(Entry(m', Node(m, root, path).value, k), READ_WRITE)
    ensures Writable(m', root)
  {
    forall p: Path, j: nat | |p| <= 3 && Node(m', root, p).Some? && Bit(Entry(m', Node(m', root, p).value, j), PRESENT)
      ensures Bit(Entry(m', Node(m', root, p).value, j), READ_WRITE)
    {
      OneWalkChanged(m, m', root, path, k, p);
      ZeroBit(PRESENT);
      if p == path + [k] {
        assert false;
      } else if p == path && j == k {
      } else {
        assert Entry(m', Node(m, root, p).value, j) == Entry(m, Node(m, root, p).value, j);
      }
    }
  }

  lemma PlainKept(m: seq<byte>, m': seq<byte>, root: nat, path: Path, k: nat)
    requires OneEntryChanged(m, m', root, path, k) && Plain(m, root)
    requires PlainEntry(Entry(m', Node(m, root, path).value, k))
    ensures Plain(m', root)
  {
    hide PlainEntry, Address;
    assert PlainEntry(0) by {
      ZeroIsPlain();
    }
    forall p: Path, j: nat | |p| <= 3 && Node(m', root, p).Some?
      ensures PlainEntry(Entry(m', Node(m', root, p).value, j))
    {
      OneWalkChanged(m, m', root, path, k, p);
      if p == path + [k] {
      } else if p == path && j == k {
      } else {
        assert Entry(m', Node(m, root, p).value, j) == Entry(m, Node(m, root, p).value, j);
      }
    }
  }

  lemma ZeroIsPlain()
    ensures PlainEntry(0)
  {
  }

  /** A memory that agrees on every table has the same walks. */
  lemma {:induction false} SameWalk(m: seq<byte>, m': seq<byte>, root: nat, q: Path)
    requires |q| <= 4
    requires forall p: Path, j: nat | |p| <= 3 && Node(m, root, p).Some? ::
               Entry(m', Node(m, root, p).value, j) == Entry(m, Node(m, root, p).value, j)
    ensures Node(m', root, q) == Node(m, root, q)
    decreases |q|
  {
    if q != [] {
      SameWalk(m, m', root, q[..|q| - 1]);
    }
  }

  // ----- virtual addresses

  /** The path of a virtual page number: four nine-bit indices. */
  function PathOf(page: nat): (p: Path)
    ensures |p| == 4 && forall k | k in p :: k < 512
  {
    var p1 := page / 512;
    var p2 := p1 / 512;
    var p3 := p2 / 512;
    [p3 % 512, p2 % 512, p1 % 512, page % 512]
  }

  lemma PathDigits(page: nat)
    ensures var p := PathOf(page);
            ((p[0] * 512 + p[1]) * 512 + p[2]) * 512 + p[3] == page % 0x10_0000_0000
  {
    LowDigit(page, 0x800_0000);
    LowDigit(page / 512, 0x4_0000);
    LowDigit(page / 512 / 512, 0x200);
  }

  lemma LowDigit(x: nat, n: nat)
    requires n > 0
    ensures x % (512 * n) == x / 512 % n * 512 + x % 512
  {
    var q, r := x / 512 / n, x / 512 % n;
    assert x / 512 == q * n + r;
    assert x == q * (512 * n) + (512 * r + x % 512);
    ModUnique(x, q, 512 * n, 512 * r + x % 512);
  }

  /** Two pages have the same path exactly when their addresses agree on bits 12 to 47. */
  lemma PathDecides(a: nat, b: nat)
    ensures PathOf(a) == PathOf(b) <==> a % 0x10_0000_0000 == b % 0x10_0000_0000
  {
    var p, q := PathOf(a), PathOf(b);
    PathDigits(a);
    PathDigits(b);
    if a % 0x10_0000_0000 == b % 0x10_0000_0000 {
      SameDigits(p[0], p[1], p[2], p[3], q[0], q[1], q[2], q[3]);
      assert p == [p[0], p[1], p[2], p[3]] == q;
    }
  }

  lemma SameDigits(a0: nat, a1: nat, a2: nat, a3: nat, b0: nat, b1: nat, b2: nat, b3: nat)
    requires a1 < 512 && a2 < 512 && a3 < 512 && b1 < 512 && b2 < 512 && b3 < 512
    requires ((a0 * 512 + a1) * 512 + a2) * 512 + a3 == ((b0 * 512 + b1) * 512 + b2) * 512 + b3
    ensures a0 == b0 && a1 == b1 && a2 == b2 && a3 == b3
  {
  }

  /** Where the MMU finds virtual address `v`. */
  function Walk(m: seq<byte>, root: nat, v: nat): Option<nat> {
    Node(m, root, PathOf(v / PAGE))
  }
}

/** gnu-efi/lib/dpath.c: walking, counting, appending, copying and unpacking device paths. A
    pointer is a position in the bytes it points into; NULL is None, or a null array where the
    memory comes from the pool. */
module DevicePathModel {
  import opened BitWords
  import opened Options
  import opened DevicePathNodes

  /** The number of nodes at which DevicePathInstance gives up on finding an end node. */
  const NODE_CAP: nat := 513

  // ----- what walking by instances yields

  /** Where DevicePathInstance stops: at the first end node, or at the cap. */
  function Cut(ns: seq<Node>): (c: nat)
    requires Path(ns)
    ensures c < |ns|
  {
    if FirstEnd(ns) < NODE_CAP then FirstEnd(ns) else NODE_CAP
  }

  /** The node it stops at ends the walk if its subtype says so; at the cap that may be any node. */
  predicate LastPiece(ns: seq<Node>)
    requires Path(ns)
  {
    ns[Cut(ns)].sub == END_ENTIRE
  }

  /** A walk that is not over goes on behind the node it stopped at. */
  lemma CutGoesOn(ns: seq<Node>)
    requires Path(ns) && !LastPiece(ns)
    ensures Cut(ns) < |ns| - 1 && Path(ns[Cut(ns) + 1..])
  {
    BehindEnd(ns, Cut(ns));
  }

  /** What calling DevicePathInstance again and again hands out. */
  function Pieces(ns: seq<Node>): (r: seq<seq<Node>>)
    requires Path(ns)
    ensures r != []
    decreases |ns|
  {
    [ns[..Cut(ns)]] + if LastPiece(ns) then [] else (CutGoesOn(ns); Pieces(ns[Cut(ns) + 1..]))
  }

  predicate WithinCap(ns: seq<Node>)
    requires Path(ns)
  {
    forall inst | inst in Instances(ns) :: |inst| <= NODE_CAP
  }

  /** The walk hands out the instances of the path exactly when none exceeds the cap. */
  lemma {:induction false} PiecesAreInstancesIff(ns: seq<Node>)
    requires Path(ns)
    ensures Pieces(ns) == Instances(ns) <==> WithinCap(ns)
  {
    if WithinCap(ns) {
      PiecesAreInstances(ns);
    } else if Pieces(ns) == Instances(ns) {
      PiecesShort(ns);
    }
  }

  lemma {:induction false} PiecesShort(ns: seq<Node>)
    requires Path(ns)
    ensures forall piece | piece in Pieces(ns) :: |piece| <= NODE_CAP
    decreases |ns|
  {
    if !LastPiece(ns) {
      CutGoesOn(ns);
      PiecesShort(ns[Cut(ns) + 1..]);
    }
  }

  lemma {:induction false} PiecesAreInstances(ns: seq<Node>)
    requires Path(ns) && WithinCap(ns)
    ensures Pieces(ns) == Instances(ns)
    decreases |ns|
  {
    hide Path, FirstEnd;
    var c := FirstEnd(ns);
    InstancesStep(ns, c);
    assert ns[..c] in Instances(ns);
    assert Cut(ns) == c;
    if c < |ns| - 1 {
      PiecesAreInstances(ns[c + 1..]);
    }
  }

  /** A path of `n` small nodes. */
  function Long(n: nat): seq<Node> {
    if n == 0 then [END_NODE] else [Node(1, 1, [])] + Long(n - 1)
  }

  lemma {:induction false} LongPath(n: nat)
    ensures Path(Long(n)) && FirstEnd(Long(n)) == n
  {
    if n > 0 {
      LongPath(n - 1);
      assert Long(n)[1..] == Long(n - 1);
    }
  }

  /** For example, a path of 514 nodes is not handed out as the one instance it is. */
  lemma CapCuts()
    ensures Path(Long(514)) && Pieces(Long(514)) != Instances(Long(514))
  {
    hide Path, FirstEnd, Instances, Ends, Pieces, Long;
    LongPath(514);
    InstancesStep(Long(514), 514);
    assert |Long(514)[..514]| == 514 && Long(514)[..514] in Instances(Long(514));
    PiecesAreInstancesIff(Long(514));
  }

  // ----- reading

  lemma EncodeUpTo(ns: seq<Node>, i: nat)
    requires i < |ns|
    ensures Encode(ns[..i + 1]) == Encode(ns[..i]) + ns[i].Bytes()
    ensures Encode(ns) == Encode(ns[..i]) + Encode(ns[i..])
  {
    hide Encode, Node.Bytes;
    assert ns[..i + 1] == ns[..i] + [ns[i]] && ns == ns[..i] + ns[i..];
    EncodeConcat(ns[..i], [ns[i]]);
    EncodeOne(ns[i]);
    EncodeConcat(ns[..i], ns[i..]);
  }

  /** A pointer that has passed `i` nodes: what it points to, and where the next node is. */
  lemma Pointer(b: seq<byte>, p: nat, ns: seq<Node>, i: nat)
    requires i < |ns| && Parse(b, p) == Some(ns[i..])
    ensures p + HEADER <= |b| && b[p] == ns[i].kind && b[p + 1] == ns[i].sub && LengthAt(b, p) == ns[i].Length()
    ensures At(b, p, ns[i].Bytes())
    ensures |Encode(ns[..i + 1])| == |Encode(ns[..i])| + ns[i].Length()
    ensures ns[i].IsEnd() <==> i == |ns| - 1
    ensures i < |ns| - 1 ==> Parse(b, p + ns[i].Length()) == Some(ns[i + 1..])
  {
    hide Parse, Encode, Path, Node.Bytes, At;
    ParseStep(b, p);
    EncodeUpTo(ns, i);
    NodeAtIff(b, p, ns[i]);
    assert i < |ns| - 1 ==> ns[i..][1..] == ns[i + 1..];
  }

  /** IsDevicePathEndType and IsDevicePathEnd, on memory. */
  predicate IsEndTypeAt(b: seq<byte>, p: nat)
    requires p < |b|
  {
    b[p] % 0x80 == END_DEVICE_PATH_TYPE
  }

  predicate IsEndAt(b: seq<byte>, p: nat)
    requires p + 1 < |b|
  {
    IsEndTypeAt(b, p) && b[p + 1] == END_ENTIRE
  }

  /** The loop `while (!IsDevicePathEnd(DevPath)) DevPath = NextDevicePathNode(DevPath)`. */
  method EndOf(b: seq<byte>, devPath: nat) returns (p: nat)
    requires Parse(b, devPath).Some?
    ensures var ns := Parse(b, devPath).value;
            ns != [] && p == devPath + |Encode(ns[..|ns| - 1])| && p + HEADER <= |b| && LengthAt(b, p) == HEADER
  {
    hide Parse, Path, At, Node.Bytes, Encode, LengthAt;
    ghost var ns, i := Parse(b, devPath).value, 0;
    Start(b, devPath);
    Pointer(b, devPath, ns, 0);
    p := devPath;
    while !IsEndAt(b, p)
      invariant i < |ns| && Parse(b, p) == Some(ns[i..]) && p == devPath + |Encode(ns[..i])|
      invariant p + HEADER <= |b|
      decreases |ns| - i
    {
      Pointer(b, p, ns, i);
      p := p + LengthAt(b, p);
      i := i + 1;
      Pointer(b, p, ns, i);
    }
    Pointer(b, p, ns, i);
    LastHeader(b, devPath);
  }

  method DevicePathSize(b: seq<byte>, devPath: nat) returns (size: nat)
    requires Parse(b, devPath).Some?
    ensures size == |Encode(Parse(b, devPath).value)|
  {
    hide Parse, Path, Encode;
    var p := EndOf(b, devPath);
    LastHeader(b, devPath);
    size := p - devPath + HEADER;
  }

  lemma Start(b: seq<byte>, p: nat)
    requires Parse(b, p).Some?
    ensures var ns := Parse(b, p).value; Path(ns) && ns != [] && ns[0..] == ns && Encode(ns[..0]) == []
  {
  }

  /** The end node of a path is its header. */
  lemma LastHeader(b: seq<byte>, p: nat)
    requires Parse(b, p).Some?
    ensures var ns := Parse(b, p).value;
            ns != [] && ns[|ns| - 1].Length() == HEADER && |Encode(ns)| == |Encode(ns[..|ns| - 1])| + HEADER
  {
    var ns := Parse(b, p).value;
    PathEnds(ns);
    assert ns[|ns| - 1] in ns;
    EncodeUpTo(ns, |ns| - 1);
    assert ns[|ns| - 1..] == [ns[|ns| - 1]];
    EncodeOne(ns[|ns| - 1]);
  }

  method DevicePathInstance(b: seq<byte>, devicePath: Option<nat>)
    returns (start: Option<nat>, next: Option<nat>, size: nat)
    requires devicePath.Some? ==> Parse(b, devicePath.value).Some?
    ensures start == devicePath
    ensures devicePath.None? ==> next.None?
    ensures devicePath.Some? ==>
              var ns := Parse(b, devicePath.value).value;
              && size == |Encode(ns[..Cut(ns)])| && At(b, devicePath.value, Encode(ns[..Cut(ns)]))
              && if LastPiece(ns) then next.None?
                 else next.Some? && Cut(ns) < |ns| - 1 && Parse(b, next.value) == Some(ns[Cut(ns) + 1..])
                      && next.value == devicePath.value + |Encode(ns[..Cut(ns) + 1])|
  {
    hide Parse, Path, At, Node.Bytes, Encode, LengthAt, FirstEnd;
    start, next, size := devicePath, None, 0;
    if devicePath.None? {
      return;
    }
    ghost var ns := Parse(b, devicePath.value).value;
    Start(b, devicePath.value);
    Pointer(b, devicePath.value, ns, 0);
    var p: nat, count := devicePath.value, 0;
    var after: nat := p;
    while true
      invariant count <= Cut(ns) && Parse(b, p) == Some(ns[count..])
      invariant p == devicePath.value + |Encode(ns[..count])|
      decreases |ns| - count
    {
      Pointer(b, p, ns, count);
      after := p + LengthAt(b, p);
      if IsEndTypeAt(b, p) {
        break;
      }
      if count > 0x200 {
        break;
      }
      p := after;
      count := count + 1;
    }
    assert count == Cut(ns);
    next := if b[p + 1] == END_ENTIRE then None else Some(after);
    size := p - devicePath.value;
    if !LastPiece(ns) {
      CutGoesOn(ns);
    }
    BytesOfFront(b, devicePath.value, count);
  }

  lemma BytesOfFront(b: seq<byte>, p: nat, i: nat)
    requires Parse(b, p).Some? && i < |Parse(b, p).value|
    ensures At(b, p, Encode(Parse(b, p).value[..i]))
  {
    EncodedParse(b, p);
    EncodeUpTo(Parse(b, p).value, i);
    AtConcat(b, p, Encode(Parse(b, p).value[..i]), Encode(Parse(b, p).value[i..]));
  }

  method DevicePathInstanceCount(b: seq<byte>, devicePath: Option<nat>) returns (count: nat)
    requires devicePath.Some? ==> Parse(b, devicePath.value).Some?
    ensures count == if devicePath.None? then 0 else |Pieces(Parse(b, devicePath.value).value)|
  {
    hide Parse, Path, At, Encode;
    var path := devicePath;
    count := 0;
    ghost var left: seq<Node> := if path.Some? then Parse(b, path.value).value else [];
    while true
      invariant path.Some? ==> Parse(b, path.value) == Some(left) && Path(left)
      invariant count + (if path.Some? then |Pieces(left)| else 0)
             == if devicePath.None? then 0 else |Pieces(Parse(b, devicePath.value).value)|
      decreases path.Some?, |left|
    {
      var start, next, _ := DevicePathInstance(b, path);
      if start.None? {
        break;
      }
      count := count + 1;
      if next.Some? {
        left := left[Cut(left) + 1..];
      }
      path := next;
    }
  }

  // ----- writing

  /** AllocatePool, which may fail. */
  method AllocatePool(size: nat, granted: bool) returns (pool: array?<byte>)
    ensures pool == null <==> !granted
    ensures pool != null ==> fresh(pool) && pool.Length == size
  {
    pool := null;
    if granted {
      pool := new byte[size];
    }
  }

  method CopyMem(dst: array<byte>, to: nat, src: seq<byte>)
    requires to + |src| <= dst.Length
    modifies dst
    ensures dst[..] == old(dst[..to]) + src + old(dst[to + |src|..])
  {
    forall k | 0 <= k < |src| {
      dst[to + k] := src[k];
    }
  }

  /** A buffer that holds a path holds nothing else, and is read as that path. */
  lemma HeldPath(b: seq<byte>, ns: seq<Node>, rest: seq<byte>)
    requires Path(ns) && b == Encode(ns) + rest
    ensures Parse(b, 0) == Some(ns)
  {
    assert b[0..|Encode(ns)|] == Encode(ns);
    ParseEncoded(b, 0, ns);
  }

  method DuplicateDevicePath(b: seq<byte>, devPath: nat, granted: bool) returns (copy: array?<byte>)
    requires Parse(b, devPath).Some?
    ensures copy == null <==> !granted
    ensures copy != null ==> fresh(copy) && copy[..] == Encode(Parse(b, devPath).value)
    ensures copy != null ==> Parse(copy[..], 0) == Parse(b, devPath)
  {
    hide Parse, Path, Encode;
    var size := DevicePathSize(b, devPath);
    EncodedParse(b, devPath);
    copy := AllocatePool(size, granted);
    if copy != null {
      CopyMem(copy, 0, b[devPath..devPath + size]);
      Start(b, devPath);
      HeldPath(copy[..], Parse(b, devPath).value, []);
    }
  }

  /** Src with a further instance. The source only asserts that memory is there. */
  method AppendDevicePathInstance(b1: seq<byte>, src: Option<nat>, b2: seq<byte>, instance: nat, granted: bool)
    returns (dst: array?<byte>)
    requires src.Some? ==> Parse(b1, src.value).Some? && granted
    requires Parse(b2, instance).Some?
    ensures dst == null <==> !granted
    ensures dst != null ==> fresh(dst)
    ensures dst != null && src.None? ==> Parse(dst[..], 0) == Parse(b2, instance)
    ensures dst != null && src.Some? ==>
              var a, b := Parse(b1, src.value).value, Parse(b2, instance).value;
              a != [] && dst[..] == Encode(Joined(a, b)) && Parse(dst[..], 0) == Some(Joined(a, b))
  {
    hide Parse, Path, Encode, At, Node.Bytes, LengthAt, Joined;
    if src.None? {
      dst := DuplicateDevicePath(b2, instance, granted);
      return;
    }
    ghost var na, nb := Parse(b1, src.value).value, Parse(b2, instance).value;
    var srcSize := DevicePathSize(b1, src.value);
    var instanceSize := DevicePathSize(b2, instance);
    Start(b1, src.value);
    Start(b2, instance);
    dst := AllocatePool(srcSize + instanceSize, granted);
    BytesOfPath(b1, src.value);
    CopyMem(dst, 0, b1[src.value..src.value + srcSize]);
    ghost var held := dst[..];
    assert held == Encode(na) + held[srcSize..];
    HeldPath(held, na, held[srcSize..]);
    var d := EndOf(dst[..], 0);
    dst[d + 1] := END_INSTANCE;
    assert dst[..] == held[d + 1 := END_INSTANCE];
    JoinedBytes(held, na, nb, d);
    SameLength(held, d, END_INSTANCE);
    BytesOfPath(b2, instance);
    CopyMem(dst, d + LengthAt(dst[..], d), b2[instance..instance + instanceSize]);
    assert dst[..] == Encode(Joined(na, nb));
    JoinedPath(na, nb);
    HeldPath(dst[..], Joined(na, nb), []);
  }

  lemma BytesOfPath(b: seq<byte>, p: nat)
    requires Parse(b, p).Some?
    ensures var t := Encode(Parse(b, p).value); p + |t| <= |b| && b[p..p + |t|] == t
  {
    EncodedParse(b, p);
  }

  lemma SameLength(b: seq<byte>, d: nat, sub: byte)
    requires d + HEADER <= |b|
    ensures LengthAt(b[d + 1 := sub], d) == LengthAt(b, d)
  {
  }

  /** Overwriting the subtype of the end node makes the bytes of the joined path's first part. */
  lemma JoinedBytes(held: seq<byte>, a: seq<Node>, b: seq<Node>, d: nat)
    requires Path(a) && a != [] && |held| >= |Encode(a)| && held[..|Encode(a)|] == Encode(a)
    requires d == |Encode(a[..|a| - 1])|
    ensures |Encode(a)| == d + HEADER
    ensures held[d + 1 := END_INSTANCE][..d + HEADER] + Encode(b) == Encode(Joined(a, b))
  {
    hide Path, Encode;
    var n := a[|a| - 1];
    PathEnds(a);
    assert n in a && n.body == [];
    EncodeUpTo(a, |a| - 1);
    assert a[..|a| - 1 + 1] == a;
    EncodeOne(n.(sub := END_INSTANCE));
    EncodeConcat(a[..|a| - 1], [n.(sub := END_INSTANCE)]);
    EncodeConcat(a[..|a| - 1] + [n.(sub := END_INSTANCE)], b);
    var front := Encode(a[..|a| - 1]);
    assert held[..d + HEADER] == front + n.Bytes();
    assert held[d + 1 := END_INSTANCE][..d + HEADER] == held[..d + HEADER][d + 1 := END_INSTANCE];
    assert n.(sub := END_INSTANCE).Bytes() == n.Bytes()[1 := END_INSTANCE];
    assert (front + n.Bytes())[d + 1 := END_INSTANCE] == front + n.Bytes()[1 := END_INSTANCE];
  }
}

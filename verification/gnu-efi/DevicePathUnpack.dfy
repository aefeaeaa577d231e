/** gnu-efi/lib/dpath.c: UnpackDevicePath, which copies a path with every node length rounded up
    to the alignment and every type marked as unpacked. */
module DevicePathUnpack {
  import opened BitWords
  import opened Options
  import opened DevicePathNodes
  import opened DevicePathModel

  /** efibind.h for x86_64. */
  const MIN_ALIGNMENT_SIZE: nat := 4
  const EFI_DP_TYPE_UNPACKED: byte := 0x80

  /** The macro ALIGN_SIZE: what is missing to the next multiple. */
  function AlignSize(a: nat): (n: nat)
    ensures (a + n) % MIN_ALIGNMENT_SIZE == 0 && n < MIN_ALIGNMENT_SIZE
    ensures a % MIN_ALIGNMENT_SIZE == 0 ==> n == 0
  {
    if a % MIN_ALIGNMENT_SIZE != 0 then MIN_ALIGNMENT_SIZE - a % MIN_ALIGNMENT_SIZE else 0
  }

  /** `kind | EFI_DP_TYPE_UNPACKED`. */
  function Marked(kind: byte): byte {
    if kind < 0x80 then kind + 0x80 else kind
  }

  function Zeros(n: nat): (z: seq<byte>)
    ensures |z| == n && forall i | 0 <= i < n :: z[i] == 0
  {
    seq(n, _ => 0 as byte)
  }

  function Unpacked(n: Node): Node {
    Node(Marked(n.kind), n.sub, n.body + Zeros(AlignSize(n.Length())))
  }

  function UnpackedAll(ns: seq<Node>): (r: seq<Node>)
    ensures |r| == |ns| && forall i | 0 <= i < |ns| :: r[i] == Unpacked(ns[i])
  {
    if ns == [] then [] else [Unpacked(ns[0])] + UnpackedAll(ns[1..])
  }

  /** What unpacking a node keeps and what it adds. */
  lemma UnpackedNode(n: Node)
    ensures var u := Unpacked(n);
            && u.Type() == n.Type() && u.sub == n.sub && u.kind >= 0x80
            && n.body <= u.body && (forall i | |n.body| <= i < |u.body| :: u.body[i] == 0)
            && u.Length() % 4 == 0 && n.Length() <= u.Length() < n.Length() + 4
            && (n.Ok() ==> (u.Ok() <==> u.Length() < 0x1_0000))
  {
  }

  lemma UnpackedNext(ns: seq<Node>, i: nat)
    requires i < |ns|
    ensures Encode(UnpackedAll(ns[..i + 1])) == Encode(UnpackedAll(ns[..i])) + Unpacked(ns[i]).Bytes()
    ensures |Encode(UnpackedAll(ns[..i]))| % MIN_ALIGNMENT_SIZE == 0
           ==> |Encode(UnpackedAll(ns[..i + 1]))| % MIN_ALIGNMENT_SIZE == 0
  {
    hide Encode, Node.Bytes;
    var done := UnpackedAll(ns[..i]);
    assert UnpackedAll(ns[..i + 1]) == done + [Unpacked(ns[i])];
    EncodeConcat(done, [Unpacked(ns[i])]);
    EncodeOne(Unpacked(ns[i]));
    UnpackedNode(ns[i]);
  }

  lemma AlignSum(size: nat, a: nat)
    requires size % MIN_ALIGNMENT_SIZE == 0
    ensures AlignSize(size + a) == AlignSize(a)
  {
  }

  lemma UnpackedLength(n: Node)
    ensures Unpacked(n).Length() == n.Length() + AlignSize(n.Length())
  {
  }

  lemma UnpackedPrefix(ns: seq<Node>, i: nat)
    requires i < |ns|
    ensures |Encode(UnpackedAll(ns[..i]))| + Unpacked(ns[i]).Length() <= |Encode(UnpackedAll(ns))|
  {
    hide Encode, Node.Bytes;
    var u := UnpackedAll(ns);
    assert u[..i] == UnpackedAll(ns[..i]);
    EncodeUpTo(u, i);
    if i + 1 < |u| {
      EncodeUpTo(u, i + 1);
    } else {
      assert u[..i + 1] == u;
    }
  }

  lemma NothingUnpacked(ns: seq<Node>)
    ensures Encode(UnpackedAll(ns[..0])) == []
  {
  }

  /** The first pass, which rounds the running total up instead of each length. */
  method UnpackedSize(b: seq<byte>, devPath: nat) returns (size: nat)
    requires Parse(b, devPath).Some?
    ensures size == |Encode(UnpackedAll(Parse(b, devPath).value))|
  {
    hide Parse, Path, At, Node.Bytes, Encode, LengthAt, UnpackedAll, Unpacked, AlignSize;
    ghost var ns, i := Parse(b, devPath).value, 0;
    Start(b, devPath);
    NothingUnpacked(ns);
    var src: nat := devPath;
    size := 0;
    while true
      invariant i < |ns| && Parse(b, src) == Some(ns[i..])
      invariant size == |Encode(UnpackedAll(ns[..i]))| && size % MIN_ALIGNMENT_SIZE == 0
      decreases |ns| - i
    {
      Pointer(b, src, ns, i);
      UnpackedNext(ns, i);
      UnpackedLength(ns[i]);
      AlignSum(size, LengthAt(b, src));
      size := size + LengthAt(b, src);
      size := size + AlignSize(size);
      if IsEndAt(b, src) {
        break;
      }
      src := src + LengthAt(b, src);
      i := i + 1;
    }
    assert ns[..i + 1] == ns;
  }

  /** A header at `d` with a new type and length. */
  function Stamped(s: seq<byte>, d: nat, kind: byte, low: byte, high: byte): (r: seq<byte>)
    requires d + HEADER <= |s|
    ensures |r| == |s| && r[d] == kind && r[d + 2] == low && r[d + 3] == high
    ensures forall k | 0 <= k < |s| && k != d && k != d + 2 && k != d + 3 :: r[k] == s[k]
  {
    s[..d] + [kind, s[d + 1], low, high] + s[d + HEADER..]
  }

  lemma StampedIs(s: seq<byte>, t: seq<byte>, d: nat, kind: byte, low: byte, high: byte)
    requires d + HEADER <= |s| == |t| && t[d] == kind && t[d + 2] == low && t[d + 3] == high
    requires forall k | 0 <= k < |s| && k != d && k != d + 2 && k != d + 3 :: t[k] == s[k]
    ensures t == Stamped(s, d, kind, low, high)
  {
  }

  /** The body of the second loop: one node, with the padding that is there already. */
  method UnpackNode(dst: array<byte>, ghost front: seq<byte>, dest: nat, b: seq<byte>, src: nat) returns (next: nat)
    requires NodeAt(b, src).Some? && dest + Unpacked(NodeAt(b, src).value).Length() <= dst.Length
    requires |front| == dest && dst[..] == front + Zeros(dst.Length - dest)
    modifies dst
    ensures next == dest + Unpacked(NodeAt(b, src).value).Length() <= dst.Length
    ensures dst[..] == front + Unpacked(NodeAt(b, src).value).Bytes() + Zeros(dst.Length - next)
  {
    hide NodeAt, Unpacked, Node.Bytes, AlignSize, Zeros, LengthAt, Marked, Node.Ok, Stamped;
    ghost var n := NodeAt(b, src).value;
    HeaderBytes(n, b, src);
    var size := LengthAt(b, src);
    ghost var pad := AlignSize(size);
    CopyMem(dst, dest, b[src..src + size]);
    ghost var copied := dst[..];
    AfterCopy(front, dst.Length - dest, n, b, src, copied);
    size := size + AlignSize(size);
    var low: byte, high: byte := size % 0x100, size / 0x100 % 0x100;
    dst[dest + 2], dst[dest + 3] := low, high;
    dst[dest] := Marked(dst[dest]);
    next := dest + size;
    StampedIs(copied, dst[..], dest, Marked(n.kind), low, high);
  }

  /** The bytes that UnpackNode leaves behind `front`, where there were `m` zeros. */
  lemma AfterCopy(front: seq<byte>, m: nat, n: Node, b: seq<byte>, p: nat, copied: seq<byte>)
    requires NodeAt(b, p) == Some(n) && Unpacked(n).Length() <= m && n.Length() <= m
    requires n.Length() == LengthAt(b, p)
    requires copied == (front + Zeros(m))[..|front|] + b[p..p + LengthAt(b, p)]
                       + (front + Zeros(m))[|front| + LengthAt(b, p)..]
    ensures var u := Unpacked(n); var d := |front|;
            && d + HEADER <= |copied| && b[p] == n.kind == copied[d]
            && Stamped(copied, d, u.kind, u.Length() % 0x100, u.Length() / 0x100 % 0x100)
               == front + u.Bytes() + Zeros(m - u.Length())
  {
    hide *;
    HeaderBytes(n, b, p);
    var u, len := Unpacked(n), n.Length();
    var pad, rest := Zeros(AlignSize(len)), Zeros(m - u.Length());
    ZerosAhead(len, AlignSize(len), m);
    CutZeros(front, Zeros(len), pad + rest);
    var header, body := [b[p], b[p + 1], b[p + 2], b[p + 3]], b[p + HEADER..p + len];
    FiveParts(front, header, body, pad, rest);
    StampedConcat(front, header, body + pad, rest, u.kind, u.Length() % 0x100, u.Length() / 0x100 % 0x100);
  }

  lemma ZerosAhead(a: nat, b: nat, m: nat)
    requires a + b <= m
    ensures Zeros(m) == Zeros(a) + (Zeros(b) + Zeros(m - (a + b))) && |Zeros(a)| == a
  {
  }

  lemma CutZeros(front: seq<byte>, a: seq<byte>, b: seq<byte>)
    ensures (front + (a + b))[..|front|] == front && (front + (a + b))[|front| + |a|..] == b
  {
  }

  lemma FiveParts(a: seq<byte>, b: seq<byte>, c: seq<byte>, d: seq<byte>, e: seq<byte>)
    ensures a + (b + c) + (d + e) == a + b + (c + d) + e
    ensures |b| > 0 ==> (a + b + (c + d) + e)[|a|] == b[0]
  {
  }

  lemma StampedConcat(front: seq<byte>, header: seq<byte>, middle: seq<byte>, rest: seq<byte>,
                      kind: byte, low: byte, high: byte)
    requires |header| == HEADER
    ensures var d, s := |front|, front + header + middle + rest;
            var t := Stamped(s, d, kind, low, high);
            t == front + ([kind, header[1], low, high] + middle) + rest
  {
    var d, s := |front|, front + header + middle + rest;
    assert s[..d] == front && s[d + 1] == header[1] && s[d + HEADER..] == middle + rest;
  }

  lemma HeaderBytes(n: Node, b: seq<byte>, p: nat)
    requires NodeAt(b, p) == Some(n)
    ensures var u, len := Unpacked(n), n.Length();
            && u.Length() == len + AlignSize(len) && HEADER <= len && p + len <= |b|
            && b[p + 1] == u.sub && u.kind == Marked(n.kind)
            && u.Bytes() == [u.kind, u.sub, u.Length() % 0x100, u.Length() / 0x100 % 0x100]
                            + (b[p + HEADER..p + len] + Zeros(AlignSize(len)))
            && LengthAt(b, p) == len && b[p] == n.kind
            && b[p..p + len] == [b[p], b[p + 1], b[p + 2], b[p + 3]] + b[p + HEADER..p + len]
  {
  }

  method UnpackDevicePath(b: seq<byte>, devPath: nat, granted: bool) returns (newPath: array?<byte>)
    requires Parse(b, devPath).Some?
    ensures newPath == null <==> !granted
    ensures newPath != null ==> fresh(newPath) && newPath[..] == Encode(UnpackedAll(Parse(b, devPath).value))
  {
    hide Parse, Path, At, Node.Bytes, Encode, LengthAt, UnpackedAll, Unpacked, AlignSize, NodeAt;
    ghost var ns, i := Parse(b, devPath).value, 0;
    Start(b, devPath);
    NothingUnpacked(ns);
    var size := UnpackedSize(b, devPath);
    newPath := AllocatePool(size, granted);
    if newPath != null {
      forall k | 0 <= k < newPath.Length {
        newPath[k] := 0;
      }
      assert newPath[..] == [] + Zeros(size);
      var src: nat, dest: nat := devPath, 0;
      while true
        invariant i < |ns| && Parse(b, src) == Some(ns[i..])
        invariant dest == |Encode(UnpackedAll(ns[..i]))| <= newPath.Length
        invariant newPath[..] == Encode(UnpackedAll(ns[..i])) + Zeros(newPath.Length - dest)
        decreases |ns| - i
      {
        Pointer(b, src, ns, i);
        UnpackedNext(ns, i);
        UnpackedPrefix(ns, i);
        NodeHere(b, src, ns, i);
        dest := UnpackNode(newPath, Encode(UnpackedAll(ns[..i])), dest, b, src);
        if IsEndAt(b, src) {
          break;
        }
        src := src + LengthAt(b, src);
        i := i + 1;
      }
      assert ns[..i + 1] == ns;
    }
  }

  lemma NodeHere(b: seq<byte>, p: nat, ns: seq<Node>, i: nat)
    requires i < |ns| && Parse(b, p) == Some(ns[i..])
    ensures NodeAt(b, p) == Some(ns[i])
    ensures |Unpacked(ns[i]).Bytes()| == Unpacked(ns[i]).Length()
  {
    ParseStep(b, p);
  }

  // ----- what the unpacked bytes read as

  predicate LengthsFit(ns: seq<Node>) {
    forall n | n in ns :: n.Length() + AlignSize(n.Length()) < 0x1_0000
  }

  lemma {:induction false} UnpackedPath(ns: seq<Node>)
    requires Path(ns) && LengthsFit(ns)
    ensures Path(UnpackedAll(ns))
  {
    UnpackedNode(ns[0]);
    assert ns[0] in ns;
    var u := UnpackedAll(ns);
    assert u == [Unpacked(ns[0])] + UnpackedAll(ns[1..]) && u[1..] == UnpackedAll(ns[1..]);
    if !ns[0].IsEnd() {
      UnpackedPath(ns[1..]);
    }
  }

  /** The result reads as the unpacked path exactly when every rounded length fits 16 bits. */
  lemma UnpackReadsBackIff(ns: seq<Node>)
    requires Path(ns)
    ensures Parse(Encode(UnpackedAll(ns)), 0) == Some(UnpackedAll(ns)) <==> LengthsFit(ns)
  {
    hide Encode;
    var u := UnpackedAll(ns);
    if LengthsFit(ns) {
      UnpackedPath(ns);
      assert Encode(u) == Encode(u) + [];
      HeldPath(Encode(u), u, []);
    } else {
      var n :| n in ns && n.Length() + AlignSize(n.Length()) >= 0x1_0000;
      var i :| 0 <= i < |ns| && ns[i] == n;
      UnpackedLength(n);
      assert u[i] in u && !u[i].Ok();
      if Path(u) {
        PathEnds(u);
      }
    }
  }

  /** Unpacking keeps the instances: they are those of the path, each unpacked. */
  lemma {:induction false} UnpackKeepsInstances(ns: seq<Node>)
    requires Path(ns) && LengthsFit(ns)
    ensures Path(UnpackedAll(ns)) && |Instances(UnpackedAll(ns))| == |Instances(ns)|
    ensures forall i | 0 <= i < |Instances(ns)| :: Instances(UnpackedAll(ns))[i] == UnpackedAll(Instances(ns)[i])
    decreases |ns|
  {
    hide Path, FirstEnd, Instances, Ends, Node.IsEnd, NoEnds, Unpacked;
    UnpackedPath(ns);
    var u, c := UnpackedAll(ns), FirstEnd(ns);
    InstancesStep(ns, c);
    UnpackedFirstEnd(ns);
    InstancesStep(u, c);
    assert u[..c] == UnpackedAll(ns[..c]);
    if c < |ns| - 1 {
      assert LengthsFit(ns[c + 1..]);
      assert u[c + 1..] == UnpackedAll(ns[c + 1..]);
      UnpackKeepsInstances(ns[c + 1..]);
    }
  }

  lemma UnpackedFirstEnd(ns: seq<Node>)
    requires Path(ns) && Path(UnpackedAll(ns))
    ensures FirstEnd(UnpackedAll(ns)) == FirstEnd(ns)
  {
    hide Path, FirstEnd;
    var u, c := UnpackedAll(ns), FirstEnd(ns);
    forall n | n in u[..c]
      ensures !n.IsEndType()
    {
      var i :| 0 <= i < c && u[..c][i] == n;
      assert n == Unpacked(ns[i]) && !ns[i].IsEndType();
      UnpackedNode(ns[i]);
    }
    FirstEndBound(ns);
    UnpackedNode(ns[c]);
    FirstEndIs(u, c);
  }

  lemma FirstEndBound(ns: seq<Node>)
    requires Path(ns)
    ensures var c := FirstEnd(ns);
            c < |ns| && ns[c].IsEndType() && forall i | 0 <= i < c :: !ns[i].IsEndType()
  {
  }

  /** For example, after a node of 65533 bytes the result is unreadable. */
  lemma UnpackFails()
    ensures var ns := [Node(1, 1, Zeros(65529)), END_NODE];
            Path(ns) && Parse(Encode(UnpackedAll(ns)), 0) != Some(UnpackedAll(ns))
  {
    var ns := [Node(1, 1, Zeros(65529)), END_NODE];
    assert ns[1..] == [END_NODE];
    assert ns[0] in ns && ns[0].Length() + AlignSize(ns[0].Length()) == 0x1_0000;
    hide Encode, Parse, UnpackedAll, Zeros;
    UnpackReadsBackIff(ns);
  }
}

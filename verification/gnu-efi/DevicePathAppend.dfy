/** gnu-efi/lib/dpath.c: AppendDevicePath and AppendDevicePathNode. The comment in the source
    promises that Src2 is appended to each instance of Src1; the copies it makes are complete, but
    the end node of the first copy of Src2 ends the result. */
module DevicePathAppend {
  import opened BitWords
  import opened Options
  import opened DevicePathNodes
  import opened DevicePathModel

  /** What the loop has written after some pieces of Src1. */
  function Woven(pieces: seq<seq<Node>>, nb: seq<Node>): seq<byte> {
    if pieces == [] then []
    else
      var k := |pieces| - 1;
      Woven(pieces[..k], nb) + Encode(pieces[k]) + Encode(nb) + END_INSTANCE_NODE.Bytes()
  }

  /** The finished buffer: the last end marker has become an end-entire node. */
  function Written(pieces: seq<seq<Node>>, nb: seq<Node>): seq<byte>
    requires pieces != []
  {
    var k := |pieces| - 1;
    Woven(pieces[..k], nb) + Encode(pieces[k]) + Encode(nb) + END_NODE.Bytes()
  }

  /** The size AppendDevicePath allocates. */
  function Allocated(na: seq<Node>, nb: seq<Node>): nat
    requires Path(na)
  {
    |Encode(na)| * |Pieces(na)| + |Encode(nb)|
  }

  lemma WovenNext(pieces: seq<seq<Node>>, piece: seq<Node>, nb: seq<Node>)
    ensures Woven(pieces + [piece], nb) == Woven(pieces, nb) + Encode(piece) + Encode(nb) + END_INSTANCE_NODE.Bytes()
    ensures Written(pieces + [piece], nb) == Woven(pieces, nb) + Encode(piece) + Encode(nb) + END_NODE.Bytes()
  {
    assert (pieces + [piece])[..|pieces|] == pieces;
  }

  lemma {:induction false} WovenLonger(a: seq<seq<Node>>, b: seq<seq<Node>>, nb: seq<Node>)
    ensures |Woven(a + b, nb)| >= |Woven(a, nb)| + HEADER * |b|
    decreases |b|
  {
    if b == [] {
      assert a + b == a;
    } else {
      var k := |b| - 1;
      WovenLonger(a, b[..k], nb);
      WovenNext(a + b[..k], b[k], nb);
      assert a + b == a + b[..k] + [b[k]];
    }
  }

  lemma WrittenLength(pieces: seq<seq<Node>>, nb: seq<Node>)
    requires pieces != []
    ensures |Written(pieces, nb)| == |Woven(pieces, nb)|
  {
  }

  /** Copies `src` to DstPos and moves DstPos behind it. */
  method Put(dst: array<byte>, dstPos: nat, src: seq<byte>) returns (pos: nat)
    requires dstPos + |src| <= dst.Length
    modifies dst
    ensures pos == dstPos + |src| && dst[..pos] == old(dst[..dstPos]) + src
  {
    CopyMem(dst, dstPos, src);
    pos := dstPos + |src|;
    assert dst[..pos] == dst[..][..pos];
  }

  /** One pass of the loop: an instance, a copy of Src2 and an end marker. */
  method CopyOne(dst: array<byte>, dstPos: nat, inst: seq<byte>, src2: seq<byte>) returns (pos: nat)
    requires dstPos + |inst| + |src2| + HEADER <= dst.Length
    modifies dst
    ensures pos == dstPos + |inst| + |src2| + HEADER
    ensures dst[..pos] == old(dst[..dstPos]) + inst + src2 + END_INSTANCE_NODE.Bytes()
  {
    hide Node.Bytes;
    pos := Put(dst, dstPos, inst);
    pos := Put(dst, pos, src2);
    pos := Put(dst, pos, END_INSTANCE_NODE.Bytes());
  }

  /** The loop of AppendDevicePath. */
  method CopyInstances(dst: array<byte>, b1: seq<byte>, src1: nat, src2: seq<byte>, ghost nb: seq<Node>)
    returns (dstPos: nat)
    requires Parse(b1, src1).Some? && src2 == Encode(nb)
    requires |Woven(Pieces(Parse(b1, src1).value), nb)| <= dst.Length
    modifies dst
    ensures dstPos <= dst.Length && dst[..dstPos] == Woven(Pieces(Parse(b1, src1).value), nb)
  {
    hide Parse, Path, Encode, At, Woven, Node.Bytes, Pieces, Cut, LastPiece;
    ghost var pieces := Pieces(Parse(b1, src1).value);
    ghost var done, left := [], Parse(b1, src1).value;
    Start(b1, src1);
    WovenNothing(nb);
    dstPos := 0;
    var path := Some(src1);
    while true
      invariant path.Some? ==> Parse(b1, path.value) == Some(left) && Path(left) && pieces == done + Pieces(left)
      invariant path.None? ==> pieces == done
      invariant dstPos == |Woven(done, nb)| <= dst.Length && dst[..dstPos] == Woven(done, nb)
      decreases path.Some?, |left|
    {
      var start, next, size := DevicePathInstance(b1, path);
      if start.None? {
        break;
      }
      ghost var piece := left[..Cut(left)];
      ghost var done' := done + [piece];
      HandedOut(pieces, done, left);
      WovenNext(done, piece, nb);
      MorePieces(pieces, done', nb);
      BytesAt(b1, start.value, Encode(piece));
      dstPos := CopyOne(dst, dstPos, b1[start.value..start.value + size], src2);
      done := done';
      if next.Some? {
        left := left[Cut(left) + 1..];
      }
      path := next;
    }
  }

  /** One call of DevicePathInstance moves a piece from what is left to what is done. */
  lemma HandedOut(pieces: seq<seq<Node>>, done: seq<seq<Node>>, left: seq<Node>)
    requires Path(left) && pieces == done + Pieces(left)
    ensures var done' := done + [left[..Cut(left)]];
            && done' <= pieces && (LastPiece(left) ==> pieces == done')
            && (!LastPiece(left) ==> Cut(left) < |left| - 1 && Path(left[Cut(left) + 1..])
                                     && pieces == done' + Pieces(left[Cut(left) + 1..]))
  {
    hide Path, Pieces, Cut, LastPiece;
    PiecesStep(left);
    if LastPiece(left) {
      MoveOne(done, left[..Cut(left)], []);
    } else {
      MoveOne(done, left[..Cut(left)], Pieces(left[Cut(left) + 1..]));
    }
  }

  lemma MoveOne<T>(done: seq<T>, x: T, rest: seq<T>)
    ensures done + [x] <= done + ([x] + rest) == done + [x] + rest
    ensures rest == [] ==> done + [x] == done + [x] + rest && [x] + rest == [x]
  {
  }

  /** The loop, and then the last end marker is overwritten. */
  method CopyAndTerminate(dst: array<byte>, b1: seq<byte>, src1: nat, src2: seq<byte>, ghost nb: seq<Node>)
    returns (dstPos: nat)
    requires Parse(b1, src1).Some? && src2 == Encode(nb)
    requires |Written(Pieces(Parse(b1, src1).value), nb)| <= dst.Length
    modifies dst
    ensures var bytes := Written(Pieces(Parse(b1, src1).value), nb);
            dstPos + HEADER == |bytes| && dst[..dstPos + HEADER] == bytes
  {
    hide Parse, Path, Encode, Woven, Written, Node.Bytes, FrontOf, Pieces;
    ghost var pieces := Pieces(Parse(b1, src1).value);
    Start(b1, src1);
    PiecesStep(Parse(b1, src1).value);
    LastMarker(pieces, nb);
    ghost var front := FrontOf(pieces, nb);
    dstPos := CopyInstances(dst, b1, src1, src2, nb);
    assert dst[..|front|] == dst[..dstPos][..|front|] == front;
    dstPos := dstPos - HEADER;
    var _ := Put(dst, dstPos, END_NODE.Bytes());
  }

  lemma MorePieces(pieces: seq<seq<Node>>, done: seq<seq<Node>>, nb: seq<Node>)
    requires done <= pieces
    ensures |Woven(done, nb)| <= |Woven(pieces, nb)|
  {
    hide Woven;
    WovenLonger(done, pieces[|done|..], nb);
    assert pieces == done + pieces[|done|..];
  }

  /** Everything in front of the last end marker. */
  function FrontOf(pieces: seq<seq<Node>>, nb: seq<Node>): seq<byte>
    requires pieces != []
  {
    var k := |pieces| - 1;
    Woven(pieces[..k], nb) + Encode(pieces[k]) + Encode(nb)
  }

  lemma LastMarker(pieces: seq<seq<Node>>, nb: seq<Node>)
    requires pieces != []
    ensures Woven(pieces, nb) == FrontOf(pieces, nb) + END_INSTANCE_NODE.Bytes()
    ensures Written(pieces, nb) == FrontOf(pieces, nb) + END_NODE.Bytes()
    ensures |END_INSTANCE_NODE.Bytes()| == |END_NODE.Bytes()| == HEADER
  {
  }

  lemma WovenNothing(nb: seq<Node>)
    ensures Woven([], nb) == []
  {
  }

  lemma PiecesStep(ns: seq<Node>)
    requires Path(ns)
    ensures LastPiece(ns) ==> Pieces(ns) == [ns[..Cut(ns)]]
    ensures !LastPiece(ns) ==> Cut(ns) < |ns| - 1 && Path(ns[Cut(ns) + 1..])
                               && Pieces(ns) == [ns[..Cut(ns)]] + Pieces(ns[Cut(ns) + 1..])
  {
    if !LastPiece(ns) {
      CutGoesOn(ns);
    }
  }

  lemma BytesAt(b: seq<byte>, p: nat, t: seq<byte>)
    requires At(b, p, t)
    ensures p + |t| <= |b| && b[p..p + |t|] == t
  {
  }

  // ----- what the bytes read as

  lemma {:induction false} WovenFront(pieces: seq<seq<Node>>, nb: seq<Node>)
    requires pieces != []
    ensures Encode(pieces[0]) + Encode(nb) <= Woven(pieces, nb)
  {
    hide Node.Bytes, Encode, Woven;
    var k := |pieces| - 1;
    WovenNext(pieces[..k], pieces[k], nb);
    assert pieces == pieces[..k] + [pieces[k]];
    if k == 0 {
      WovenNothing(nb);
    } else {
      WovenFront(pieces[..k], nb);
    }
  }

  lemma WrittenFront(pieces: seq<seq<Node>>, nb: seq<Node>)
    requires pieces != []
    ensures Encode(pieces[0] + nb) <= Written(pieces, nb)
  {
    hide Encode, Node.Bytes, Woven, Written;
    EncodeConcat(pieces[0], nb);
    var k := |pieces| - 1;
    WovenNext(pieces[..k], pieces[k], nb);
    assert pieces == pieces[..k] + [pieces[k]];
    if k == 0 {
      WovenNothing(nb);
    } else {
      WovenFront(pieces[..k], nb);
    }
  }

  lemma PathBehind(a: seq<Node>, nb: seq<Node>)
    requires Path(nb) && forall n | n in a :: n.Ok() && !n.IsEnd()
    ensures Path(a + nb)
  {
    PathEnds(nb);
    var j := a + nb;
    forall i | 0 <= i < |j|
      ensures j[i].Ok() && (j[i].IsEnd() <==> i == |j| - 1)
    {
      assert if i < |a| then j[i] == a[i] && a[i] in a else j[i] == nb[i - |a|] && nb[i - |a|] in nb;
    }
    PathFromEnd(j);
  }

  lemma FirstPiece(na: seq<Node>, nb: seq<Node>)
    requires Path(na) && Path(nb)
    ensures Pieces(na)[0] == na[..Cut(na)] && Path(na[..Cut(na)] + nb)
  {
    PathEnds(na);
    var a := na[..Cut(na)];
    forall n | n in a
      ensures n.Ok() && !n.IsEnd()
    {
      var i :| 0 <= i < |a| && a[i] == n;
      assert n == na[i] && !na[i].IsEndType();
      assert na[i] in na;
    }
    PathBehind(a, nb);
  }

  /** The result reads as Src2 behind the first instance of Src1, however many there are. */
  lemma AppendReads(b: seq<byte>, na: seq<Node>, nb: seq<Node>)
    requires Path(na) && Path(nb) && Written(Pieces(na), nb) <= b
    ensures Path(Pieces(na)[0] + nb) && Parse(b, 0) == Some(Pieces(na)[0] + nb)
  {
    hide Encode, Written, Parse, Path, Pieces;
    PiecesStep(na);
    FirstPiece(na, nb);
    WrittenFront(Pieces(na), nb);
    var t := Encode(Pieces(na)[0] + nb);
    assert b == t + b[|t|..];
    HeldPath(b, Pieces(na)[0] + nb, b[|t|..]);
  }

  method AppendDevicePath(b1: seq<byte>, src1: Option<nat>, b2: seq<byte>, src2: Option<nat>, granted: bool)
    returns (dst: array?<byte>)
    requires src1.Some? || src2.Some?
    requires src1.Some? ==> Parse(b1, src1.value).Some?
    requires src2.Some? ==> Parse(b2, src2.value).Some?
    requires src1.Some? && src2.Some? ==>
               var na, nb := Parse(b1, src1.value).value, Parse(b2, src2.value).value;
               |Written(Pieces(na), nb)| <= Allocated(na, nb)
    ensures dst == null <==> !granted
    ensures dst != null ==> fresh(dst)
    ensures dst != null && src1.None? ==> Parse(dst[..], 0) == Parse(b2, src2.value)
    ensures dst != null && src2.None? ==> Parse(dst[..], 0) == Parse(b1, src1.value)
    ensures dst != null && src1.Some? && src2.Some? ==>
              var na, nb := Parse(b1, src1.value).value, Parse(b2, src2.value).value;
              dst.Length == Allocated(na, nb) && Written(Pieces(na), nb) <= dst[..]
              && Parse(dst[..], 0) == Some(Pieces(na)[0] + nb)
  {
    hide Parse, Path, Encode, Written, Pieces;
    if src1.None? {
      dst := DuplicateDevicePath(b2, src2.value, granted);
      return;
    }
    if src2.None? {
      dst := DuplicateDevicePath(b1, src1.value, granted);
      return;
    }
    ghost var na, nb := Parse(b1, src1.value).value, Parse(b2, src2.value).value;
    Start(b1, src1.value);
    Start(b2, src2.value);
    PiecesStep(na);
    var src1Size := DevicePathSize(b1, src1.value);
    var src1Inst := DevicePathInstanceCount(b1, src1);
    var src2Size := DevicePathSize(b2, src2.value);
    dst := AllocatePool(src1Size * src1Inst + src2Size, granted);
    if dst != null {
      BytesOfPath(b2, src2.value);
      var dstPos := CopyAndTerminate(dst, b1, src1.value, b2[src2.value..src2.value + src2Size], nb);
      assert Written(Pieces(na), nb) <= dst[..] by {
        assert dst[..][..dstPos + HEADER] == dst[..dstPos + HEADER];
      }
      AppendReads(dst[..], na, nb);
    }
  }

  /** What a node reads as when an end node is put behind it: an end-entire node ends the path itself. */
  function Terminated(n: Node): seq<Node> {
    if n.IsEnd() then [n] else [n, END_NODE]
  }

  /** A node, which should have no terminator, is given one and appended. */
  method AppendDevicePathNode(b1: seq<byte>, src1: Option<nat>, b2: seq<byte>, src2: nat, granted: bool, granted': bool)
    returns (dst: array?<byte>)
    requires src1.Some? ==> Parse(b1, src1.value).Some?
    requires NodeAt(b2, src2).Some?
    requires src1.Some? ==>
               var na := Parse(b1, src1.value).value;
               var nb := Terminated(NodeAt(b2, src2).value);
               |Written(Pieces(na), nb)| <= Allocated(na, nb)
    ensures dst == null <==> !(granted && granted')
    ensures dst != null ==> fresh(dst)
    ensures dst != null ==>
              Parse(dst[..], 0) == Some((if src1.Some? then Pieces(Parse(b1, src1.value).value)[0] else [])
                                        + Terminated(NodeAt(b2, src2).value))
  {
    hide Parse, Path, Encode, Written, Pieces, Node.Bytes, NodeAt, Terminated;
    ghost var n := NodeAt(b2, src2).value;
    BytesOfNode(b2, src2);
    var length := LengthAt(b2, src2);
    var temp := AllocatePool(length + HEADER, granted);
    if temp == null {
      dst := null;
      return;
    }
    var pos := Put(temp, 0, b2[src2..src2 + length]);
    pos := Put(temp, pos, END_NODE.Bytes());
    assert temp[..] == temp[..pos] == n.Bytes() + END_NODE.Bytes();
    TerminatedNode(temp[..], n);
    dst := AppendDevicePath(b1, src1, temp[..], Some(0), granted');
    assert [] + Terminated(n) == Terminated(n);
  }

  lemma BytesOfNode(b: seq<byte>, p: nat)
    requires NodeAt(b, p).Some?
    ensures var n := NodeAt(b, p).value;
            && n.Ok() && p + n.Length() <= |b| && LengthAt(b, p) == n.Length() && p + HEADER <= |b|
            && b[p..p + n.Length()] == n.Bytes() && |END_NODE.Bytes()| == HEADER
  {
    NodeAtIff(b, p, NodeAt(b, p).value);
  }

  lemma TerminatedNode(b: seq<byte>, n: Node)
    requires n.Ok() && b == n.Bytes() + END_NODE.Bytes()
    ensures Path(Terminated(n)) && Parse(b, 0) == Some(Terminated(n))
  {
    hide Node.Bytes;
    EncodeOne(n);
    EncodeOne(END_NODE);
    if n.IsEnd() {
      assert Path([n]);
      HeldPath(b, [n], END_NODE.Bytes());
    } else {
      var ns := [n, END_NODE];
      assert ns[1..] == [END_NODE];
      assert Path([END_NODE]);
      assert Encode(ns) == n.Bytes() + END_NODE.Bytes();
      HeldPath(b, ns, []);
    }
  }

  // ----- what the comment promises, and when it holds

  /** Src2 appended to each instance of Src1. */
  function Promised(instances: seq<seq<Node>>, nb: seq<Node>): (r: seq<Node>)
    requires instances != [] && nb != []
    ensures |r| >= |instances[0]| + |nb| && (|instances| > 1 ==> |r| > |instances[0]| + |nb|)
  {
    if |instances| == 1 then instances[0] + nb
    else instances[0] + nb[..|nb| - 1] + [END_INSTANCE_NODE] + Promised(instances[1..], nb)
  }

  /** The result is what is promised exactly when Src1 is a single instance that is handed out
      whole. */
  lemma AppendKeepsPromiseIff(na: seq<Node>, nb: seq<Node>)
    requires Path(na) && Path(nb)
    ensures Pieces(na)[0] + nb == Promised(Instances(na), nb)
       <==> |Instances(na)| == 1 && |Instances(na)[0]| <= NODE_CAP
  {
    hide Path, FirstEnd;
    PathNotEmpty(nb);
    InstancesStep(na, FirstEnd(na));
    assert Pieces(na)[0] == na[..Cut(na)] && Instances(na)[0] == na[..FirstEnd(na)];
  }

  function TotalSize(pieces: seq<seq<Node>>): nat {
    if pieces == [] then 0 else TotalSize(pieces[..|pieces| - 1]) + |Encode(pieces[|pieces| - 1])|
  }

  lemma {:induction false} TotalFront(piece: seq<Node>, pieces: seq<seq<Node>>)
    ensures TotalSize([piece] + pieces) == |Encode(piece)| + TotalSize(pieces)
  {
    hide Encode;
    if pieces == [] {
      assert [piece] + [] == [piece] && [piece][..0] == [];
    } else {
      var k := |pieces| - 1;
      TotalFront(piece, pieces[..k]);
      assert ([piece] + pieces)[..k + 1] == [piece] + pieces[..k];
    }
  }

  /** The instances and an end node for each make up the size of a path. */
  lemma {:induction false} InstancesSize(ns: seq<Node>)
    requires Path(ns)
    ensures TotalSize(Instances(ns)) + HEADER * |Instances(ns)| == |Encode(ns)|
    decreases |ns|
  {
    hide Path, FirstEnd, Instances, Ends, Encode, TotalSize, Node.Bytes;
    var c := FirstEnd(ns);
    InstancesStep(ns, c);
    PathEnds(ns);
    assert ns[c] in ns && ns[c].Length() == HEADER;
    EncodeUpTo(ns, c);
    if c == |ns| - 1 {
      TotalFront(ns[..c], []);
      TotalNothing();
      assert ns[..c + 1] == ns && Instances(ns) == [ns[..c]] + [];
    } else {
      InstancesSize(ns[c + 1..]);
      TotalFront(ns[..c], Instances(ns[c + 1..]));
      EncodeUpTo(ns, c + 1);
    }
  }

  lemma TotalNothing()
    ensures TotalSize([]) == 0
  {
  }

  lemma {:induction false} WovenLength(pieces: seq<seq<Node>>, nb: seq<Node>)
    ensures |Woven(pieces, nb)| == TotalSize(pieces) + |pieces| * (|Encode(nb)| + HEADER)
  {
    hide Encode, Node.Bytes;
    if pieces != [] {
      var k := |pieces| - 1;
      WovenLength(pieces[..k], nb);
      WovenNext(pieces[..k], pieces[k], nb);
      assert pieces == pieces[..k] + [pieces[k]];
      EndMarkerLength();
      OneMore(k, |Encode(nb)| + HEADER);
    }
  }

  lemma EndMarkerLength()
    ensures |END_INSTANCE_NODE.Bytes()| == |END_NODE.Bytes()| == HEADER
  {
  }

  lemma OneMore(k: nat, n: nat)
    ensures (k + 1) * n == k * n + n
  {
  }

  /** Bytes of Src1 that are neither handed out nor the header of a node that ends a piece: there
      are some only if an instance exceeds the cap. */
  function Skipped(ns: seq<Node>): nat
    requires Path(ns)
    decreases |ns|
  {
    if LastPiece(ns) then |ns[Cut(ns)].body| + |Encode(ns[Cut(ns) + 1..])|
    else (CutGoesOn(ns); |ns[Cut(ns)].body| + Skipped(ns[Cut(ns) + 1..]))
  }

  lemma CutSize(ns: seq<Node>, c: nat)
    requires c < |ns|
    ensures |Encode(ns)| == |Encode(ns[..c])| + HEADER + |ns[c].body| + |Encode(ns[c + 1..])|
  {
    hide Encode, Node.Bytes;
    EncodeUpTo(ns, c);
    assert ns[c..] == [ns[c]] + ns[c + 1..];
    EncodeFront(ns[c], ns[c + 1..]);
  }

  /** The pieces, a header for each and what was skipped make up the size of a path. */
  lemma {:induction false} PiecesSize(ns: seq<Node>)
    requires Path(ns)
    ensures TotalSize(Pieces(ns)) + HEADER * |Pieces(ns)| + Skipped(ns) == |Encode(ns)|
    decreases |ns|
  {
    hide Path, Cut, LastPiece, Pieces, Encode, TotalSize;
    PiecesStep(ns);
    CutSize(ns, Cut(ns));
    TotalNothing();
    if LastPiece(ns) {
      TotalFront(ns[..Cut(ns)], []);
      assert [ns[..Cut(ns)]] + [] == [ns[..Cut(ns)]];
    } else {
      PiecesSize(ns[Cut(ns) + 1..]);
      TotalFront(ns[..Cut(ns)], Pieces(ns[Cut(ns) + 1..]));
    }
  }

  /** The copies fit the memory that is allocated for them exactly when the copies of Src2 behind
      the first are not larger than as many copies of Src1 and what was skipped. */
  lemma AppendFitsIff(na: seq<Node>, nb: seq<Node>)
    requires Path(na) && Path(nb)
    ensures |Written(Pieces(na), nb)| <= Allocated(na, nb)
       <==> (|Pieces(na)| - 1) * |Encode(nb)| <= (|Pieces(na)| - 1) * |Encode(na)| + Skipped(na)
  {
    hide Encode, Woven, Written, TotalSize, Pieces, Skipped, Path;
    var pieces := Pieces(na);
    PiecesStep(na);
    WrittenLength(pieces, nb);
    WovenLength(pieces, nb);
    PiecesSize(na);
    FitBound(|Encode(na)|, |Encode(nb)|, |pieces|, TotalSize(pieces), Skipped(na));
  }

  lemma FitBound(a: nat, b: nat, k: nat, total: nat, skipped: nat)
    requires k >= 1 && total + HEADER * k + skipped == a
    ensures total + k * (b + HEADER) <= a * k + b <==> (k - 1) * b <= (k - 1) * a + skipped
  {
    Distributes(k, b, HEADER);
    OneMore(k - 1, a);
    OneMore(k - 1, b);
  }

  /** Within the cap: Src1 is a single instance, or Src2 is not larger than all of Src1. */
  lemma AppendFitsWithinCapIff(na: seq<Node>, nb: seq<Node>)
    requires Path(na) && Path(nb) && WithinCap(na)
    ensures |Written(Pieces(na), nb)| <= Allocated(na, nb)
       <==> |Instances(na)| == 1 || |Encode(nb)| <= |Encode(na)|
  {
    hide Encode, Written, TotalSize, Instances, Pieces, Skipped, Path;
    PiecesAreInstancesIff(na);
    PiecesStep(na);
    PiecesSize(na);
    InstancesSize(na);
    AppendFitsIff(na, nb);
    FitArithmetic(|Encode(na)|, |Encode(nb)|, |Pieces(na)| - 1);
  }

  lemma Distributes(k: nat, a: nat, b: nat)
    ensures k * (a + b) == k * a + k * b
  {
  }

  lemma FitArithmetic(a: nat, b: nat, k: nat)
    ensures k * b <= k * a <==> k == 0 || b <= a
  {
    assert k * a - k * b == k * (a - b);
    if k > 0 && b > a {
      assert k * (b - a) >= 1;
    }
  }

  /** With two empty instances and one node of twelve bytes, neither holds: the copies overrun
      the buffer, and the second instance gets no Src2. */
  lemma AppendFails()
    ensures var na, nb := [END_INSTANCE_NODE, END_NODE], [Node(1, 1, [0, 0, 0, 0, 0, 0, 0, 0]), END_NODE];
            && Path(na) && Path(nb) && WithinCap(na)
            && |Written(Pieces(na), nb)| > Allocated(na, nb)
            && Pieces(na)[0] + nb != Promised(Instances(na), nb)
  {
    var na, nb := [END_INSTANCE_NODE, END_NODE], [Node(1, 1, [0, 0, 0, 0, 0, 0, 0, 0]), END_NODE];
    assert na[1..] == [END_NODE] == nb[1..];
    assert FirstEnd(na) == 0 && FirstEnd([END_NODE]) == 0;
    InstancesStep(na, 0);
    InstancesStep([END_NODE], 0);
    assert Instances(na) == [[], []];
    EncodeOne(END_NODE);
    assert |Encode(na)| == 8 && |Encode(nb)| == 16;
    hide Written, Allocated, Pieces, Instances, Encode, Promised;
    AppendFitsWithinCapIff(na, nb);
    AppendKeepsPromiseIff(na, nb);
  }

  lemma {:induction false} LongDrop(n: nat, k: nat)
    requires k <= n
    ensures |Long(n)| == n + 1 && Long(n)[k..] == Long(n - k)
    ensures k < n ==> Long(n)[k] == Node(1, 1, [])
  {
    if k > 0 {
      LongDrop(n - 1, k - 1);
      assert Long(n)[k..] == Long(n - 1)[k - 1..];
    } else {
      if n > 0 {
        LongDrop(n - 1, 0);
      }
      assert Long(n)[0..] == Long(n);
    }
  }

  lemma {:induction false} LongSize(n: nat)
    ensures |Encode(Long(n))| == HEADER * (n + 1)
  {
    hide Node.Bytes;
    if n == 0 {
      EncodeOne(END_NODE);
    } else {
      LongSize(n - 1);
      EncodeFront(Node(1, 1, []), Long(n - 1));
    }
  }

  lemma LongPieces()
    ensures Path(Long(514)) && |Pieces(Long(514))| == 2 && |Instances(Long(514))| == 1
            && |Instances(Long(514))[0]| == 514
    ensures Skipped(Long(514)) == 0
  {
    hide Long, Path, FirstEnd, Instances, Ends, Encode, Skipped;
    var ns := Long(514);
    LongPath(514);
    LongDrop(514, 513);
    LongDrop(514, 514);
    InstancesStep(ns, 514);
    assert Cut(ns) == 513 && !LastPiece(ns);
    LongEnd();
    assert Cut(Long(0)) == 0 && LastPiece(Long(0));
    PiecesStep(ns);
    PiecesStep(Long(0));
    LongSkips(ns);
  }

  lemma LongEnd()
    ensures Path(Long(0)) && FirstEnd(Long(0)) == 0 && Long(0) == [END_NODE] && Long(0)[1..] == []
  {
  }

  lemma LongSkips(ns: seq<Node>)
    requires Path(ns) && Cut(ns) == 513 && !LastPiece(ns) && ns[513].body == [] && ns[514..] == Long(0)
    ensures Skipped(ns) == 0
  {
    LongEnd();
    assert Skipped(ns) == |ns[513].body| + Skipped(Long(0));
  }

  /** Nor does either hold for a single instance of 514 nodes: it is handed out in two pieces. */
  lemma LongAppendFails(nb: seq<Node>)
    requires Path(nb)
    ensures Path(Long(514)) && |Instances(Long(514))| == 1
    ensures Pieces(Long(514))[0] + nb != Promised(Instances(Long(514)), nb)
    ensures Path(Long(515)) && |Written(Pieces(Long(514)), Long(515))| > Allocated(Long(514), Long(515))
  {
    hide Long, Written, Allocated, Pieces, Instances, Encode, Promised, Path, Skipped;
    LongPieces();
    LongPath(515);
    LongSize(514);
    LongSize(515);
    AppendKeepsPromiseIff(Long(514), nb);
    AppendFitsIff(Long(514), Long(515));
  }
}

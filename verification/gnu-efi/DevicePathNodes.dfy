/** Device paths as UEFI 2.4 section 9.3 encodes them: nodes with a four byte header, instances
    that end with an end node, and the macros of gnu-efi/inc/efidevp.h. */
module DevicePathNodes {
  import opened BitWords
  import opened Options

  const END_DEVICE_PATH_TYPE: byte := 0x7F
  const END_ENTIRE: byte := 0xFF
  const END_INSTANCE: byte := 0x01
  const HEADER: nat := 4

  datatype Node = Node(kind: byte, sub: byte, body: seq<byte>) {
    function Length(): nat {
      HEADER + |body|
    }

    /** DevicePathType: the kind without the mark of an unpacked node. */
    function Type(): nat {
      kind % 0x80
    }

    predicate IsEndType() {
      Type() == END_DEVICE_PATH_TYPE
    }

    predicate IsEnd() {
      IsEndType() && sub == END_ENTIRE
    }

    /** The length fits its two bytes, and end nodes are of the two known kinds. */
    predicate Ok() {
      Length() < 0x1_0000 && (IsEndType() ==> body == [] && (sub == END_ENTIRE || sub == END_INSTANCE))
    }

    /** The bytes of a node; SetDevicePathNodeLength keeps the low 16 bits of the length. */
    function Bytes(): (b: seq<byte>)
      ensures |b| == Length()
    {
      [kind, sub, Length() % 0x100, Length() / 0x100 % 0x100] + body
    }
  }

  const END_NODE: Node := Node(END_DEVICE_PATH_TYPE, END_ENTIRE, [])
  const END_INSTANCE_NODE: Node := Node(END_DEVICE_PATH_TYPE, END_INSTANCE, [])

  /** The two end nodes as they stand in memory, and the place of the length: low byte first. */
  lemma NodeBytes(kind: byte, sub: byte, body: seq<byte>)
    requires HEADER + |body| < 0x1_0000
    ensures END_NODE.Bytes() == [0x7F, 0xFF, 4, 0] && END_INSTANCE_NODE.Bytes() == [0x7F, 0x01, 4, 0]
    ensures var b := Node(kind, sub, body).Bytes();
            b[0] == kind && b[1] == sub && b[2] as int + 0x100 * (b[3] as int) == 4 + |body| && b[4..] == body
  {
  }

  predicate AllOk(ns: seq<Node>) {
    forall n | n in ns :: n.Ok()
  }

  function Encode(ns: seq<Node>): seq<byte> {
    if ns == [] then [] else ns[0].Bytes() + Encode(ns[1..])
  }

  /** A complete path: it ends with its first end-entire node. */
  predicate Path(ns: seq<Node>) {
    ns != [] && ns[0].Ok() && if ns[0].IsEnd() then |ns| == 1 else Path(ns[1..])
  }

  lemma {:induction false} PathEnds(ns: seq<Node>)
    requires Path(ns)
    ensures AllOk(ns) && ns[|ns| - 1].IsEnd()
    ensures forall i | 0 <= i < |ns| - 1 :: !ns[i].IsEnd()
  {
    if !ns[0].IsEnd() {
      PathEnds(ns[1..]);
      forall i | 0 <= i < |ns|
        ensures ns[i].Ok() && (ns[i].IsEnd() <==> i == |ns| - 1)
      {
        assert i > 0 ==> ns[i] == ns[1..][i - 1];
      }
    }
  }

  lemma {:induction false} PathFromEnd(ns: seq<Node>)
    requires AllOk(ns) && ns != [] && ns[|ns| - 1].IsEnd()
    requires forall i | 0 <= i < |ns| - 1 :: !ns[i].IsEnd()
    ensures Path(ns)
  {
    if |ns| > 1 {
      assert forall i | 0 <= i < |ns| - 2 :: ns[1..][i] == ns[i + 1];
      PathFromEnd(ns[1..]);
    }
  }

  lemma {:induction false} EncodeConcat(a: seq<Node>, b: seq<Node>)
    ensures Encode(a + b) == Encode(a) + Encode(b)
  {
    if a == [] {
      assert a + b == b;
    } else {
      assert (a + b)[1..] == a[1..] + b;
      EncodeConcat(a[1..], b);
    }
  }

  lemma EncodeOne(n: Node)
    ensures Encode([n]) == n.Bytes()
  {
    assert [n][1..] == [];
  }

  // ----- reading bytes

  /** DevicePathNodeLength. */
  function LengthAt(b: seq<byte>, p: nat): nat
    requires p + HEADER <= |b|
  {
    b[p + 2] as int + 0x100 * (b[p + 3] as int)
  }

  /** The node at `p`, if there is a complete one that is well formed. */
  function NodeAt(b: seq<byte>, p: nat): (r: Option<Node>)
    ensures r.Some? ==> r.value.Ok() && p + r.value.Length() <= |b| && LengthAt(b, p) == r.value.Length()
  {
    if p + HEADER > |b| || LengthAt(b, p) < HEADER || p + LengthAt(b, p) > |b| then None
    else
      var n := Node(b[p], b[p + 1], b[p + HEADER..p + LengthAt(b, p)]);
      if n.Ok() then Some(n) else None
  }

  /** The nodes of the path at `p`. */
  function Parse(b: seq<byte>, p: nat): (r: Option<seq<Node>>)
    ensures r.Some? ==> Path(r.value)
    decreases |b| - p
  {
    match NodeAt(b, p)
    case None => None
    case Some(n) =>
      if n.IsEnd() then Some([n])
      else
        match Parse(b, p + n.Length())
        case None => None
        case Some(rest) => Some([n] + rest)
  }

  /** The bytes of `t` stand at `p`. */
  predicate At(b: seq<byte>, p: nat, t: seq<byte>) {
    p + |t| <= |b| && b[p..p + |t|] == t
  }

  lemma AtConcat(b: seq<byte>, p: nat, s: seq<byte>, t: seq<byte>)
    ensures At(b, p, s + t) <==> At(b, p, s) && At(b, p + |s|, t)
  {
    if p + |s| + |t| <= |b| {
      assert b[p..p + |s + t|] == b[p..p + |s|] + b[p + |s|..p + |s| + |t|];
      assert At(b, p, s + t) ==> (s + t)[..|s|] == s && (s + t)[|s|..] == t;
    }
  }

  lemma NodeAtIff(b: seq<byte>, p: nat, n: Node)
    requires n.Ok()
    ensures NodeAt(b, p) == Some(n) <==> At(b, p, n.Bytes())
  {
    var t := n.Bytes();
    if At(b, p, t) {
      var u := b[p..p + |t|];
      assert u[0] == b[p] && u[1] == b[p + 1] && u[2] == b[p + 2] && u[3] == b[p + 3];
      assert b[p + HEADER..p + |t|] == u[HEADER..] == n.body;
    }
    if NodeAt(b, p) == Some(n) {
      assert b[p..p + |t|] == [b[p], b[p + 1], b[p + 2], b[p + 3]] + b[p + HEADER..p + |t|];
    }
  }

  /** Reading undoes writing: the bytes of a path are read as that path. */
  lemma {:induction false} ParseEncoded(b: seq<byte>, p: nat, ns: seq<Node>)
    requires Path(ns) && At(b, p, Encode(ns))
    ensures Parse(b, p) == Some(ns)
    decreases |ns|
  {
    hide Node.Ok, Node.Bytes, Node.IsEnd, NodeAt, At;
    var n := ns[0];
    AtConcat(b, p, n.Bytes(), Encode(ns[1..]));
    NodeAtIff(b, p, n);
    assert ns == [n] + ns[1..];
    if n.IsEnd() {
      assert ns == [n];
    } else {
      ParseEncoded(b, p + n.Length(), ns[1..]);
    }
  }

  /** And what is read as a path are its bytes and no others. */
  lemma {:induction false} EncodedParse(b: seq<byte>, p: nat)
    requires Parse(b, p).Some?
    ensures At(b, p, Encode(Parse(b, p).value))
    decreases |b| - p
  {
    hide Node.Ok, Node.Bytes, Node.IsEnd, NodeAt, At, AllOk, Path;
    var ns, n := Parse(b, p).value, NodeAt(b, p).value;
    PathEnds(ns);
    NodeAtIff(b, p, n);
    if n.IsEnd() {
      EncodeOne(n);
    } else {
      EncodedParse(b, p + n.Length());
      var rest := Parse(b, p + n.Length()).value;
      AtConcat(b, p, n.Bytes(), Encode(rest));
      EncodeFront(n, rest);
    }
  }

  lemma EncodeFront(n: Node, rest: seq<Node>)
    ensures Encode([n] + rest) == n.Bytes() + Encode(rest)
  {
    assert ([n] + rest)[1..] == rest;
  }

  /** One node further along the path. */
  lemma ParseStep(b: seq<byte>, p: nat)
    requires Parse(b, p).Some?
    ensures var ns := Parse(b, p).value;
            && NodeAt(b, p) == Some(ns[0])
            && Encode(ns) == ns[0].Bytes() + Encode(ns[1..])
            && if ns[0].IsEnd() then ns == [ns[0]] else |ns| > 1 && Parse(b, p + ns[0].Length()) == Some(ns[1..])
  {
    PathEnds(Parse(b, p).value);
  }

  // ----- instances

  lemma {:induction false} PathDrop(ns: seq<Node>, k: nat)
    requires Path(ns) && k < |ns|
    ensures Path(ns[k..])
  {
    if k > 0 {
      PathDrop(ns[1..], k - 1);
      assert ns[1..][k - 1..] == ns[k..];
    } else {
      assert ns[0..] == ns;
    }
  }

  /** The position of the first end node of either kind. */
  function FirstEnd(ns: seq<Node>): (c: nat)
    requires Path(ns)
    ensures c < |ns| && ns[c].IsEndType()
    ensures forall i | 0 <= i < c :: !ns[i].IsEndType()
  {
    if ns[0].IsEndType() then 0 else 1 + FirstEnd(ns[1..])
  }

  lemma BehindEnd(ns: seq<Node>, c: nat)
    requires Path(ns) && c < |ns|
    ensures ns[c].IsEnd() <==> c == |ns| - 1
    ensures c < |ns| - 1 ==> Path(ns[c + 1..])
  {
    PathEnds(ns);
    if c < |ns| - 1 {
      PathDrop(ns, c + 1);
    }
  }

  /** The instances of a path, without their end nodes. */
  function Instances(ns: seq<Node>): (r: seq<seq<Node>>)
    requires Path(ns)
    ensures r != []
    decreases |ns|
  {
    var c := FirstEnd(ns);
    BehindEnd(ns, c);
    [ns[..c]] + if c == |ns| - 1 then [] else Instances(ns[c + 1..])
  }

  /** The end nodes of a path, one for each instance. */
  function Ends(ns: seq<Node>): (r: seq<Node>)
    requires Path(ns)
    decreases |ns|
  {
    var c := FirstEnd(ns);
    BehindEnd(ns, c);
    [ns[c]] + if c == |ns| - 1 then [] else Ends(ns[c + 1..])
  }

  /** Each instance followed by its end node. */
  function Weave(instances: seq<seq<Node>>, ends: seq<Node>): seq<Node> {
    if instances == [] || ends == [] then [] else instances[0] + [ends[0]] + Weave(instances[1..], ends[1..])
  }

  predicate NoEnds(inst: seq<Node>) {
    forall n | n in inst :: !n.IsEndType()
  }

  lemma InstancesStep(ns: seq<Node>, c: nat)
    requires Path(ns) && c == FirstEnd(ns)
    ensures c < |ns| && ns[c].IsEndType() && (ns[c].IsEnd() <==> c == |ns| - 1)
    ensures c < |ns| - 1 ==> Path(ns[c + 1..])
    ensures Instances(ns) == [ns[..c]] + if c == |ns| - 1 then [] else Instances(ns[c + 1..])
    ensures Ends(ns) == [ns[c]] + if c == |ns| - 1 then [] else Ends(ns[c + 1..])
  {
    hide Path;
    BehindEnd(ns, c);
  }

  /** Instances and end nodes make up the whole path; no instance holds an end node, and of the
      end nodes the last alone ends the path. */
  lemma {:induction false} InstancesSplit(ns: seq<Node>)
    requires Path(ns)
    ensures |Instances(ns)| == |Ends(ns)| && Weave(Instances(ns), Ends(ns)) == ns
    ensures forall inst | inst in Instances(ns) :: NoEnds(inst)
    ensures forall i | 0 <= i < |Ends(ns)| :: Ends(ns)[i].IsEnd() <==> i == |Ends(ns)| - 1
    decreases |ns|
  {
    hide Node.IsEnd, Node.IsEndType, Path, NoEnds, FirstEnd, Instances, Ends;
    var c := FirstEnd(ns);
    InstancesStep(ns, c);
    BeforeEnd(ns);
    if c == |ns| - 1 {
      assert ns == ns[..c] + [ns[c]];
      WeaveFront(ns[..c], ns[c], [], []);
    } else {
      var rest := ns[c + 1..];
      InstancesSplit(rest);
      assert ns == ns[..c] + [ns[c]] + rest;
      WeaveFront(ns[..c], ns[c], Instances(rest), Ends(rest));
    }
  }

  lemma WeaveFront(inst: seq<Node>, end: Node, instances: seq<seq<Node>>, ends: seq<Node>)
    ensures Weave([inst] + instances, [end] + ends) == inst + [end] + Weave(instances, ends)
  {
    assert ([inst] + instances)[1..] == instances && ([end] + ends)[1..] == ends;
  }

  lemma BeforeEnd(ns: seq<Node>)
    requires Path(ns)
    ensures NoEnds(ns[..FirstEnd(ns)])
  {
  }

  /** A path made of one that is continued by another one. */
  function Joined(a: seq<Node>, b: seq<Node>): seq<Node>
    requires a != []
  {
    a[..|a| - 1] + [a[|a| - 1].(sub := END_INSTANCE)] + b
  }

  lemma JoinedPath(a: seq<Node>, b: seq<Node>)
    requires Path(a) && Path(b)
    ensures Path(Joined(a, b))
  {
    PathEnds(a);
    PathEnds(b);
    var j := Joined(a, b);
    assert forall i | 0 <= i < |b| :: j[|a| + i] == b[i];
    assert j[|a| - 1] == a[|a| - 1].(sub := END_INSTANCE);
    forall i | 0 <= i < |j|
      ensures j[i].Ok() && (j[i].IsEnd() <==> i == |j| - 1)
    {
      if i < |a| {
        assert a[i] in a && (i < |a| - 1 ==> j[i] == a[i]);
      } else {
        assert j[i] == b[i - |a|] && b[i - |a|] in b;
      }
    }
    PathFromEnd(j);
  }

  lemma {:induction false} FirstEndIs(ns: seq<Node>, c: nat)
    requires Path(ns) && c < |ns| && ns[c].IsEndType() && NoEnds(ns[..c])
    ensures FirstEnd(ns) == c
  {
    forall i | 0 <= i < c
      ensures !ns[i].IsEndType()
    {
      assert ns[..c][i] in ns[..c];
    }
  }

  lemma JoinedPieces(a: seq<Node>, b: seq<Node>, c: nat)
    requires c < |a|
    ensures var j := Joined(a, b);
            && |j| == |a| + |b| && j[..c] == a[..c] && (j[c].IsEndType() <==> a[c].IsEndType())
            && j[c + 1..] == if c == |a| - 1 then b else Joined(a[c + 1..], b)
  {
  }

  lemma JoinedFront(a: seq<Node>, b: seq<Node>)
    requires Path(a) && Path(b)
    ensures var j, c := Joined(a, b), FirstEnd(a);
            && Path(j) && FirstEnd(j) == c < |j| - 1 && j[..c] == a[..c]
            && (c == |a| - 1 ==> j[c + 1..] == b)
            && (c < |a| - 1 ==> Path(a[c + 1..]) && j[c + 1..] == Joined(a[c + 1..], b))
  {
    hide *;
    var c := FirstEnd(a);
    FirstEndStep(a);
    BeforeEnd(a);
    PathNotEmpty(b);
    JoinedPieces(a, b, c);
    JoinedPath(a, b);
    FirstEndIs(Joined(a, b), c);
  }

  lemma FirstEndStep(ns: seq<Node>)
    requires Path(ns)
    ensures var c := FirstEnd(ns); c < |ns| && ns[c].IsEndType() && (c < |ns| - 1 ==> Path(ns[c + 1..]))
  {
    hide *;
    InstancesStep(ns, FirstEnd(ns));
  }

  lemma PathNotEmpty(ns: seq<Node>)
    requires Path(ns)
    ensures ns != []
  {
  }

  /** The instances are those of both paths, so their numbers add up. */
  lemma {:induction false} JoinedInstances(a: seq<Node>, b: seq<Node>)
    requires Path(a) && Path(b)
    ensures Path(Joined(a, b)) && Instances(Joined(a, b)) == Instances(a) + Instances(b)
    decreases |a|
  {
    hide Path, FirstEnd, Instances, Ends, Joined, Node.IsEnd, Node.IsEndType;
    JoinedFront(a, b);
    var j, c := Joined(a, b), FirstEnd(a);
    InstancesStep(a, c);
    InstancesStep(j, c);
    if c < |a| - 1 {
      JoinedInstances(a[c + 1..], b);
    }
  }
}

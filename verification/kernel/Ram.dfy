/** Physical memory: one array of bytes that holds the bitmap, the page tables and everything
    else, with `memset` of kernel/src/memory.cpp and 64-bit little-endian loads and stores. */
module Ram {
  import opened BitWords

  const PAGE: nat := 0x1000

  function Load64(m: seq<byte>, a: nat): (v: u64)
    requires a + 8 <= |m|
  {
    LittleBound(m[a..a + 8]);
    WordBound();
    FromLittle(m[a..a + 8])
  }

  /** The lowest byte comes first. */
  lemma LoadedBytes(m: seq<byte>, a: nat)
    requires a + 8 <= |m|
    ensures Load64(m, a) == FourBytes(m, a) + 0x1_0000_0000 * FourBytes(m, a + 4)
  {
    var w := m[a..a + 8];
    FourFirst(w, m, a);
    FourFirst(w[4..], m, a + 4);
    assert w[4..][4..] == [];
  }

  function FourBytes(m: seq<byte>, a: nat): nat
    requires a + 4 <= |m|
  {
    var b0: nat, b1: nat, b2: nat, b3: nat := m[a], m[a + 1], m[a + 2], m[a + 3];
    b0 + 0x100 * b1 + 0x1_0000 * b2 + 0x100_0000 * b3
  }

  lemma FourFirst(w: seq<byte>, m: seq<byte>, a: nat)
    requires 4 <= |w| && a + 4 <= |m| && w[..4] == m[a..a + 4]
    ensures FromLittle(w) == FourBytes(m, a) + 0x1_0000_0000 * FromLittle(w[4..])
  {
    assert w[..4][0] == m[a] && w[..4][1] == m[a + 1] && w[..4][2] == m[a + 2] && w[..4][3] == m[a + 3];
    assert w[1..][1..] == w[2..] && w[2..][1..] == w[3..] && w[3..][1..] == w[4..];
    assert FromLittle(w[2..]) == w[2] as int + 0x100 * FromLittle(w[3..]);
    assert FromLittle(w[3..]) == w[3] as int + 0x100 * FromLittle(w[4..]);
  }

  lemma WordBound()
    ensures Pow256(8) == TWO_64
  {
    assert Pow256(4) == 0x1_0000_0000;
    assert Pow256(8) == 0x100 * (0x100 * (0x100 * (0x100 * Pow256(4))));
  }

  method Store64(ram: array<byte>, a: nat, v: u64)
    requires a + 8 <= ram.Length
    modifies ram
    ensures Load64(ram[..], a) == v
    ensures SameOutside(old(ram[..]), ram[..], a, 8)
  {
    var bytes := ToLittle(v, 8);
    for i := 0 to 8
      invariant forall k | 0 <= k < i :: ram[a + k] == bytes[k]
      invariant forall b | 0 <= b < ram.Length && !(a <= b < a + 8) :: ram[b] == old(ram[b])
    {
      ram[a + i] := bytes[i];
    }
    assert ram[..][a..a + 8] == bytes;
    WordBound();
    LittleRoundTrip(v, 8);
  }

  method Memset(ram: array<byte>, start: nat, value: byte, num: nat)
    requires start + num <= ram.Length
    modifies ram
    ensures forall b | 0 <= b < ram.Length :: ram[b] == if start <= b < start + num then value else old(ram[b])
  {
    var i := 0;
    while i < num
      invariant 0 <= i <= num
      invariant forall b | 0 <= b < ram.Length :: ram[b] == if start <= b < start + i then value else old(ram[b])
    {
      ram[start + i] := value;
      i := i + 1;
    }
  }

  // ----- page tables as arrays of 512 entries

  /** Entry `k` of the table in frame `f`; there are no entries outside the memory. */
  function Entry(m: seq<byte>, f: nat, k: nat): u64 {
    if k < 512 && f * PAGE + PAGE <= |m| then Load64(m, f * PAGE + k * 8) else 0
  }

  /** The two memories agree on the bytes `a..a + n`. */
  ghost predicate SameBytes(m: seq<byte>, m': seq<byte>, a: nat, n: nat) {
    |m| == |m'| && forall b | a <= b < a + n && b < |m| :: m[b] == m'[b]
  }

  /** The two memories agree outside the bytes `a..a + n`. */
  ghost predicate SameOutside(m: seq<byte>, m': seq<byte>, a: nat, n: nat) {
    |m| == |m'| && forall b | 0 <= b < |m| && !(a <= b < a + n) :: m[b] == m'[b]
  }

  lemma Unchanged(m: seq<byte>, a: nat, n: nat)
    ensures SameOutside(m, m, a, n)
  {
  }

  lemma OutsideTwice(m: seq<byte>, m1: seq<byte>, m2: seq<byte>, a: nat, n: nat)
    requires SameOutside(m, m1, a, n) && SameOutside(m1, m2, a, n)
    ensures SameOutside(m, m2, a, n)
  {
  }

  lemma SameEntry(m: seq<byte>, m': seq<byte>, f: nat, k: nat)
    requires k < 512 ==> SameBytes(m, m', f * PAGE + k * 8, 8)
    requires |m| == |m'|
    ensures Entry(m, f, k) == Entry(m', f, k)
  {
    var a := f * PAGE + k * 8;
    if k < 512 && f * PAGE + PAGE <= |m| {
      assert m[a..a + 8] == m'[a..a + 8];
    }
  }

  lemma ZeroEntry(m: seq<byte>, f: nat, k: nat)
    requires f * PAGE + PAGE <= |m|
    requires forall b | f * PAGE <= b < f * PAGE + PAGE :: m[b] == 0
    ensures Entry(m, f, k) == 0
  {
    if k < 512 {
      LittleZero(m[f * PAGE + k * 8..f * PAGE + k * 8 + 8]);
    }
  }
}

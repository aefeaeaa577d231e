/** Bitwise operators of the C integer types on natural numbers, and little-endian words.
    The operators are defined one bit at a time; the lemmas turn the masks the kernel uses
    into the field arithmetic (quotients and remainders) that the other modules reason with. */
module BitWords {

  type byte = x: int | 0 <= x < 0x100
  type u64 = x: int | 0 <= x < 0x1_0000_0000_0000_0000

  const TWO_64: nat := 0x1_0000_0000_0000_0000

  /** `uint64_t` addition and subtraction wrap. */
  function Add64(a: u64, b: u64): u64 {
    if a + b < TWO_64 then a + b else a + b - TWO_64
  }

  function Sub64(a: u64, b: u64): u64 {
    if b <= a then a - b else a - b + TWO_64
  }

  function Pow2(k: nat): (p: nat)
    ensures p > 0
  {
    if k == 0 then 1 else 2 * Pow2(k - 1)
  }

  /** The operator `&`. */
  function And(a: nat, b: nat): (r: nat)
    ensures r <= a && r <= b
  {
    if a == 0 then 0
    else 2 * And(a / 2, b / 2) + (if a % 2 == 1 && b % 2 == 1 then 1 else 0)
  }

  /** The operator `|`. */
  function Or(a: nat, b: nat): nat {
    if a == 0 then b
    else 2 * Or(a / 2, b / 2) + (if a % 2 == 1 || b % 2 == 1 then 1 else 0)
  }

  /** The operator `~` on 64 bits. */
  function Not64(a: u64): u64 {
    TWO_64 - 1 - a
  }

  /** Bit `k` of `a`, counted from the least significant bit. */
  predicate Bit(a: nat, k: nat) {
    if k == 0 then a % 2 == 1 else Bit(a / 2, k - 1)
  }

  lemma {:induction false} PowSplit(j: nat, k: nat)
    ensures Pow2(j + k) == Pow2(j) * Pow2(k)
  {
    if j > 0 {
      PowSplit(j - 1, k);
      assert Pow2(j + k) == 2 * Pow2(j - 1 + k);
    }
  }

  lemma PowerValues()
    ensures Pow2(0) == 1 && Pow2(1) == 2 && Pow2(9) == 0x200 && Pow2(12) == 0x1000
    ensures Pow2(40) == 0x100_0000_0000 && Pow2(64) == TWO_64
  {
    assert Pow2(8) == 0x100;
    PowSplit(4, 8);
    PowSplit(8, 8);
    PowSplit(16, 16);
    PowSplit(8, 32);
    PowSplit(32, 32);
  }

  /** `h * 2^k + l` for `l < 2^k`, built one bit at a time. */
  function Glue(h: nat, l: nat, k: nat): nat {
    if k == 0 then h else 2 * Glue(h, l / 2, k - 1) + l % 2
  }

  lemma {:induction false} GlueValue(h: nat, l: nat, k: nat)
    requires l < Pow2(k)
    ensures Glue(h, l, k) == h * Pow2(k) + l
  {
    if k > 0 {
      GlueValue(h, l / 2, k - 1);
      DoubleInside(h, Pow2(k - 1));
    } else {
      assert h * 1 == h;
    }
  }

  lemma DoubleInside(h: nat, p: nat)
    ensures h * (2 * p) == 2 * (h * p)
  {
  }

  lemma {:induction false} AndGlue(xh: nat, xl: nat, yh: nat, yl: nat, k: nat)
    ensures And(Glue(xh, xl, k), Glue(yh, yl, k)) == Glue(And(xh, yh), And(xl, yl), k)
  {
    if k > 0 {
      AndGlue(xh, xl / 2, yh, yl / 2, k - 1);
      var x, y := Glue(xh, xl, k), Glue(yh, yl, k);
      assert x / 2 == Glue(xh, xl / 2, k - 1) && x % 2 == xl % 2;
      assert y / 2 == Glue(yh, yl / 2, k - 1) && y % 2 == yl % 2;
      AndUnfold(xl, yl);
      AndUnfold(x, y);
      assert And(xl, yl) / 2 == And(xl / 2, yl / 2);
    }
  }

  /** `&` works on the two halves of its operands separately. */
  lemma AndSplit(xh: nat, xl: nat, yh: nat, yl: nat, k: nat)
    requires xl < Pow2(k) && yl < Pow2(k)
    ensures And(xh * Pow2(k) + xl, yh * Pow2(k) + yl) == And(xh, yh) * Pow2(k) + And(xl, yl)
  {
    GlueValue(xh, xl, k);
    GlueValue(yh, yl, k);
    AndGlue(xh, xl, yh, yl, k);
    GlueValue(And(xh, yh), And(xl, yl), k);
  }

  lemma AndSplit12(xh: nat, xl: nat, yh: nat, yl: nat)
    requires xl < 0x1000 && yl < 0x1000
    ensures And(xh * 0x1000 + xl, yh * 0x1000 + yl) == And(xh, yh) * 0x1000 + And(xl, yl)
  {
    PowerValues();
    AndSplit(xh, xl, yh, yl, 12);
  }

  lemma AndSplit40(xh: nat, xl: nat, yh: nat, yl: nat)
    requires xl < 0x100_0000_0000 && yl < 0x100_0000_0000
    ensures And(xh * 0x100_0000_0000 + xl, yh * 0x100_0000_0000 + yl) == And(xh, yh) * 0x100_0000_0000 + And(xl, yl)
  {
    PowerValues();
    AndSplit(xh, xl, yh, yl, 40);
  }

  /** The defining equation of `&` also holds at zero. */
  lemma {:induction false} AndUnfold(a: nat, b: nat)
    ensures And(a, b) == 2 * And(a / 2, b / 2) + (if a % 2 == 1 && b % 2 == 1 then 1 else 0)
  {
  }

  lemma {:induction false} AndZero(a: nat)
    ensures And(a, 0) == 0
  {
  }

  /** A mask of `k` low bits takes the remainder by 2^k. */
  lemma {:induction false} AndLowMask(x: nat, k: nat)
    ensures And(x, Pow2(k) - 1) == x % Pow2(k)
  {
    hide And;
    if k == 0 {
      AndZero(x);
    } else {
      var p := Pow2(k - 1);
      assert Pow2(k) == 2 * p;
      hide Pow2;
      AndLowMask(x / 2, k - 1);
      AndUnfold(x, 2 * p - 1);
      OddHalf(p);
      DivModTwice(x, p);
    }
  }

  lemma OddHalf(p: nat)
    requires p > 0
    ensures (2 * p - 1) / 2 == p - 1 && (2 * p - 1) % 2 == 1
  {
  }

  lemma DivModTwice(x: nat, p: nat)
    requires p > 0
    ensures x % (2 * p) == 2 * (x / 2 % p) + x % 2
    ensures x / (2 * p) == x / 2 / p
  {
    var h := x / 2;
    DivisionParts(h, p);
    TwiceParts(x, h, p, h / p, h % p);
    ModUnique(x, h / p, 2 * p, 2 * (h % p) + x % 2);
  }

  lemma DivisionParts(v: nat, d: nat)
    requires d > 0
    ensures v == v / d * d + v % d && 0 <= v % d < d && v / d >= 0
  {
  }

  lemma TwiceParts(x: nat, h: nat, p: nat, q: nat, r: nat)
    requires h == x / 2 && h == q * p + r && r < p
    ensures x == q * (2 * p) + (2 * r + x % 2) && 2 * r + x % 2 < 2 * p
  {
    assert q * (2 * p) == 2 * (q * p);
  }

  lemma MulAtLeast(a: int, d: nat)
    requires 1 <= a
    ensures d <= a * d
  {
    assert a * d == (a - 1) * d + d;
    assert 0 <= (a - 1) * d;
  }

  lemma ModUnique(x: nat, q: nat, d: nat, r: nat)
    requires x == q * d + r && r < d
    ensures x / d == q && x % d == r
  {
    var q', r' := x / d, x % d;
    assert 0 <= r' < d;
    assert (q - q') * d == q * d - q' * d == r' - r;
    if q' < q {
      MulAtLeast(q - q', d);
    } else if q < q' {
      MulAtLeast(q' - q, d);
    }
  }

  /** `|` of operands that occupy different fields is their sum. */
  lemma {:induction false} OrDisjoint(x: nat, y: nat)
    requires And(x, y) == 0
    ensures Or(x, y) == x + y
  {
    if x > 0 {
      OrDisjoint(x / 2, y / 2);
    }
  }

  /** A one-bit mask selects that bit. */
  lemma {:induction false} AndOneBit(x: nat, k: nat)
    ensures And(x, Pow2(k)) == if Bit(x, k) then Pow2(k) else 0
  {
    AndUnfold(x, Pow2(k));
    if k > 0 {
      AndOneBit(x / 2, k - 1);
    } else {
      AndZero(x / 2);
    }
  }

  /** Setting bit `k` with `|` changes that bit and no other. */
  lemma {:induction false} OrOneBit(x: nat, k: nat, j: nat)
    ensures Bit(Or(x, Pow2(k)), j) == (j == k || Bit(x, j))
  {
    if x == 0 {
      PowBit(k, j);
      ZeroBit(j);
    } else if k > 0 && j > 0 {
      OrOneBit(x / 2, k - 1, j - 1);
    } else if k == 0 && j > 0 {
      OrZero(x / 2);
    }
  }

  lemma {:induction false} OrZero(x: nat)
    ensures Or(x, 0) == x
  {
    if x > 0 {
      OrZero(x / 2);
    }
  }

  lemma {:induction false} ZeroBit(j: nat)
    ensures !Bit(0, j)
  {
    if j > 0 {
      ZeroBit(j - 1);
    }
  }

  lemma {:induction false} PowBit(k: nat, j: nat)
    ensures Bit(Pow2(k), j) == (j == k)
  {
    if k > 0 && j > 0 {
      PowBit(k - 1, j - 1);
    } else if k == 0 && j > 0 {
      ZeroBit(j - 1);
    }
  }

  lemma {:induction false} AndBit(a: nat, b: nat, j: nat)
    ensures Bit(And(a, b), j) == (Bit(a, j) && Bit(b, j))
  {
    AndUnfold(a, b);
    if j > 0 {
      AndBit(a / 2, b / 2, j - 1);
    }
  }

  lemma {:induction false} BitBound(x: nat, n: nat, j: nat)
    requires x < Pow2(n) && Bit(x, j)
    ensures j < n
  {
    if n == 0 {
      ZeroBit(j);
    } else if j > 0 {
      BitBound(x / 2, n - 1, j - 1);
    }
  }

  lemma {:induction false} OnesBit(n: nat, j: nat)
    ensures Bit(Pow2(n) - 1, j) == (j < n)
  {
    if n == 0 {
      ZeroBit(j);
    } else if j > 0 {
      OnesBit(n - 1, j - 1);
    }
  }

  lemma {:induction false} ComplementBit(k: nat, n: nat, j: nat)
    requires k < n
    ensures Pow2(k) < Pow2(n)
    ensures Bit(Pow2(n) - 1 - Pow2(k), j) == (j < n && j != k)
  {
    PowLess(k, n);
    var mask := Pow2(n) - 1 - Pow2(k);
    if k == 0 {
      assert mask / 2 == Pow2(n - 1) - 1 && mask % 2 == 0;
      if j > 0 {
        OnesBit(n - 1, j - 1);
      }
    } else {
      PowLess(k - 1, n - 1);
      assert mask / 2 == Pow2(n - 1) - 1 - Pow2(k - 1) && mask % 2 == 1;
      if j > 0 {
        ComplementBit(k - 1, n - 1, j - 1);
      }
    }
  }

  /** Clearing bit `k` with `& ~` on `n` bits changes that bit and no other. */
  lemma ClearOneBit(x: nat, k: nat, n: nat, j: nat)
    requires k < n && x < Pow2(n)
    ensures Pow2(k) < Pow2(n)
    ensures Bit(And(x, Pow2(n) - 1 - Pow2(k)), j) == (j != k && Bit(x, j))
  {
    ComplementBit(k, n, j);
    AndBit(x, Pow2(n) - 1 - Pow2(k), j);
    if Bit(x, j) {
      BitBound(x, n, j);
    }
  }

  lemma {:induction false} PowLess(k: nat, n: nat)
    requires k < n
    ensures Pow2(k) < Pow2(n)
  {
    if k > 0 {
      PowLess(k - 1, n - 1);
    }
  }

  /** Numbers with the same bits are the same number. */
  lemma {:induction false} SameBits(x: nat, y: nat)
    requires forall j: nat :: Bit(x, j) == Bit(y, j)
    ensures x == y
  {
    if x > 0 || y > 0 {
      assert Bit(x, 0) == Bit(y, 0);
      forall j: nat
        ensures Bit(x / 2, j) == Bit(y / 2, j)
      {
        assert Bit(x, j + 1) == Bit(y, j + 1);
      }
      SameBits(x / 2, y / 2);
    }
  }

  /** The operator `>>`. */
  function Shr(x: nat, k: nat): nat {
    if k == 0 then x else Shr(x / 2, k - 1)
  }

  lemma {:induction false} ShrDivides(x: nat, k: nat)
    ensures Shr(x, k) == x / Pow2(k)
  {
    if k > 0 {
      ShrDivides(x / 2, k - 1);
      DivModTwice(x, Pow2(k - 1));
    }
  }

  lemma {:induction false} ShrPower(n: nat, k: nat)
    requires k <= n
    ensures Shr(Pow2(n), k) == Pow2(n - k)
  {
    if k > 0 {
      ShrPower(n - 1, k - 1);
    }
  }

  lemma {:induction false} ShrBit(x: nat, k: nat, j: nat)
    ensures Bit(Shr(x, k), j) == Bit(x, k + j)
  {
    if k > 0 {
      ShrBit(x / 2, k - 1, j);
    }
  }

  // ----- little-endian words

  function FromLittle(bytes: seq<byte>): nat {
    if bytes == [] then 0 else bytes[0] + 0x100 * FromLittle(bytes[1..])
  }

  function ToLittle(v: nat, n: nat): (bytes: seq<byte>)
    ensures |bytes| == n
  {
    if n == 0 then [] else [v % 0x100] + ToLittle(v / 0x100, n - 1)
  }

  function Pow256(n: nat): (p: nat)
    ensures p > 0
  {
    if n == 0 then 1 else 0x100 * Pow256(n - 1)
  }

  lemma {:induction false} LittleRoundTrip(v: nat, n: nat)
    requires v < Pow256(n)
    ensures FromLittle(ToLittle(v, n)) == v
  {
    if n > 0 {
      LittleRoundTrip(v / 0x100, n - 1);
      assert ToLittle(v, n)[1..] == ToLittle(v / 0x100, n - 1);
    }
  }

  lemma {:induction false} LittleBound(bytes: seq<byte>)
    ensures FromLittle(bytes) < Pow256(|bytes|)
  {
    if bytes != [] {
      LittleBound(bytes[1..]);
    }
  }

  lemma {:induction false} LittleZero(bytes: seq<byte>)
    requires forall i | 0 <= i < |bytes| :: bytes[i] == 0
    ensures FromLittle(bytes) == 0
  {
    if bytes != [] {
      LittleZero(bytes[1..]);
    }
  }
}

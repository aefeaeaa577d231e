/** gnu-efi/lib/ia32/math.c: DivU64x32, division of 64 bits by 32 by shift, compare, subtract. */
module Div64 {
  import opened BitWords

  type u32 = x: int | 0 <= x < 0x1_0000_0000

  const TWO_32: nat := 0x1_0000_0000

  /** The dividend's two halves, which turn into the quotient, and the running remainder. */
  datatype Machine = Machine(low: u32, high: u32, rem: u32) {
    function Dividend(): nat {
      high * TWO_32 + low
    }
  }

  /** shl and the two rcl: Rem:Dividend shifts left by one; the top bit of Rem is lost. */
  function Shift(s: Machine): Machine {
    var carry1 := s.low / 0x8000_0000;
    var carry2 := s.high / 0x8000_0000;
    Machine(s.low * 2 % TWO_32, (s.high * 2 + carry1) % TWO_32, (s.rem * 2 + carry2) % TWO_32)
  }

  /** cmp, cmc, sbb make a mask of ones if Rem >= Divisor; sub adds 1 to the low half; and, sub
      take the divisor away. */
  function Subtract(s: Machine, divisor: u32): Machine {
    if s.rem >= divisor then Machine((s.low + 1) % TWO_32, s.high, s.rem - divisor) else s
  }

  function Round(s: Machine, divisor: u32): Machine {
    Subtract(Shift(s), divisor)
  }

  function Rounds(s: Machine, divisor: u32, n: nat): Machine {
    if n == 0 then s else Round(Rounds(s, divisor, n - 1), divisor)
  }

  function Start(dividend: u64): Machine {
    Machine(dividend % TWO_32, dividend / TWO_32, 0)
  }

  method DivU64x32(dividend: u64, divisor: u32) returns (quotient: u64, remainder: u32)
    requires divisor != 0 && divisor < 0x8000_0000
    ensures Rounds(Start(dividend), divisor, 64) == Machine(quotient % TWO_32, quotient / TWO_32, remainder)
    ensures dividend == quotient * divisor + remainder && remainder < divisor
  {
    hide Rounds, Pow2;
    var low: u32, high: u32, rem: u32 := dividend % TWO_32, dividend / TWO_32, 0;
    var bit := 0;
    NoRounds(dividend, divisor);
    while bit < 64
      invariant 0 <= bit <= 64
      invariant Rounds(Start(dividend), divisor, bit) == Machine(low, high, rem)
    {
      OneMoreRound(dividend, divisor, bit);
      ghost var before := Machine(low, high, rem);
      var carry := low / 0x8000_0000;
      low := low * 2 % TWO_32;
      var carry' := high / 0x8000_0000;
      high := (high * 2 + carry) % TWO_32;
      rem := (rem * 2 + carry') % TWO_32;
      assert Shift(before) == Machine(low, high, rem);
      hide Shift;
      var mask := if rem >= divisor then 1 else 0;
      low := (low + mask) % TWO_32;
      rem := rem - (if mask == 1 then divisor else 0);
      assert Round(before, divisor) == Machine(low, high, rem);
      bit := bit + 1;
    }
    RoundsDivide(dividend, divisor);
    quotient := high * TWO_32 + low;
    remainder := rem;
    Halves(high, low);
  }

  lemma NoRounds(dividend: u64, divisor: u32)
    ensures Rounds(Start(dividend), divisor, 0) == Start(dividend)
  {
  }

  lemma OneMoreRound(dividend: u64, divisor: u32, n: nat)
    ensures Rounds(Start(dividend), divisor, n + 1) == Round(Rounds(Start(dividend), divisor, n), divisor)
  {
  }

  lemma Halves(high: u32, low: u32)
    ensures (high * TWO_32 + low) % TWO_32 == low && (high * TWO_32 + low) / TWO_32 == high
  {
  }

  // ----- why it divides

  /** After `n` rounds the top `n` bits of the dividend have been divided: `top` is those bits,
      `rest` the others, `q` the quotient bits found. */
  ghost predicate Divided(s: Machine, dividend: nat, divisor: nat, n: nat, top: nat, rest: nat, q: nat) {
    && n <= 64
    && dividend == top * Pow2(64 - n) + rest && rest < Pow2(64 - n)
    && s.Dividend() == rest * Pow2(n) + q && q < Pow2(n)
    && top == q * divisor + s.rem && s.rem < divisor
  }

  lemma Doubled(x: u32)
    ensures x * 2 % TWO_32 == x * 2 - x / 0x8000_0000 * TWO_32
    ensures x / 0x8000_0000 == if x >= 0x8000_0000 then 1 else 0
  {
  }

  lemma ShiftValue(s: Machine)
    ensures Shift(s).Dividend() == (if s.high >= 0x8000_0000 then s.Dividend() * 2 - TWO_64 else s.Dividend() * 2)
    ensures Shift(s).low % 2 == 0
    ensures s.rem < 0x8000_0000 ==> Shift(s).rem == s.rem * 2 + (if s.high >= 0x8000_0000 then 1 else 0)
  {
    Doubled(s.low);
    Doubled(s.high);
    Doubled(s.rem);
    EvenPlus(s.high * 2 % TWO_32, s.high, s.low / 0x8000_0000);
    EvenPlus(s.rem * 2 % TWO_32, s.rem, s.high / 0x8000_0000);
  }

  /** Doubling leaves room for the carry. */
  lemma EvenPlus(d: nat, x: u32, carry: nat)
    requires d == x * 2 % TWO_32 && carry <= 1
    ensures (x * 2 + carry) % TWO_32 == d + carry
  {
  }

  lemma HighBit(s: Machine)
    ensures s.high >= 0x8000_0000 <==> s.Dividend() >= 0x8000_0000_0000_0000
  {
  }

  /** One round in numbers, for dividers that leave room for the doubled remainder. */
  lemma RoundValue(s: Machine, divisor: u32)
    requires s.rem < divisor <= 0x8000_0000
    ensures var b := if s.Dividend() >= 0x8000_0000_0000_0000 then 1 else 0;
            var taken := s.rem * 2 + b >= divisor;
            && Round(s, divisor).Dividend() == s.Dividend() * 2 - b * TWO_64 + (if taken then 1 else 0)
            && Round(s, divisor).rem == s.rem * 2 + b - (if taken then divisor else 0)
  {
    HighBit(s);
    ShiftValue(s);
    var t := Shift(s);
    hide Shift;
    assert t.low + 1 < TWO_32;
  }

  /** The top bit of the shifted word is the top bit of what is left of the dividend. */
  lemma TopBit(word: nat, rest: nat, q: nat, n: nat)
    requires n < 64 && word == rest * Pow2(n) + q && q < Pow2(n)
    ensures word >= 0x8000_0000_0000_0000 <==> rest >= Pow2(63 - n)
    ensures Pow2(63 - n) * Pow2(n) == 0x8000_0000_0000_0000
  {
    PowerValues();
    PowSplit(63 - n, n);
    assert Pow2(64) == 2 * Pow2(63);
    var half := Pow2(63 - n);
    if rest >= half {
      MulMono(half, rest, Pow2(n));
    } else {
      MulMono(rest + 1, half, Pow2(n));
      assert (rest + 1) * Pow2(n) == rest * Pow2(n) + Pow2(n);
    }
  }

  lemma MulMono(a: nat, b: nat, c: nat)
    requires a <= b
    ensures a * c <= b * c
  {
    assert b * c == a * c + (b - a) * c;
  }

  lemma RoundDivides(s: Machine, dividend: nat, divisor: u32, n: nat, top: nat, rest: nat, q: nat)
      returns (top': nat, rest': nat, q': nat)
    requires n < 64 && 0 < divisor <= 0x8000_0000 && Divided(s, dividend, divisor, n, top, rest, q)
    ensures Divided(Round(s, divisor), dividend, divisor, n + 1, top', rest', q')
  {
    hide Round;
    var half, unit := Pow2(63 - n), Pow2(n);
    assert Pow2(64 - n) == 2 * half && Pow2(n + 1) == 2 * unit;
    RoundValue(s, divisor);
    TopBit(s.Dividend(), rest, q, n);
    hide Pow2;
    var b := if rest >= half then 1 else 0;
    top' := 2 * top + b;
    rest' := rest - b * half;
    q' := if s.rem * 2 + b >= divisor then 2 * q + 1 else 2 * q;
    Regroup(top, half, rest, b);
    Regrouped(rest, half, unit, b);
    QuotientStep(q, divisor, s.rem, b, q');
  }

  lemma Regroup(top: nat, half: nat, rest: nat, b: nat)
    requires b <= 1
    ensures top * (2 * half) + rest == (2 * top + b) * half + (rest - b * half)
  {
  }

  lemma Regrouped(rest: nat, half: nat, unit: nat, b: nat)
    requires b <= 1 && half * unit == 0x8000_0000_0000_0000
    ensures (rest - b * half) * (2 * unit) == rest * unit * 2 - b * TWO_64
  {
    assert b == 1 ==> (rest - half) * (2 * unit) == rest * unit * 2 - half * unit * 2;
    assert b == 0 ==> rest * (2 * unit) == rest * unit * 2;
  }

  lemma QuotientStep(q: nat, divisor: nat, rem: nat, b: nat, q': nat)
    requires b <= 1 && rem < divisor
    requires q' == if 2 * rem + b >= divisor then 2 * q + 1 else 2 * q
    ensures 2 * (q * divisor + rem) + b
         == q' * divisor + (if 2 * rem + b >= divisor then 2 * rem + b - divisor else 2 * rem + b)
  {
    assert (2 * q + 1) * divisor == 2 * (q * divisor) + divisor;
    assert (2 * q) * divisor == 2 * (q * divisor);
  }

  lemma {:induction false} RoundsInvariant(dividend: u64, divisor: u32, n: nat) returns (top: nat, rest: nat, q: nat)
    requires n <= 64 && 0 < divisor <= 0x8000_0000
    ensures Divided(Rounds(Start(dividend), divisor, n), dividend, divisor, n, top, rest, q)
  {
    if n == 0 {
      PowerValues();
      top, rest, q := 0, dividend, 0;
    } else {
      top, rest, q := RoundsInvariant(dividend, divisor, n - 1);
      top, rest, q := RoundDivides(Rounds(Start(dividend), divisor, n - 1), dividend, divisor, n - 1, top, rest, q);
    }
  }

  lemma RoundsDivide(dividend: u64, divisor: u32)
    requires 0 < divisor <= 0x8000_0000
    ensures Divides(dividend, divisor)
  {
    var top, rest, q := RoundsInvariant(dividend, divisor, 64);
    var s := Rounds(Start(dividend), divisor, 64);
    assert Pow2(0) == 1 && rest == 0;
    assert 0 * Pow2(64) == 0;
  }

  /** The machine's result is the quotient and remainder. */
  predicate Divides(dividend: u64, divisor: u32) {
    var s := Rounds(Start(dividend), divisor, 64);
    dividend == s.Dividend() * divisor + s.rem && s.rem < divisor
  }

  // ----- for which divisors it divides

  /** 2^32 divided by more than 2^31: the leading 1 climbs through the remainder untouched for
      31 rounds and is then shifted out. */
  lemma {:induction false} LeadingOne(divisor: u32, n: nat)
    requires divisor > 0x8000_0000 && n <= 64
    ensures var s := Rounds(Start(0x1_0000_0000), divisor, n);
            && s.low == 0
            && (n <= 31 ==> s.high == Pow2(n) && s.rem == 0)
            && (31 < n <= 63 ==> s.high == 0 && s.rem == Pow2(n - 32))
            && (n == 64 ==> s.high == 0 && s.rem == 0)
  {
    hide Round;
    LeadingPowers();
    if n > 0 {
      LeadingOne(divisor, n - 1);
      if n - 1 < 31 {
        PowLess(n - 1, 31);
        hide Pow2;
        OneInHigh(divisor, Rounds(Start(0x1_0000_0000), divisor, n - 1).high);
      } else if n - 1 == 31 {
        hide Pow2;
        OneInHigh(divisor, 0x8000_0000);
      } else {
        if n - 33 < 30 {
          PowLess(n - 33, 30);
        }
        hide Pow2;
        OneInRemainder(divisor, Rounds(Start(0x1_0000_0000), divisor, n - 1).rem);
      }
    }
  }

  lemma LeadingPowers()
    ensures Pow2(0) == 1 && Pow2(30) == 0x4000_0000 && Pow2(31) == 0x8000_0000
  {
    assert Pow2(8) == 0x100 && Pow2(6) == 0x40;
    PowSplit(8, 8);
    PowSplit(16, 8);
    PowSplit(24, 6);
  }

  lemma OneInHigh(divisor: u32, high: u32)
    requires divisor > 0x8000_0000
    ensures high < 0x8000_0000 ==> Round(Machine(0, high, 0), divisor) == Machine(0, high * 2, 0)
    ensures high == 0x8000_0000 ==> Round(Machine(0, high, 0), divisor) == Machine(0, 0, 1)
  {
  }

  lemma OneInRemainder(divisor: u32, rem: u32)
    requires divisor > 0x8000_0000
    ensures rem <= 0x4000_0000 ==> Round(Machine(0, 0, rem), divisor) == Machine(0, 0, rem * 2)
    ensures rem == 0x8000_0000 ==> Round(Machine(0, 0, rem), divisor) == Machine(0, 0, 0)
  {
  }

  /** DivU64x32 is right for every dividend exactly when the divisor is at most 2^31: one more
      than its assertion admits. */
  lemma ExactlyTheseDivisors(divisor: u32)
    requires divisor != 0
    ensures (forall dividend: u64 :: Divides(dividend, divisor)) <==> divisor <= 0x8000_0000
  {
    if divisor <= 0x8000_0000 {
      forall dividend: u64
        ensures Divides(dividend, divisor)
      {
        RoundsDivide(dividend, divisor);
      }
    } else {
      LeadingOne(divisor, 64);
      var two32: u64 := 0x1_0000_0000;
      assert !Divides(two32, divisor);
    }
  }
}

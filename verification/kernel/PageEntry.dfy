/** kernel/src/Paging/paging.h and paging.cpp: one 64-bit page-table entry. */
module PageEntry {
  import opened BitWords

  const PRESENT: nat := 0
  const READ_WRITE: nat := 1

  const ADDRESS_LIMIT: nat := 0x100_0000_0000
  const FIELD_MASK: u64 := 0x000f_ffff_ffff_f000
  const KEEP_MASK: u64 := 0xfff0_0000_0000_0fff

  /** The value left by `SetFlag`. */
  function WithFlag(v: u64, flag: nat, enabled: bool): u64
    requires flag < 64
  {
    SelectorFits(v, flag);
    var cleared := And(v, Not64(Pow2(flag)));
    if enabled then Or(cleared, Pow2(flag)) else cleared
  }

  lemma SelectorFits(v: u64, flag: nat)
    requires flag < 64
    ensures Pow2(flag) < TWO_64 == Pow2(64)
    ensures And(v, Not64(Pow2(flag))) + Pow2(flag) < TWO_64
    ensures Or(And(v, Not64(Pow2(flag))), Pow2(flag)) == And(v, Not64(Pow2(flag))) + Pow2(flag)
  {
    PowerValues();
    PowLess(flag, 64);
    var cleared := And(v, Not64(Pow2(flag)));
    AndOneBit(cleared, flag);
    ClearOneBit(v, flag, 64, flag);
    OrDisjoint(cleared, Pow2(flag));
  }

  /** The value read by `GetFlag`: `Value & bitSelector > 0` compares first, so the bit that
      is tested is bit 0 whichever flag is asked for. */
  predicate ReadFlag(v: u64, flag: nat) {
    And(v, Truth(Pow2(flag) > 0)) > 0
  }

  /** The integer a C comparison yields. */
  function Truth(b: bool): nat {
    if b then 1 else 0
  }

  function Address(v: u64): (a: nat)
    ensures a < ADDRESS_LIMIT
  {
    AddressField(v);
    And(v, FIELD_MASK) / 0x1000
  }

  /** The value left by `SetAddress`. */
  function WithAddress(v: u64, a: u64): u64 {
    AddressFields(v, a);
    Or(And(v, KEEP_MASK), And(a, ADDRESS_LIMIT - 1) * 0x1000)
  }

  // ----- what the masks mean

  lemma AddressField(v: u64)
    ensures And(v, FIELD_MASK) / 0x1000 == v / 0x1000 % ADDRESS_LIMIT
  {
    PowerValues();
    AndSplit12(v / 0x1000, v % 0x1000, ADDRESS_LIMIT - 1, 0);
    AndZero(v % 0x1000);
    AndLowMask(v / 0x1000, 40);
  }

  lemma LowTwelve(low: nat)
    requires low < 0x1000
    ensures And(low, 0xfff) == low
  {
    PowerValues();
    AndLowMask(low, 12);
    assert low % 0x1000 == low;
  }

  lemma HighMask(high: nat, mid: nat)
    requires high < 0x1000 && mid < ADDRESS_LIMIT
    ensures And(high * ADDRESS_LIMIT + mid, 0xfff * ADDRESS_LIMIT) == high * ADDRESS_LIMIT
  {
    AndSplit40(high, mid, 0xfff, 0);
    LowTwelve(high);
    AndZero(mid);
  }

  lemma JoinLowTwelve(x: nat, low: nat, y: nat, r: nat)
    requires low < 0x1000 && And(x, y) == r
    ensures And(x * 0x1000 + low, y * 0x1000 + 0xfff) == r * 0x1000 + low
  {
    AndSplit12(x, low, y, 0xfff);
    LowTwelve(low);
  }

  lemma KeptFields(v: u64)
    ensures And(v, KEEP_MASK) == v / 0x10_0000_0000_0000 * 0x10_0000_0000_0000 + v % 0x1000
  {
    var high, mid, low := v / 0x10_0000_0000_0000, v / 0x1000 % ADDRESS_LIMIT, v % 0x1000;
    assert (high * ADDRESS_LIMIT + mid) * 0x1000 + low == v;
    HighMask(high, mid);
    JoinLowTwelve(high * ADDRESS_LIMIT + mid, low, 0xfff * ADDRESS_LIMIT, high * ADDRESS_LIMIT);
  }

  lemma FieldsDisjoint(high: nat, field: nat, low: nat)
    requires field < ADDRESS_LIMIT && low < 0x1000
    ensures And(high * ADDRESS_LIMIT * 0x1000 + low, field * 0x1000) == 0
  {
    AndSplit12(high * ADDRESS_LIMIT, low, field, 0);
    AndSplit40(high, 0, 0, field);
    AndZero(high);
    AndZero(low);
  }

  lemma InsertField(high: nat, field: nat, low: nat)
    requires field < ADDRESS_LIMIT && low < 0x1000
    ensures Or(high * 0x10_0000_0000_0000 + low, field * 0x1000) == high * 0x10_0000_0000_0000 + field * 0x1000 + low
  {
    FieldsDisjoint(high, field, low);
    var x := high * 0x10_0000_0000_0000 + low;
    assert x == high * ADDRESS_LIMIT * 0x1000 + low;
    OrDisjoint(x, field * 0x1000);
  }

  lemma FortyBits(a: nat)
    ensures And(a, ADDRESS_LIMIT - 1) == a % ADDRESS_LIMIT
  {
    PowerValues();
    AndLowMask(a, 40);
  }

  /** `SetAddress` replaces bits 12 to 51 by the low forty bits of its argument and keeps
      the twelve bits on either side. */
  lemma AddressFields(v: u64, a: u64)
    ensures Or(And(v, KEEP_MASK), And(a, ADDRESS_LIMIT - 1) * 0x1000) == FieldSum(v, a) < TWO_64
  {
    KeptFields(v);
    FortyBits(a);
    InsertField(v / 0x10_0000_0000_0000, a % ADDRESS_LIMIT, v % 0x1000);
    FieldParts(v, a);
  }

  /** The high twelve bits, the new address field, and the low twelve bits. */
  function FieldSum(v: u64, a: u64): nat {
    v / 0x10_0000_0000_0000 * 0x10_0000_0000_0000 + a % ADDRESS_LIMIT * 0x1000 + v % 0x1000
  }

  lemma FieldParts(v: u64, a: u64)
    ensures FieldSum(v, a) < TWO_64
    ensures FieldSum(v, a) / 0x1000 % ADDRESS_LIMIT == a % ADDRESS_LIMIT
    ensures FieldSum(v, a) % 0x1000 == v % 0x1000
  {
  }

  /** `GetAddress` returns what `SetAddress` stored, cut to forty bits. */
  lemma AddressRoundTrip(v: u64, a: u64)
    ensures Address(WithAddress(v, a)) == a % ADDRESS_LIMIT
  {
    AddressFields(v, a);
    FieldParts(v, a);
    AddressField(WithAddress(v, a));
  }

  /** `SetFlag` changes its own bit and no other. */
  lemma FlagBits(v: u64, flag: nat, enabled: bool, j: nat)
    requires flag < 64
    ensures Bit(WithFlag(v, flag, enabled), j) == if j == flag then enabled else Bit(v, j)
  {
    SelectorFits(v, flag);
    ClearOneBit(v, flag, 64, j);
    OrOneBit(And(v, Not64(Pow2(flag))), flag, j);
  }

  lemma AllFlagBits(v: u64, flag: nat, enabled: bool)
    requires flag < 64
    ensures forall j: nat :: Bit(WithFlag(v, flag, enabled), j) == if j == flag then enabled else Bit(v, j)
  {
    forall j: nat
      ensures Bit(WithFlag(v, flag, enabled), j) == if j == flag then enabled else Bit(v, j)
    {
      FlagBits(v, flag, enabled, j);
    }
  }

  /** Its bits determine the entry. */
  lemma FlagDetermined(v: u64, flag: nat, enabled: bool, w: u64)
    requires flag < 64 && forall j: nat :: Bit(w, j) == if j == flag then enabled else Bit(v, j)
    ensures w == WithFlag(v, flag, enabled)
  {
    forall j: nat
      ensures Bit(w, j) == Bit(WithFlag(v, flag, enabled), j)
    {
      FlagBits(v, flag, enabled, j);
    }
    SameBits(w, WithFlag(v, flag, enabled));
  }

  /** The flags below bit 12 are outside the address field. */
  lemma FlagKeepsAddress(v: u64, flag: nat, enabled: bool)
    requires flag < 12
    ensures Address(WithFlag(v, flag, enabled)) == Address(v)
  {
    var w := WithFlag(v, flag, enabled);
    forall j: nat
      ensures Bit(Shr(w, 12), j) == Bit(Shr(v, 12), j)
    {
      ShrBit(w, 12, j);
      ShrBit(v, 12, j);
      FlagBits(v, flag, enabled, 12 + j);
    }
    SameBits(Shr(w, 12), Shr(v, 12));
    ShrTwelve(w);
    ShrTwelve(v);
    AddressField(w);
    AddressField(v);
  }

  lemma ShrTwelve(x: nat)
    ensures Shr(x, 12) == x / 0x1000
  {
    PowerValues();
    ShrDivides(x, 12);
  }

  /** `SetAddress` leaves the twelve low and the twelve high bits alone. */
  lemma {:induction false} AddressKeepsFlags(v: u64, a: u64, j: nat)
    requires j < 12 || 52 <= j
    ensures Bit(WithAddress(v, a), j) == Bit(v, j)
  {
    AddressFields(v, a);
    var w := WithAddress(v, a);
    PowerValues();
    FieldParts(v, a);
    if j < 12 {
      LowBits(w, 12, j);
      LowBits(v, 12, j);
    } else {
      ShrBit(w, 52, j - 52);
      ShrBit(v, 52, j - 52);
      ShrHigh(w);
      ShrHigh(v);
      HighPart(v, a);
    }
  }

  lemma HighPart(v: u64, a: u64)
    ensures FieldSum(v, a) / 0x10_0000_0000_0000 == v / 0x10_0000_0000_0000
  {
  }

  lemma ShrHigh(x: nat)
    ensures Shr(x, 52) == x / 0x10_0000_0000_0000
  {
    PowerValues();
    PowSplit(12, 40);
    ShrDivides(x, 52);
  }

  lemma {:induction false} LowBits(x: nat, k: nat, j: nat)
    requires j < k
    ensures Bit(x, j) == Bit(x % Pow2(k), j)
  {
    AndLowMask(x, k);
    AndBit(x, Pow2(k) - 1, j);
    OnesBit(k, j);
  }

  // ----- entries that point to a frame

  /** Entry `e'` is `e` pointed to frame `f`: present, writable, every other bit as it was. */
  ghost predicate PointsTo(e: u64, e': u64, f: nat) {
    && Address(e') == f % ADDRESS_LIMIT
    && Bit(e', PRESENT) && Bit(e', READ_WRITE)
    && forall j: nat | 2 <= j < 12 || 52 <= j :: Bit(e', j) == Bit(e, j)
  }

  /** Nothing, or present and writable with no other flag. */
  predicate PlainEntry(e: u64) {
    e == 0 || e == Address(e) * 0x1000 + 3
  }

  lemma ThreeBits(j: nat)
    ensures Bit(3, j) <==> j < 2
  {
    PowerValues();
    OnesBit(2, j);
    assert Pow2(2) == 4;
  }

  /** The flags of `a * 0x1000 + 3`. */
  lemma PlainBits(a: nat, j: nat)
    requires a < ADDRESS_LIMIT
    ensures j < 12 ==> (Bit(a * 0x1000 + 3, j) <==> j < 2)
    ensures 52 <= j ==> !Bit(a * 0x1000 + 3, j)
  {
    hide *;
    if j < 12 {
      PlainLow(a, j);
    } else if 52 <= j {
      PlainHigh(a, j);
    }
  }

  lemma PlainLow(a: nat, j: nat)
    requires j < 12
    ensures Bit(a * 0x1000 + 3, j) <==> j < 2
  {
    hide Bit;
    PowerValues();
    LowBits(a * 0x1000 + 3, 12, j);
    ThreeBits(j);
  }

  lemma PlainHigh(a: nat, j: nat)
    requires a < ADDRESS_LIMIT && 52 <= j
    ensures !Bit(a * 0x1000 + 3, j)
  {
    hide Bit, Shr;
    ShrBit(a * 0x1000 + 3, 52, j - 52);
    ShrHigh(a * 0x1000 + 3);
    ZeroBit(j - 52);
  }

  /** Pointing a plain entry to frame `f` leaves exactly the frame's address and the two flags. */
  lemma PointedPlain(e: u64, e': u64, f: nat)
    requires PlainEntry(e) && PointsTo(e, e', f)
    ensures e' == f % ADDRESS_LIMIT * 0x1000 + 3 && PlainEntry(e')
  {
    LowThree(e, e', f);
    HighZero(e, e', f);
    hide Bit, And;
    AddressField(e');
    assert e' == e' / 0x10_0000_0000_0000 * 0x10_0000_0000_0000 + e' / 0x1000 % ADDRESS_LIMIT * 0x1000 + e' % 0x1000;
    AddressOfPlain(f % ADDRESS_LIMIT);
  }

  lemma AddressOfPlain(a: nat)
    requires a < ADDRESS_LIMIT
    ensures a * 0x1000 + 3 < TWO_64 && Address(a * 0x1000 + 3) == a
  {
    hide And;
    AddressField(a * 0x1000 + 3);
  }

  lemma PlainFlag(e: u64, j: nat)
    requires PlainEntry(e) && (2 <= j < 12 || 52 <= j)
    ensures !Bit(e, j)
  {
    if e == 0 {
      ZeroBit(j);
    } else {
      PlainBits(Address(e), j);
    }
  }

  lemma LowThree(e: u64, e': u64, f: nat)
    requires PlainEntry(e) && PointsTo(e, e', f)
    ensures e' % 0x1000 == 3
  {
    hide Address;
    PowerValues();
    forall j: nat
      ensures Bit(e' % 0x1000, j) == Bit(3, j)
    {
      ThreeBits(j);
      if j < 12 {
        LowBits(e', 12, j);
        if j >= 2 {
          PlainFlag(e, j);
        }
      } else if Bit(e' % 0x1000, j) {
        BitBound(e' % 0x1000, 12, j);
      }
    }
    SameBits(e' % 0x1000, 3);
  }

  lemma HighZero(e: u64, e': u64, f: nat)
    requires PlainEntry(e) && PointsTo(e, e', f)
    ensures e' / 0x10_0000_0000_0000 == 0
  {
    hide Address;
    forall j: nat
      ensures Bit(e' / 0x10_0000_0000_0000, j) == Bit(0, j)
    {
      ShrBit(e', 52, j);
      ShrHigh(e');
      PlainFlag(e, 52 + j);
      ZeroBit(j);
    }
    SameBits(e' / 0x10_0000_0000_0000, 0);
  }

  /** In a plain entry Present is set exactly when it is not zero, and no other flag than ReadWrite;
      in particular not bit 7, which would make it a large page. */
  lemma PlainEntryFlags(e: u64)
    requires PlainEntry(e)
    ensures Bit(e, PRESENT) <==> e != 0
    ensures Bit(e, READ_WRITE) <==> e != 0
    ensures forall j: nat | 2 <= j < 12 || 52 <= j :: !Bit(e, j)
  {
    hide Address;
    forall j: nat | 2 <= j < 12 || 52 <= j
      ensures !Bit(e, j)
    {
      PlainFlag(e, j);
    }
    if e == 0 {
      ZeroBit(PRESENT);
      ZeroBit(READ_WRITE);
    } else {
      PlainBits(Address(e), PRESENT);
      PlainBits(Address(e), READ_WRITE);
    }
  }

  /** `GetFlag` reads the flag it is asked for, on every entry, exactly when that flag is Present. */
  lemma GetFlagMeetsItsNameOnlyForPresent(flag: nat)
    requires flag < 64
    ensures (forall v: u64 :: ReadFlag(v, flag) == Bit(v, flag)) <==> flag == PRESENT
  {
    forall v: u64
      ensures ReadFlag(v, flag) == Bit(v, 0)
    {
      PresentBit(v, flag);
    }
    if flag != PRESENT {
      PresentBit(1, flag);
      if Bit(1, flag) {
        assert 1 < Pow2(1);
        BitBound(1, 1, flag);
      }
      var one: u64 := 1;
      assert ReadFlag(one, flag) != Bit(one, flag);
    }
  }

  /** For example, GetFlag takes an entry that is only Present to be writable too. */
  lemma GetFlagMisreads()
    ensures ReadFlag(1, READ_WRITE) && !Bit(1, READ_WRITE)
  {
    PresentBit(1, READ_WRITE);
  }

  lemma PresentBit(v: u64, flag: nat)
    ensures ReadFlag(v, flag) == Bit(v, 0)
  {
    PowerValues();
    AndOneBit(v, 0);
  }

  /** `struct PageDirectoryEntry`. */
  class PageDirectoryEntry {
    var Value: u64

    constructor (value: u64)
      ensures Value == value
    {
      Value := value;
    }

    method SetFlag(flag: nat, enabled: bool)
      requires flag < 64
      modifies this
      ensures forall j: nat :: Bit(Value, j) == if j == flag then enabled else Bit(old(Value), j)
    {
      hide And, Or, Bit, Pow2;
      SelectorFits(Value, flag);
      AllFlagBits(Value, flag, enabled);
      ghost var after := WithFlag(Value, flag, enabled);
      var bitSelector: u64 := Pow2(flag);
      Value := And(Value, Not64(bitSelector));
      if enabled {
        Value := Or(Value, bitSelector);
      }
      assert Value == after;
    }

    method GetFlag(flag: nat) returns (isSet: bool)
      requires flag < 64
      ensures isSet == Bit(Value, PRESENT)
    {
      PresentBit(Value, flag);
      var bitSelector := Pow2(flag);
      isSet := And(Value, Truth(bitSelector > 0)) > 0;
    }

    method GetAddress() returns (address: u64)
      ensures address == Value / 0x1000 % ADDRESS_LIMIT
    {
      AddressField(Value);
      address := And(Value, FIELD_MASK) / 0x1000;
    }

    method SetAddress(address: u64)
      modifies this
      ensures Value == FieldSum(old(Value), address)
    {
      AddressFields(Value, address);
      var field := And(address, ADDRESS_LIMIT - 1);
      Value := And(Value, KEEP_MASK);
      Value := Or(Value, field * 0x1000);
    }
  }
}

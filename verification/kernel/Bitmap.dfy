/** kernel/src/Bitmap.cpp: bits stored most significant first in the bytes of a buffer. */
module BitmapModel {
  import opened BitWords
  import opened Ram

  /** The selector byte 0b10000000 >> (i % 8). */
  function Selector(i: nat): (s: nat)
    ensures s == Pow2(7 - i % 8) <= 0x80
  {
    SelectorValue(i % 8);
    Shr(0x80, i % 8)
  }

  lemma SelectorValue(k: nat)
    requires k < 8
    ensures Shr(0x80, k) == Pow2(7 - k) <= 0x80
  {
    assert Pow2(7) == 0x80;
    ShrPower(7, k);
    if k > 0 {
      PowLess(7 - k, 7);
    }
  }

  /** Bit `i` of the bitmap at `buffer`. */
  predicate BitAt(m: seq<byte>, buffer: nat, i: nat)
    requires buffer + i / 8 < |m|
  {
    And(m[buffer + i / 8], Selector(i)) > 0
  }

  /** The first `n` bits. */
  function BitsOf(m: seq<byte>, buffer: nat, n: nat): (bits: seq<bool>)
    requires n > 0 ==> buffer + (n - 1) / 8 < |m|
    ensures |bits| == n
  {
    seq(n, i requires 0 <= i < n => BitAt(m, buffer, i))
  }

  lemma SameBitmap(m: seq<byte>, m': seq<byte>, buffer: nat, size: nat)
    requires buffer + size < |m| && SameBytes(m, m', buffer, size + 1)
    ensures BitsOf(m, buffer, size * 8 + 1) == BitsOf(m', buffer, size * 8 + 1)
  {
  }

  lemma SelectorBit(b: byte, i: nat)
    ensures And(b, Selector(i)) > 0 <==> Bit(b, 7 - i % 8)
  {
    AndOneBit(b, 7 - i % 8);
  }

  /** The byte that `Set` leaves. */
  function SetByte(b: byte, i: nat, value: bool): byte {
    SetFits(b, i);
    var cleared := And(b, 0xff - Selector(i));
    if value then Or(cleared, Selector(i)) else cleared
  }

  lemma SetFits(b: byte, i: nat)
    ensures Or(And(b, 0xff - Selector(i)), Selector(i)) < 0x100
  {
    var k := 7 - i % 8;
    var cleared := And(b, 0xff - Selector(i));
    assert Pow2(8) == 0x100;
    ClearOneBit(b, k, 8, k);
    AndOneBit(cleared, k);
    OrDisjoint(cleared, Selector(i));
  }

  lemma SetByteBits(b: byte, i: nat, value: bool, j: nat)
    ensures Bit(SetByte(b, i, value), j) == if j == 7 - i % 8 then value else Bit(b, j)
  {
    var k := 7 - i % 8;
    assert Pow2(8) == 0x100;
    ClearOneBit(b, k, 8, j);
    OrOneBit(And(b, 0xff - Selector(i)), k, j);
  }

  lemma SetByteBit(b: byte, i: nat, value: bool, j: nat)
    requires i / 8 == j / 8
    ensures And(SetByte(b, i, value), Selector(j)) > 0 <==> if i == j then value else And(b, Selector(j)) > 0
  {
    hide And, Or, SetByte, Selector, Bit;
    SelectorBit(b, j);
    SelectorBit(SetByte(b, i, value), j);
    SetByteBits(b, i, value, 7 - j % 8);
    assert i == j <==> i % 8 == j % 8;
  }

  lemma SetByteIs(b: byte, i: nat, value: bool)
    ensures 0 <= And(b, 0xff - Selector(i)) < 0x100
    ensures SetByte(b, i, value)
         == if value then Or(And(b, 0xff - Selector(i)), Selector(i)) else And(b, 0xff - Selector(i))
  {
  }

  /** Writing that byte sets the one bit. */
  lemma SetBits(m: seq<byte>, buffer: nat, size: nat, i: nat, value: bool)
    requires buffer + size < |m| && i <= size * 8
    ensures BitsOf(m[buffer + i / 8 := SetByte(m[buffer + i / 8], i, value)], buffer, size * 8 + 1)
         == BitsOf(m, buffer, size * 8 + 1)[i := value]
  {
    hide Selector, And, SetByte;
    var m' := m[buffer + i / 8 := SetByte(m[buffer + i / 8], i, value)];
    var before, after := BitsOf(m, buffer, size * 8 + 1)[i := value], BitsOf(m', buffer, size * 8 + 1);
    forall j | 0 <= j < |after|
      ensures after[j] == before[j]
    {
      if j / 8 == i / 8 {
        SetByteBit(m[buffer + i / 8], i, value, j);
      }
    }
  }

  // ----- the byte behind the buffer

  /** The byte stays as it was exactly when the bit had that value already. */
  lemma SetByteSame(b: byte, i: nat, value: bool)
    ensures SetByte(b, i, value) == b <==> (And(b, Selector(i)) > 0) == value
  {
    var c := SetByte(b, i, value);
    SetByteBit(b, i, value, i);
    if (And(b, Selector(i)) > 0) == value {
      forall j: nat
        ensures Bit(c, j) == Bit(b, j)
      {
        SetByteBits(b, i, value, j);
        SelectorBit(b, i);
      }
      BitWords.SameBits(c, b);
    }
  }

  /** What `operator[]` returns. */
  predicate Read(m: seq<byte>, buffer: nat, size: nat, i: nat)
    requires buffer + size < |m|
  {
    i <= size * 8 && BitAt(m, buffer, i)
  }

  /** `operator[]` depends on memory outside Buffer[0..Size) exactly for index Size*8. */
  lemma ReadsOutsideIff(m: seq<byte>, buffer: nat, size: nat, i: nat)
    requires buffer + size < |m|
    ensures (exists m' | SameBytes(m, m', buffer, size) :: Read(m', buffer, size, i) != Read(m, buffer, size, i))
            <==> i == size * 8
  {
    if i == size * 8 {
      var b := m[buffer + size];
      var m' := m[buffer + size := SetByte(b, i, !Read(m, buffer, size, i))];
      SetByteBit(b, i, !Read(m, buffer, size, i), i);
      assert SameBytes(m, m', buffer, size) && Read(m', buffer, size, i) != Read(m, buffer, size, i);
    }
    forall m' | SameBytes(m, m', buffer, size) && i != size * 8
      ensures Read(m', buffer, size, i) == Read(m, buffer, size, i)
    {
    }
  }

  /** The write of `Set` leaves Buffer[0..Size) exactly when the index is Size*8 and the bit there
      changes. */
  lemma WritesOutsideIff(m: seq<byte>, buffer: nat, size: nat, i: nat, value: bool)
    requires buffer + size < |m| && i <= size * 8
    ensures SameOutside(m, m[buffer + i / 8 := SetByte(m[buffer + i / 8], i, value)], buffer, size)
            <==> !(i == size * 8 && BitAt(m, buffer, i) != value)
  {
    hide Selector, And, SetByte;
    SetByteSame(m[buffer + i / 8], i, value);
  }

  /** For example, with one byte of bitmap, index 8 sets the top bit of the next byte. */
  lemma SetPastEnd()
    ensures var m: seq<byte> := [0, 0];
            !Read(m, 0, 1, 8) && SetByte(m[1], 8, true) == 0x80
  {
    assert Selector(8) == Shr(0x80, 0) == 0x80;
    assert Or(0, 0x80) == 0x80;
  }

  class Bitmap {
    const ram: array<byte>
    var Size: nat
    var Buffer: nat

    constructor (ram: array<byte>)
      ensures this.ram == ram && Size == 0 && Buffer == 0
    {
      this.ram := ram;
      Size, Buffer := 0, 0;
    }

    /** The byte at Buffer[Size] is within reach: both bound tests admit index Size*8. */
    ghost predicate Valid()
      reads this
    {
      Buffer + Size < ram.Length
    }

    ghost function Bits(): (bits: seq<bool>)
      requires Valid()
      reads this, ram
      ensures |bits| == Size * 8 + 1
    {
      BitsOf(ram[..], Buffer, Size * 8 + 1)
    }

    /** `operator[]`. */
    method Get(index: nat) returns (bit: bool)
      requires Valid()
      ensures bit == (index <= Size * 8 && Bits()[index]) == Read(ram[..], Buffer, Size, index)
    {
      if index > Size * 8 {
        return false;
      }
      var byteIndex := index / 8;
      var bitIndexer := Selector(index);
      bit := And(ram[Buffer + byteIndex], bitIndexer) > 0;
    }

    method Set(index: nat, value: bool) returns (done: bool)
      requires Valid()
      modifies ram
      ensures done == (index <= Size * 8)
      ensures Bits() == if done then old(Bits())[index := value] else old(Bits())
      ensures SameOutside(old(ram[..]), ram[..], Buffer, Size + 1)
      ensures SameOutside(old(ram[..]), ram[..], Buffer, Size)
              <==> !(index == Size * 8 && old(Bits())[index] != value)
    {
      hide Selector, And, Or, SetByte;
      if index > Size * 8 {
        return false;
      }
      var byteIndex := index / 8;
      var bitIndexer := Selector(index);
      ghost var m, before := ram[..], ram[Buffer + byteIndex];
      SetByteIs(before, index, value);
      ram[Buffer + byteIndex] := And(ram[Buffer + byteIndex], 0xff - bitIndexer);
      if value {
        ram[Buffer + byteIndex] := Or(ram[Buffer + byteIndex], bitIndexer);
      }
      assert ram[..] == m[Buffer + byteIndex := SetByte(before, index, value)];
      SetBits(m, Buffer, Size, index, value);
      WritesOutsideIff(m, Buffer, Size, index, value);
      done := true;
    }
  }
}

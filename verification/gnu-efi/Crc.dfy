/** gnu-efi/lib/crc.c: the table-driven CRC-32 of EFI table headers (UEFI Specification, section
    4.2), against the bit-serial reflected CRC-32 it abbreviates. */
module Crc {

  type Byte = bv8

  // ----- one bit, one byte

  /** One step of the reflected division by the polynomial 0x04C11DB7. */
  function BitStep(c: bv32): bv32 {
    if c & 1 == 1 then (c >> 1) ^ 0xEDB88320 else c >> 1
  }

  function ByteStep(c: bv32): bv32 {
    BitStep(BitStep(BitStep(BitStep(BitStep(BitStep(BitStep(BitStep(c))))))))
  }

  function Pick(i: bv8, t0: bv32, t1: bv32, t2: bv32, t3: bv32, t4: bv32, t5: bv32, t6: bv32, t7: bv32): bv32 {
    var k := i & 7;
    if k == 0 then t0 else if k == 1 then t1 else if k == 2 then t2 else if k == 3 then t3
    else if k == 4 then t4 else if k == 5 then t5 else if k == 6 then t6 else t7
  }

  /** CRCTable, eight entries to a row. */
  function CRCTable(i: bv8): bv32 {
    if i < 0x08 then        Pick(i, 0x00000000, 0x77073096, 0xEE0E612C, 0x990951BA,
                                    0x076DC419, 0x706AF48F, 0xE963A535, 0x9E6495A3)
    else if i < 0x10 then   Pick(i, 0x0EDB8832, 0x79DCB8A4, 0xE0D5E91E, 0x97D2D988,
                                    0x09B64C2B, 0x7EB17CBD, 0xE7B82D07, 0x90BF1D91)
    else if i < 0x18 then   Pick(i, 0x1DB71064, 0x6AB020F2, 0xF3B97148, 0x84BE41DE,
                                    0x1ADAD47D, 0x6DDDE4EB, 0xF4D4B551, 0x83D385C7)
    else if i < 0x20 then   Pick(i, 0x136C9856, 0x646BA8C0, 0xFD62F97A, 0x8A65C9EC,
                                    0x14015C4F, 0x63066CD9, 0xFA0F3D63, 0x8D080DF5)
    else if i < 0x28 then   Pick(i, 0x3B6E20C8, 0x4C69105E, 0xD56041E4, 0xA2677172,
                                    0x3C03E4D1, 0x4B04D447, 0xD20D85FD, 0xA50AB56B)
    else if i < 0x30 then   Pick(i, 0x35B5A8FA, 0x42B2986C, 0xDBBBC9D6, 0xACBCF940,
                                    0x32D86CE3, 0x45DF5C75, 0xDCD60DCF, 0xABD13D59)
    else if i < 0x38 then   Pick(i, 0x26D930AC, 0x51DE003A, 0xC8D75180, 0xBFD06116,
                                    0x21B4F4B5, 0x56B3C423, 0xCFBA9599, 0xB8BDA50F)
    else if i < 0x40 then   Pick(i, 0x2802B89E, 0x5F058808, 0xC60CD9B2, 0xB10BE924,
                                    0x2F6F7C87, 0x58684C11, 0xC1611DAB, 0xB6662D3D)
    else if i < 0x48 then   Pick(i, 0x76DC4190, 0x01DB7106, 0x98D220BC, 0xEFD5102A,
                                    0x71B18589, 0x06B6B51F, 0x9FBFE4A5, 0xE8B8D433)
    else if i < 0x50 then   Pick(i, 0x7807C9A2, 0x0F00F934, 0x9609A88E, 0xE10E9818,
                                    0x7F6A0DBB, 0x086D3D2D, 0x91646C97, 0xE6635C01)
    else if i < 0x58 then   Pick(i, 0x6B6B51F4, 0x1C6C6162, 0x856530D8, 0xF262004E,
                                    0x6C0695ED, 0x1B01A57B, 0x8208F4C1, 0xF50FC457)
    else if i < 0x60 then   Pick(i, 0x65B0D9C6, 0x12B7E950, 0x8BBEB8EA, 0xFCB9887C,
                                    0x62DD1DDF, 0x15DA2D49, 0x8CD37CF3, 0xFBD44C65)
    else if i < 0x68 then   Pick(i, 0x4DB26158, 0x3AB551CE, 0xA3BC0074, 0xD4BB30E2,
                                    0x4ADFA541, 0x3DD895D7, 0xA4D1C46D, 0xD3D6F4FB)
    else if i < 0x70 then   Pick(i, 0x4369E96A, 0x346ED9FC, 0xAD678846, 0xDA60B8D0,
                                    0x44042D73, 0x33031DE5, 0xAA0A4C5F, 0xDD0D7CC9)
    else if i < 0x78 then   Pick(i, 0x5005713C, 0x270241AA, 0xBE0B1010, 0xC90C2086,
                                    0x5768B525, 0x206F85B3, 0xB966D409, 0xCE61E49F)
    else if i < 0x80 then   Pick(i, 0x5EDEF90E, 0x29D9C998, 0xB0D09822, 0xC7D7A8B4,
                                    0x59B33D17, 0x2EB40D81, 0xB7BD5C3B, 0xC0BA6CAD)
    else if i < 0x88 then   Pick(i, 0xEDB88320, 0x9ABFB3B6, 0x03B6E20C, 0x74B1D29A,
                                    0xEAD54739, 0x9DD277AF, 0x04DB2615, 0x73DC1683)
    else if i < 0x90 then   Pick(i, 0xE3630B12, 0x94643B84, 0x0D6D6A3E, 0x7A6A5AA8,
                                    0xE40ECF0B, 0x9309FF9D, 0x0A00AE27, 0x7D079EB1)
    else if i < 0x98 then   Pick(i, 0xF00F9344, 0x8708A3D2, 0x1E01F268, 0x6906C2FE,
                                    0xF762575D, 0x806567CB, 0x196C3671, 0x6E6B06E7)
    else if i < 0xA0 then   Pick(i, 0xFED41B76, 0x89D32BE0, 0x10DA7A5A, 0x67DD4ACC,
                                    0xF9B9DF6F, 0x8EBEEFF9, 0x17B7BE43, 0x60B08ED5)
    else if i < 0xA8 then   Pick(i, 0xD6D6A3E8, 0xA1D1937E, 0x38D8C2C4, 0x4FDFF252,
                                    0xD1BB67F1, 0xA6BC5767, 0x3FB506DD, 0x48B2364B)
    else if i < 0xB0 then   Pick(i, 0xD80D2BDA, 0xAF0A1B4C, 0x36034AF6, 0x41047A60,
                                    0xDF60EFC3, 0xA867DF55, 0x316E8EEF, 0x4669BE79)
    else if i < 0xB8 then   Pick(i, 0xCB61B38C, 0xBC66831A, 0x256FD2A0, 0x5268E236,
                                    0xCC0C7795, 0xBB0B4703, 0x220216B9, 0x5505262F)
    else if i < 0xC0 then   Pick(i, 0xC5BA3BBE, 0xB2BD0B28, 0x2BB45A92, 0x5CB36A04,
                                    0xC2D7FFA7, 0xB5D0CF31, 0x2CD99E8B, 0x5BDEAE1D)
    else if i < 0xC8 then   Pick(i, 0x9B64C2B0, 0xEC63F226, 0x756AA39C, 0x026D930A,
                                    0x9C0906A9, 0xEB0E363F, 0x72076785, 0x05005713)
    else if i < 0xD0 then   Pick(i, 0x95BF4A82, 0xE2B87A14, 0x7BB12BAE, 0x0CB61B38,
                                    0x92D28E9B, 0xE5D5BE0D, 0x7CDCEFB7, 0x0BDBDF21)
    else if i < 0xD8 then   Pick(i, 0x86D3D2D4, 0xF1D4E242, 0x68DDB3F8, 0x1FDA836E,
                                    0x81BE16CD, 0xF6B9265B, 0x6FB077E1, 0x18B74777)
    else if i < 0xE0 then   Pick(i, 0x88085AE6, 0xFF0F6A70, 0x66063BCA, 0x11010B5C,
                                    0x8F659EFF, 0xF862AE69, 0x616BFFD3, 0x166CCF45)
    else if i < 0xE8 then   Pick(i, 0xA00AE278, 0xD70DD2EE, 0x4E048354, 0x3903B3C2,
                                    0xA7672661, 0xD06016F7, 0x4969474D, 0x3E6E77DB)
    else if i < 0xF0 then   Pick(i, 0xAED16A4A, 0xD9D65ADC, 0x40DF0B66, 0x37D83BF0,
                                    0xA9BCAE53, 0xDEBB9EC5, 0x47B2CF7F, 0x30B5FFE9)
    else if i < 0xF8 then   Pick(i, 0xBDBDF21C, 0xCABAC28A, 0x53B39330, 0x24B4A3A6,
                                    0xBAD03605, 0xCDD70693, 0x54DE5729, 0x23D967BF)
    else                    Pick(i, 0xB3667A2E, 0xC4614AB8, 0x5D681B02, 0x2A6F2B94,
                                    0xB40BBE37, 0xC30C8EA1, 0x5A05DF1B, 0x2D02EF8D)
  }

  /** Every table entry is eight bit steps of its index. */
  lemma TableIsEightBitSteps(i: bv8)
    ensures CRCTable(i) == ByteStep(i as bv32)
  {
    hide CRCTable, ByteStep;
    if i < 0x20 {
      TableRows0(i);
    } else if i < 0x40 {
      TableRows1(i);
    } else if i < 0x60 {
      TableRows2(i);
    } else if i < 0x80 {
      TableRows3(i);
    } else if i < 0xA0 {
      TableRows4(i);
    } else if i < 0xC0 {
      TableRows5(i);
    } else if i < 0xE0 {
      TableRows6(i);
    } else {
      TableRows7(i);
    }
  }

  lemma TableRows0(i: bv8)
    requires i < 0x20
    ensures CRCTable(i) == ByteStep(i as bv32)
  {
    if i < 0x10 {
      if i < 0x08 {
      } else {
      }
    } else {
      if i < 0x18 {
      } else {
      }
    }
  }

  lemma TableRows1(i: bv8)
    requires 0x20 <= i < 0x40
    ensures CRCTable(i) == ByteStep(i as bv32)
  {
    if i < 0x30 {
      if i < 0x28 {
      } else {
      }
    } else {
      if i < 0x38 {
      } else {
      }
    }
  }

  lemma TableRows2(i: bv8)
    requires 0x40 <= i < 0x60
    ensures CRCTable(i) == ByteStep(i as bv32)
  {
    if i < 0x50 {
      if i < 0x48 {
      } else {
      }
    } else {
      if i < 0x58 {
      } else {
      }
    }
  }

  lemma TableRows3(i: bv8)
    requires 0x60 <= i < 0x80
    ensures CRCTable(i) == ByteStep(i as bv32)
  {
    if i < 0x70 {
      if i < 0x68 {
      } else {
      }
    } else {
      if i < 0x78 {
      } else {
      }
    }
  }

  lemma TableRows4(i: bv8)
    requires 0x80 <= i < 0xA0
    ensures CRCTable(i) == ByteStep(i as bv32)
  {
    if i < 0x90 {
      if i < 0x88 {
      } else {
      }
    } else {
      if i < 0x98 {
      } else {
      }
    }
  }

  lemma TableRows5(i: bv8)
    requires 0xA0 <= i < 0xC0
    ensures CRCTable(i) == ByteStep(i as bv32)
  {
    if i < 0xB0 {
      if i < 0xA8 {
      } else {
      }
    } else {
      if i < 0xB8 {
      } else {
      }
    }
  }

  lemma TableRows6(i: bv8)
    requires 0xC0 <= i < 0xE0
    ensures CRCTable(i) == ByteStep(i as bv32)
  {
    if i < 0xD0 {
      if i < 0xC8 {
      } else {
      }
    } else {
      if i < 0xD8 {
      } else {
      }
    }
  }

  lemma TableRows7(i: bv8)
    requires 0xE0 <= i
    ensures CRCTable(i) == ByteStep(i as bv32)
  {
    if i < 0xF0 {
      if i < 0xE8 {
      } else {
      }
    } else {
      if i < 0xF8 {
      } else {
      }
    }
  }

  // ----- the reference: a shift register fed one bit at a time

  function FeedBit(c: bv32, bit: bool): bv32 {
    if (c & 1 == 1) != bit then (c >> 1) ^ 0xEDB88320 else c >> 1
  }

  function FeedBits(c: bv32, bits: seq<bool>): bv32
    decreases |bits|
  {
    if bits == [] then c else FeedBits(FeedBit(c, bits[0]), bits[1..])
  }

  /** The bits of a byte, least significant first. */
  function BitsOf(b: Byte): (bits: seq<bool>)
    ensures |bits| == 8
  {
    [b & 1 == 1, b & 2 == 2, b & 4 == 4, b & 8 == 8, b & 0x10 == 0x10, b & 0x20 == 0x20, b & 0x40 == 0x40,
     b & 0x80 == 0x80]
  }

  function FeedByte(c: bv32, b: Byte): bv32 {
    FeedBits(c, BitsOf(b))
  }

  function Feed(c: bv32, data: seq<Byte>): bv32
    decreases |data|
  {
    if data == [] then c else Feed(FeedByte(c, data[0]), data[1..])
  }

  /** CRC-32: register all ones at the start, inverted at the end. */
  function Crc32(data: seq<Byte>): bv32 {
    Xor(Feed(0xFFFF_FFFF, data), 0xFFFF_FFFF)
  }

  // The operators under names, so that proofs can treat them as symbols.

  function Xor(x: bv32, y: bv32): bv32 {
    x ^ y
  }

  predicate LowSet(x: bv32) {
    x & 1 == 1
  }

  function Half(x: bv32): bv32 {
    x >> 1
  }

  function Wide(b: Byte): bv32 {
    b as bv32
  }

  function Low(c: bv32): Byte {
    (c & 0xFF) as bv8
  }

  function Up(c: bv32): bv32 {
    c << 8
  }

  function Down(c: bv32): bv32 {
    c >> 8
  }

  // ----- eight bits fed one by one are one byte added and eight steps

  /** The bit may be added to the register first, together with the bits behind it. */
  lemma BitAtOnce(c: bv32, w: bv32)
    ensures BitStep(Xor(c, w)) == Xor(FeedBit(c, LowSet(w)), Half(w))
  {
    XorShift(c, w);
    XorLow(c, w);
    var a, b, p := Half(c), Half(w), 0xEDB88320;
    XorMoves(a, b, p);
    StepIs(Xor(c, w));
    FeedIs(c, LowSet(w));
    hide Xor, Half, LowSet, BitStep, FeedBit;
  }

  lemma StepIs(c: bv32)
    ensures BitStep(c) == if LowSet(c) then Xor(Half(c), 0xEDB88320) else Half(c)
  {
  }

  lemma FeedIs(c: bv32, bit: bool)
    ensures FeedBit(c, bit) == if LowSet(c) != bit then Xor(Half(c), 0xEDB88320) else Half(c)
  {
  }

  lemma XorShift(x: bv32, y: bv32)
    ensures Half(Xor(x, y)) == Xor(Half(x), Half(y))
  {
  }

  lemma XorLow(x: bv32, y: bv32)
    ensures LowSet(Xor(x, y)) == (LowSet(x) != LowSet(y))
  {
  }

  lemma XorMoves(x: bv32, y: bv32, p: bv32)
    ensures Xor(Xor(x, y), p) == Xor(Xor(x, p), y)
    ensures Xor(Xor(x, y), p) == Xor(x, Xor(y, p))
    ensures Xor(Xor(x, p), Xor(y, p)) == Xor(x, y)
  {
    hide Xor;
    XorAssociates(x, y, p);
    XorAssociates(x, p, y);
    XorCommutes(y, p);
    XorCancels(x, y, p);
  }

  lemma XorCommutes(x: bv32, y: bv32)
    ensures Xor(x, y) == Xor(y, x)
  {
    assert x ^ y == y ^ x;
  }

  lemma XorAssociates(x: bv32, y: bv32, p: bv32)
    ensures Xor(Xor(x, y), p) == Xor(x, Xor(y, p))
  {
    assert (x ^ y) ^ p == x ^ (y ^ p);
  }

  lemma XorCancels(x: bv32, y: bv32, p: bv32)
    ensures Xor(Xor(x, p), Xor(y, p)) == Xor(x, y)
  {
    assert (x ^ p) ^ (y ^ p) == x ^ y;
  }

  /** What is left of a byte after `k` of its bits have been fed. */
  function Rest(b: Byte, k: nat): bv32
    requires k <= 8
  {
    if k == 0 then Wide(b) else Half(Rest(b, k - 1))
  }

  lemma RestBits(b: Byte)
    ensures Rest(b, 8) == 0
    ensures forall k | 0 <= k < 8 :: BitsOf(b)[k] == LowSet(Rest(b, k))
  {
    BitValues(b);
    hide BitsOf, Half, LowSet, Wide;
    var w1 := Half(Wide(b));
    var w2 := Half(w1);
    var w3 := Half(w2);
    var w4 := Half(w3);
    var w5 := Half(w4);
    var w6 := Half(w5);
    var w7 := Half(w6);
    assert Rest(b, 1) == w1;
    assert Rest(b, 2) == w2;
    assert Rest(b, 3) == w3;
    assert Rest(b, 4) == w4;
    assert Rest(b, 5) == w5;
    assert Rest(b, 6) == w6;
    assert Rest(b, 7) == w7;
  }

  lemma BitValues(b: Byte)
    ensures var w1 := Half(Wide(b));
            var w2 := Half(w1);
            var w3 := Half(w2);
            var w4 := Half(w3);
            var w5 := Half(w4);
            var w6 := Half(w5);
            var w7 := Half(w6);
            && BitsOf(b) == [LowSet(Wide(b)), LowSet(w1), LowSet(w2), LowSet(w3), LowSet(w4), LowSet(w5), LowSet(w6),
              LowSet(w7)]
            && Half(w7) == 0
  {
  }

  function Steps(c: bv32, n: nat): bv32
    decreases n
  {
    if n == 0 then c else Steps(BitStep(c), n - 1)
  }

  lemma {:induction false} BitsAtOnce(c: bv32, b: Byte, k: nat)
    requires k <= 8
    ensures Steps(Xor(c, Rest(b, k)), 8 - k) == Xor(FeedBits(c, BitsOf(b)[k..]), Rest(b, 8))
    decreases 8 - k
  {
    hide BitStep, FeedBit, Xor, BitsOf, Half, LowSet, Wide;
    RestBits(b);
    if k < 8 {
      BitAtOnce(c, Rest(b, k));
      var c' := FeedBit(c, BitsOf(b)[k]);
      BitsAtOnce(c', b, k + 1);
      assert BitsOf(b)[k..][1..] == BitsOf(b)[k + 1..];
    } else {
      assert BitsOf(b)[8..] == [];
    }
  }

  lemma ByteAtOnce(c: bv32, b: Byte)
    ensures FeedByte(c, b) == ByteStep(Xor(c, Wide(b)))
  {
    BitsAtOnce(c, b, 0);
    EightSteps(Xor(c, Wide(b)));
    hide BitStep, FeedBits, ByteStep, Xor, BitsOf;
    RestBits(b);
    assert BitsOf(b)[0..] == BitsOf(b);
    XorZero(FeedByte(c, b));
  }

  lemma EightSteps(c: bv32)
    ensures Steps(c, 8) == ByteStep(c)
  {
    hide BitStep;
    var c2 := BitStep(BitStep(c));
    var c4 := BitStep(BitStep(c2));
    var c6 := BitStep(BitStep(c4));
    assert Steps(c, 8) == Steps(c2, 6) && Steps(c2, 6) == Steps(c4, 4) && Steps(c4, 4) == Steps(c6, 2);
  }

  lemma XorZero(x: bv32)
    ensures Xor(x, 0) == x
  {
  }

  lemma {:induction false} FeedOne(c: bv32, data: seq<Byte>, b: Byte)
    ensures Feed(c, data + [b]) == FeedByte(Feed(c, data), b)
    decreases |data|
  {
    hide FeedByte;
    if data == [] {
      assert Feed(c, [b]) == Feed(FeedByte(c, b), []);
    } else {
      assert (data + [b])[1..] == data[1..] + [b];
      FeedOne(FeedByte(c, data[0]), data[1..], b);
    }
  }

  lemma {:induction false} FeedConcat(c: bv32, a: seq<Byte>, b: seq<Byte>)
    ensures Feed(c, a + b) == Feed(Feed(c, a), b)
    decreases |a|
  {
    hide FeedByte;
    if a == [] {
      assert a + b == b;
    } else {
      assert (a + b)[1..] == a[1..] + b;
      FeedConcat(FeedByte(c, a[0]), a[1..], b);
    }
  }

  // ----- the register as a linear, invertible map

  lemma StepLinear(x: bv32, y: bv32)
    ensures BitStep(Xor(x, y)) == Xor(BitStep(x), BitStep(y))
  {
    XorShift(x, y);
    XorLow(x, y);
    XorMoves(Half(x), Half(y), 0xEDB88320);
    StepIs(x);
    StepIs(y);
    StepIs(Xor(x, y));
    hide Xor, Half, LowSet, BitStep;
  }

  lemma {:induction false} StepsLinear(x: bv32, y: bv32, n: nat)
    ensures Steps(Xor(x, y), n) == Xor(Steps(x, n), Steps(y, n))
    decreases n
  {
    hide BitStep, Xor;
    if n > 0 {
      StepLinear(x, y);
      StepsLinear(BitStep(x), BitStep(y), n - 1);
    }
  }

  lemma Linear(x: bv32, y: bv32)
    ensures ByteStep(Xor(x, y)) == Xor(ByteStep(x), ByteStep(y))
  {
    hide ByteStep, Steps, Xor;
    StepsLinear(x, y, 8);
    EightSteps(x);
    EightSteps(y);
    EightSteps(Xor(x, y));
  }

  /** Eight steps shift out eight zero bits. */
  lemma ShiftOut(v: bv32)
    requires v < 0x100_0000
    ensures ByteStep(Up(v)) == v
  {
  }

  lemma StepInjective(x: bv32, y: bv32)
    requires BitStep(x) == BitStep(y)
    ensures x == y
  {
  }

  lemma {:induction false} StepsInjective(x: bv32, y: bv32, n: nat)
    requires Steps(x, n) == Steps(y, n)
    ensures x == y
    decreases n
  {
    hide BitStep;
    if n > 0 {
      StepsInjective(BitStep(x), BitStep(y), n - 1);
      StepInjective(x, y);
    }
  }

  lemma Injective(x: bv32, y: bv32)
    requires ByteStep(x) == ByteStep(y)
    ensures x == y
  {
    hide ByteStep, Steps;
    EightSteps(x);
    EightSteps(y);
    StepsInjective(x, y, 8);
  }

  lemma Cancel(x: bv32, y: bv32, z: bv32)
    requires Xor(x, z) == Xor(y, z)
    ensures x == y
  {
  }

  /** Different registers stay different over any data. */
  lemma {:induction false} StateInjective(c: bv32, d: bv32, data: seq<Byte>)
    requires Feed(c, data) == Feed(d, data)
    ensures c == d
    decreases |data|
  {
    hide FeedByte, ByteStep, Xor, Wide;
    if data != [] {
      ByteAtOnce(c, data[0]);
      ByteAtOnce(d, data[0]);
      StateInjective(FeedByte(c, data[0]), FeedByte(d, data[0]), data[1..]);
      Injective(Xor(c, Wide(data[0])), Xor(d, Wide(data[0])));
      Cancel(c, d, Wide(data[0]));
    }
  }

  // ----- bursts

  /** The difference of two short strings, packed into one register, first byte lowest. */
  function Difference(a: seq<Byte>, b: seq<Byte>): bv32
    requires |a| == |b| <= 4
  {
    if a == [] then 0 else Xor(Xor(Wide(a[0]), Wide(b[0])), Up(Difference(a[1..], b[1..])))
  }

  lemma {:induction false} DifferenceFits(a: seq<Byte>, b: seq<Byte>)
    requires |a| == |b| <= 3
    ensures Difference(a, b) < 0x100_0000
    ensures |a| <= 2 ==> Difference(a, b) < 0x1_0000
    ensures |a| <= 1 ==> Difference(a, b) < 0x100
  {
    if a != [] {
      DifferenceFits(a[1..], b[1..]);
    }
  }

  lemma {:induction false} NoDifference(a: seq<Byte>, b: seq<Byte>)
    requires |a| == |b| <= 4 && Difference(a, b) == 0
    ensures a == b
  {
    if a != [] {
      DifferenceFits(a[1..], b[1..]);
      TwoParts(a[0], b[0], Difference(a[1..], b[1..]));
      hide Xor, Up, Wide;
      NoDifference(a[1..], b[1..]);
      assert a == [a[0]] + a[1..] && b == [b[0]] + b[1..];
    }
  }

  lemma TwoParts(x: Byte, y: Byte, rest: bv32)
    requires rest < 0x100_0000
    ensures Xor(Xor(Wide(x), Wide(y)), Up(rest)) == 0 ==> x == y && rest == 0
  {
  }

  /** Registers that meet after up to four bytes differed, before them, by exactly the
      difference of the bytes. */
  lemma {:induction false} MeetingStates(c: bv32, d: bv32, a: seq<Byte>, b: seq<Byte>)
    requires |a| == |b| <= 4 && Feed(c, a) == Feed(d, b)
    ensures Xor(c, d) == Difference(a, b)
    decreases |a|
  {
    hide FeedByte, ByteStep, Xor, Wide, Up;
    if a != [] {
      var x, y := Xor(c, Wide(a[0])), Xor(d, Wide(b[0]));
      ByteAtOnce(c, a[0]);
      ByteAtOnce(d, b[0]);
      MeetingStates(ByteStep(x), ByteStep(y), a[1..], b[1..]);
      var rest := Difference(a[1..], b[1..]);
      DifferenceFits(a[1..], b[1..]);
      Linear(x, y);
      ShiftOut(rest);
      Injective(Xor(x, y), Up(rest));
      Assemble(c, d, a[0], b[0], rest);
    } else {
      SelfXor(c);
    }
  }

  lemma SelfXor(c: bv32)
    ensures Xor(c, c) == 0
  {
  }

  lemma Assemble(c: bv32, d: bv32, a: Byte, b: Byte, rest: bv32)
    requires Xor(Xor(c, Wide(a)), Xor(d, Wide(b))) == Up(rest)
    ensures Xor(c, d) == Xor(Xor(Wide(a), Wide(b)), Up(rest))
  {
  }

  /** CRC-32 tells apart any two messages that differ only within four consecutive bytes. */
  lemma BurstChangesCrc(pre: seq<Byte>, a: seq<Byte>, b: seq<Byte>, post: seq<Byte>)
    requires |a| == |b| <= 4 && a != b
    ensures Crc32(pre + a + post) != Crc32(pre + b + post)
  {
    hide Feed, Difference, Xor;
    if Crc32(pre + a + post) == Crc32(pre + b + post) {
      var c := Feed(0xFFFF_FFFF, pre);
      Cancel(Feed(0xFFFF_FFFF, pre + a + post), Feed(0xFFFF_FFFF, pre + b + post), 0xFFFF_FFFF);
      FeedConcat(0xFFFF_FFFF, pre + a, post);
      FeedConcat(0xFFFF_FFFF, pre + b, post);
      FeedConcat(0xFFFF_FFFF, pre, a);
      FeedConcat(0xFFFF_FFFF, pre, b);
      StateInjective(Feed(c, a), Feed(c, b), post);
      MeetingStates(c, c, a, b);
      SelfXor(c);
      NoDifference(a, b);
    }
  }

  // ----- what a change does to the CRC

  /** The change from one message to another, byte by byte. */
  function Change(a: seq<Byte>, b: seq<Byte>): (c: seq<Byte>)
    requires |a| == |b|
    ensures |c| == |a|
  {
    if a == [] then [] else [a[0] ^ b[0]] + Change(a[1..], b[1..])
  }

  lemma CrossXor(c: bv32, d: bv32, x: Byte, y: Byte)
    ensures Xor(Xor(c, Wide(x)), Xor(d, Wide(y))) == Xor(Xor(c, d), Wide(x ^ y))
  {
    var wx, wy := Wide(x), Wide(y);
    WideXor(x, y);
    hide Xor, Wide;
    XorAssociates(c, wx, Xor(d, wy));
    XorAssociates(wx, d, wy);
    XorCommutes(wx, d);
    XorAssociates(d, wx, wy);
    XorAssociates(c, d, Xor(wx, wy));
  }

  lemma WideXor(x: Byte, y: Byte)
    ensures Wide(x ^ y) == Xor(Wide(x), Wide(y))
  {
  }

  /** The register is linear: the change of the result is what the change of the data gives. */
  lemma {:induction false} FeedLinear(c: bv32, d: bv32, a: seq<Byte>, b: seq<Byte>)
    requires |a| == |b|
    ensures Xor(Feed(c, a), Feed(d, b)) == Feed(Xor(c, d), Change(a, b))
    decreases |a|
  {
    hide FeedByte, ByteStep, Xor, Wide;
    if a != [] {
      var x := a[0] ^ b[0];
      ByteAtOnce(c, a[0]);
      ByteAtOnce(d, b[0]);
      ByteAtOnce(Xor(c, d), x);
      Linear(Xor(c, Wide(a[0])), Xor(d, Wide(b[0])));
      CrossXor(c, d, a[0], b[0]);
      FeedLinear(FeedByte(c, a[0]), FeedByte(d, b[0]), a[1..], b[1..]);
      assert Change(a, b)[0] == x && Change(a, b)[1..] == Change(a[1..], b[1..]);
    }
  }

  lemma CrcLinear(a: seq<Byte>, b: seq<Byte>)
    requires |a| == |b|
    ensures Xor(Crc32(a), Crc32(b)) == Feed(0, Change(a, b))
  {
    hide Feed, Xor;
    FeedLinear(0xFFFF_FFFF, 0xFFFF_FFFF, a, b);
    SelfXor(0xFFFF_FFFF);
    XorCancels(Feed(0xFFFF_FFFF, a), Feed(0xFFFF_FFFF, b), 0xFFFF_FFFF);
  }

  // ----- CalculateCrc

  /** The high part of the register only moves down; the low byte goes through the table. */
  lemma SplitRegister(c: bv32, b: Byte)
    ensures FeedByte(c, b) == Xor(Down(c), CRCTable(Low(c) ^ b))
  {
    hide ByteStep, Up, Down, Low, Xor, Wide, FeedByte, CRCTable;
    ByteAtOnce(c, b);
    TableIsEightBitSteps(Low(c) ^ b);
    JoinRegister(c, b);
    Linear(Up(Down(c)), Wide(Low(c) ^ b));
    ShiftOut(Down(c));
    WideIs(Low(c) ^ b);
  }

  lemma WideIs(b: Byte)
    ensures Wide(b) == b as bv32
  {
  }

  lemma JoinRegister(c: bv32, b: Byte)
    ensures Xor(Up(Down(c)), Wide(Low(c) ^ b)) == Xor(c, Wide(b))
    ensures Down(c) < 0x100_0000
  {
  }

  /** One round of the loop, on its 64-bit accumulator. */
  function Round(crc: bv64, b: Byte): bv64 {
    Combine(crc, CRCTable(Low64(crc) ^ b))
  }

  function Combine(crc: bv64, t: bv32): bv64 {
    (crc >> 8) ^ (t as bv64)
  }

  function Low64(crc: bv64): Byte {
    (crc & 0xff) as bv8
  }

  /** The cast to UINT32. */
  function Trunc(crc: bv64): bv32 {
    (crc & 0xFFFF_FFFF) as bv32
  }

  /** The accumulator stays below 2^32. */
  predicate Narrow(crc: bv64) {
    crc < 0x1_0000_0000
  }

  lemma TableRound(crc: bv64, b: Byte)
    requires Narrow(crc)
    ensures Narrow(Round(crc, b)) && Trunc(Round(crc, b)) == FeedByte(Trunc(crc), b)
  {
    hide CRCTable, FeedByte, Xor, Down, Low, Combine, Low64, Trunc, Narrow;
    SplitRegister(Trunc(crc), b);
    CombineNarrow(crc, CRCTable(Low64(crc) ^ b));
  }

  lemma CombineNarrow(crc: bv64, t: bv32)
    requires Narrow(crc)
    ensures Narrow(Combine(crc, t)) && Trunc(Combine(crc, t)) == Xor(Down(Trunc(crc)), t)
    ensures Low64(crc) == Low(Trunc(crc))
  {
    RangeBits(crc, t);
    TruncBits(crc, t);
    LowByte(crc);
  }

  lemma RangeBits(crc: bv64, t: bv32)
    requires crc < 0x1_0000_0000
    ensures (crc >> 8) ^ (t as bv64) < 0x1_0000_0000
  {
  }

  lemma TruncBits(crc: bv64, t: bv32)
    requires crc < 0x1_0000_0000
    ensures (((crc >> 8) ^ (t as bv64)) & 0xFFFF_FFFF) as bv32 == (((crc & 0xFFFF_FFFF) as bv32) >> 8) ^ t
  {
  }

  lemma LowByte(crc: bv64)
    ensures (crc & 0xff) as bv8 == (((crc & 0xFFFF_FFFF) as bv32) & 0xFF) as bv8
  {
  }

  lemma Inverted(crc: bv64)
    requires Narrow(crc)
    ensures Trunc(crc ^ 0xffffffff) == Xor(Trunc(crc), 0xFFFF_FFFF)
  {
  }

  method CalculateCrc(pt: array<Byte>, size: nat) returns (crc: bv32)
    requires size <= pt.Length
    ensures crc == Crc32(pt[..size])
  {
    hide FeedByte, Round, Xor;
    var wide: bv64 := 0xffffffff;
    var i := 0;
    assert pt[..0] == [];
    while i < size
      invariant i <= size && Narrow(wide)
      invariant Trunc(wide) == Feed(0xFFFF_FFFF, pt[..i])
    {
      TableRound(wide, pt[i]);
      assert pt[..i + 1] == pt[..i] + [pt[i]];
      FeedOne(0xFFFF_FFFF, pt[..i], pt[i]);
      wide := Round(wide, pt[i]);
      i := i + 1;
    }
    Inverted(wide);
    wide := wide ^ 0xffffffff;
    crc := Trunc(wide);
  }

  lemma FedStep(c: bv32, b: Byte, x: bv32, d: bv32)
    requires c ^ (b as bv32) == x && ByteStep(x) == d
    ensures FeedByte(c, b) == d
  {
    hide ByteStep, FeedByte;
    ByteAtOnce(c, b);
  }

  lemma CheckSteps()
    ensures ByteStep(0xFFFF_FFCE) == 0x7C23_1048
    ensures ByteStep(0x7C23_107A) == 0xB0AC_BB32
    ensures ByteStep(0xB0AC_BB01) == 0x77B7_9C2D
    ensures ByteStep(0x77B7_9C19) == 0x641C_1F5C
    ensures ByteStep(0x641C_1F69) == 0x340A_C5E3
    ensures ByteStep(0x340A_C5D5) == 0xF68D_2C9E
    ensures ByteStep(0xF68D_2CA9) == 0xAFFC_9660
    ensures ByteStep(0xAFFC_9658) == 0x651F_2550
    ensures ByteStep(0x651F_2569) == 0x340B_C6D9
  {
  }

  /** The check value of CRC-32: the figures 1 to 9 have the CRC 0xCBF43926; no bytes have 0. */
  lemma CheckValue()
    ensures Crc32([0x31, 0x32, 0x33, 0x34, 0x35, 0x36, 0x37, 0x38, 0x39]) == 0xCBF4_3926
    ensures Crc32([]) == 0
  {
    hide ByteStep, FeedByte, Feed;
    CheckSteps();
    FedStep(0xFFFF_FFFF, 0x31, 0xFFFF_FFCE, 0x7C23_1048);
    FedStep(0x7C23_1048, 0x32, 0x7C23_107A, 0xB0AC_BB32);
    FedStep(0xB0AC_BB32, 0x33, 0xB0AC_BB01, 0x77B7_9C2D);
    FedStep(0x77B7_9C2D, 0x34, 0x77B7_9C19, 0x641C_1F5C);
    FedStep(0x641C_1F5C, 0x35, 0x641C_1F69, 0x340A_C5E3);
    FedStep(0x340A_C5E3, 0x36, 0x340A_C5D5, 0xF68D_2C9E);
    FedStep(0xF68D_2C9E, 0x37, 0xF68D_2CA9, 0xAFFC_9660);
    FedStep(0xAFFC_9660, 0x38, 0xAFFC_9658, 0x651F_2550);
    FedStep(0x651F_2550, 0x39, 0x651F_2569, 0x340B_C6D9);
    FeedNine(0xFFFF_FFFF, 0x31, 0x32, 0x33, 0x34, 0x35, 0x36, 0x37, 0x38, 0x39);
    FeedEnd(0xFFFF_FFFF);
  }

  lemma FeedNine(c: bv32, b0: Byte, b1: Byte, b2: Byte, b3: Byte, b4: Byte, b5: Byte, b6: Byte, b7: Byte, b8: Byte)
    ensures Feed(c, [b0, b1, b2, b3, b4, b5, b6, b7, b8])
         == FeedByte(FeedByte(FeedByte(FeedByte(FeedByte(FeedByte(FeedByte(FeedByte(FeedByte(c,
              b0), b1), b2), b3), b4), b5), b6), b7), b8)
  {
    hide FeedByte, Feed;
    var c3 := FeedByte(FeedByte(FeedByte(c, b0), b1), b2);
    var c6 := FeedByte(FeedByte(FeedByte(c3, b3), b4), b5);
    FeedThree(c, b0, b1, b2, [b3, b4, b5, b6, b7, b8]);
    FeedThree(c3, b3, b4, b5, [b6, b7, b8]);
    FeedThree(c6, b6, b7, b8, []);
    FeedEnd(FeedByte(FeedByte(FeedByte(c6, b6), b7), b8));
    assert [b0, b1, b2, b3, b4, b5, b6, b7, b8] == [b0, b1, b2] + [b3, b4, b5, b6, b7, b8];
    assert [b3, b4, b5, b6, b7, b8] == [b3, b4, b5] + [b6, b7, b8];
    assert [b6, b7, b8] == [b6, b7, b8] + [];
  }

  lemma FeedEnd(c: bv32)
    ensures Feed(c, []) == c
  {
  }

  lemma FeedThree(c: bv32, b0: Byte, b1: Byte, b2: Byte, rest: seq<Byte>)
    ensures Feed(c, [b0, b1, b2] + rest) == Feed(FeedByte(FeedByte(FeedByte(c, b0), b1), b2), rest)
  {
    hide FeedByte, Feed;
    FeedFirst(c, b0, [b1, b2] + rest);
    FeedFirst(FeedByte(c, b0), b1, [b2] + rest);
    FeedFirst(FeedByte(FeedByte(c, b0), b1), b2, rest);
    assert [b0, b1, b2] + rest == [b0] + ([b1, b2] + rest) && [b1, b2] + rest == [b1] + ([b2] + rest);
  }

  // ----- the header pair

  /** Offset of the CRC32 field in EFI_TABLE_HEADER, and the header's size. */
  const CRC_FIELD: nat := 16
  const HEADER: nat := 24

  /** A UINT32 in memory, least significant byte first. */
  function FromBytes(b0: Byte, b1: Byte, b2: Byte, b3: Byte): bv32 {
    (b0 as bv32) | ((b1 as bv32) << 8) | ((b2 as bv32) << 16) | ((b3 as bv32) << 24)
  }

  function Byte0(v: bv32): Byte {
    (v & 0xFF) as bv8
  }

  function Byte1(v: bv32): Byte {
    ((v >> 8) & 0xFF) as bv8
  }

  function Byte2(v: bv32): Byte {
    ((v >> 16) & 0xFF) as bv8
  }

  function Byte3(v: bv32): Byte {
    ((v >> 24) & 0xFF) as bv8
  }

  lemma BytesRoundTrip(b0: Byte, b1: Byte, b2: Byte, b3: Byte)
    ensures var v := FromBytes(b0, b1, b2, b3); Byte0(v) == b0 && Byte1(v) == b1 && Byte2(v) == b2 && Byte3(v) == b3
  {
  }

  lemma WordRoundTrip(v: bv32)
    ensures FromBytes(Byte0(v), Byte1(v), Byte2(v), Byte3(v)) == v
  {
  }

  /** The value of the CRC32 field. */
  function Stored(h: seq<Byte>): bv32
    requires |h| >= HEADER
  {
    FromBytes(h[16], h[17], h[18], h[19])
  }

  /** The header with `crc` in its CRC32 field. */
  function WithCrc(h: seq<Byte>, crc: bv32): (r: seq<Byte>)
    requires |h| >= HEADER
    ensures |r| == |h|
  {
    h[16 := Byte0(crc)][17 := Byte1(crc)][18 := Byte2(crc)][19 := Byte3(crc)]
  }

  lemma StoredRoundTrip(h: seq<Byte>, crc: bv32)
    requires |h| >= HEADER
    ensures Stored(WithCrc(h, crc)) == crc
  {
    hide FromBytes, Byte0, Byte1, Byte2, Byte3;
    WordRoundTrip(crc);
  }

  lemma FieldRoundTrip(h: seq<Byte>)
    requires |h| >= HEADER
    ensures WithCrc(h, Stored(h)) == h
  {
    hide FromBytes, Byte0, Byte1, Byte2, Byte3;
    BytesRoundTrip(h[16], h[17], h[18], h[19]);
  }

  lemma Overwrites(h: seq<Byte>, crc: bv32, crc': bv32)
    requires |h| >= HEADER
    ensures WithCrc(WithCrc(h, crc), crc') == WithCrc(h, crc')
  {
    hide Byte0, Byte1, Byte2, Byte3;
  }

  /** The CRC a header of `size` bytes should carry: its field counts as zero. */
  function Expected(h: seq<Byte>, size: nat): bv32
    requires |h| >= HEADER && size <= |h|
  {
    Crc32(WithCrc(h, 0)[..size])
  }

  method StoreCrc(hdr: array<Byte>, crc: bv32)
    requires hdr.Length >= HEADER
    modifies hdr
    ensures hdr[..] == WithCrc(old(hdr[..]), crc)
  {
    hide Byte0, Byte1, Byte2, Byte3;
    hdr[16] := Byte0(crc);
    hdr[17] := Byte1(crc);
    hdr[18] := Byte2(crc);
    hdr[19] := Byte3(crc);
  }

  method SetCrcAltSize(size: nat, hdr: array<Byte>)
    requires hdr.Length >= HEADER && size <= hdr.Length
    modifies hdr
    ensures hdr[..] == WithCrc(old(hdr[..]), Expected(old(hdr[..]), size))
  {
    ghost var h := hdr[..];
    StoreCrc(hdr, 0);
    var crc := CalculateCrc(hdr, size);
    assert hdr[..size] == hdr[..][..size];
    StoreCrc(hdr, crc);
    Overwrites(h, 0, crc);
  }

  /** What CheckCrcAltSize accepts. */
  predicate Accepts(maxSize: nat, size: nat, h: seq<Byte>)
    requires |h| >= HEADER && size <= |h|
  {
    size != 0 && (maxSize == 0 || size <= maxSize) && Stored(h) == Expected(h, size)
  }

  method CheckCrcAltSize(maxSize: nat, size: nat, hdr: array<Byte>) returns (f: bool)
    requires hdr.Length >= HEADER && size <= hdr.Length
    modifies hdr
    ensures f == Accepts(maxSize, size, old(hdr[..]))
    ensures hdr[..] == old(hdr[..])
  {
    hide Crc32, WithCrc, Stored;
    if size == 0 {
      return false;
    }
    if maxSize != 0 && size > maxSize {
      return false;
    }
    ghost var h := hdr[..];
    var orgCrc := LoadCrc(hdr);
    StoreCrc(hdr, 0);
    var crc := CalculateCrc(hdr, size);
    assert hdr[..size] == hdr[..][..size];
    StoreCrc(hdr, orgCrc);
    Overwrites(h, 0, orgCrc);
    FieldRoundTrip(h);
    f := orgCrc == crc;
  }

  method LoadCrc(hdr: array<Byte>) returns (crc: bv32)
    requires hdr.Length >= HEADER
    ensures crc == Stored(hdr[..])
  {
    hide FromBytes;
    crc := FromBytes(hdr[16], hdr[17], hdr[18], hdr[19]);
  }

  /** A header just set is accepted, for every size that is checked at all. */
  lemma SetThenCheck(maxSize: nat, size: nat, h: seq<Byte>)
    requires |h| >= HEADER && size <= |h|
    ensures Accepts(maxSize, size, WithCrc(h, Expected(h, size))) <==> size != 0 && (maxSize == 0 || size <= maxSize)
  {
    hide Crc32;
    StoredRoundTrip(h, Expected(h, size));
    Overwrites(h, Expected(h, size), 0);
  }

  /** `h'` differs from `h` in the bytes `k..k + n`, and only there. */
  ghost predicate Corrupted(h: seq<Byte>, h': seq<Byte>, k: nat, n: nat) {
    && |h| == |h'| && k + n <= |h| && h[k..k + n] != h'[k..k + n]
    && h[..k] == h'[..k] && h[k + n..] == h'[k + n..]
  }

  /** Any corruption of up to four consecutive checked bytes is noticed, if they lie wholly
      outside the CRC field or wholly inside it. */
  lemma CorruptionIsNoticed(maxSize: nat, size: nat, h: seq<Byte>, h': seq<Byte>, k: nat, n: nat)
    requires |h| >= HEADER && size <= |h| && Accepts(maxSize, size, h)
    requires Corrupted(h, h', k, n) && n <= 4
    requires if CRC_FIELD <= k && k + n <= CRC_FIELD + 4 then true
             else k + n <= size && (k + n <= CRC_FIELD || CRC_FIELD + 4 <= k)
    ensures !Accepts(maxSize, size, h')
  {
    hide Crc32, Accepts;
    if CRC_FIELD <= k && k + n <= CRC_FIELD + 4 {
      FieldCorrupted(maxSize, size, h, h', k, n);
    } else {
      BodyCorrupted(maxSize, size, h, h', k, n);
    }
  }

  /** For every change whatever: a header that was accepted is accepted again exactly when the
      change of its field is what the change of its checked bytes makes of the CRC. */
  lemma ChangeAcceptedIff(maxSize: nat, size: nat, h: seq<Byte>, h': seq<Byte>)
    requires |h'| == |h| >= HEADER && size <= |h| && Accepts(maxSize, size, h)
    ensures Accepts(maxSize, size, h')
            <==> Feed(0, Change(WithCrc(h, 0)[..size], WithCrc(h', 0)[..size])) == Xor(Stored(h), Stored(h'))
  {
    hide Crc32, Feed, Xor, WithCrc, Stored;
    CrcLinear(WithCrc(h, 0)[..size], WithCrc(h', 0)[..size]);
    XorDecides(Stored(h), Stored(h'), Expected(h', size));
  }

  lemma XorDecides(x: bv32, y: bv32, z: bv32)
    ensures Xor(x, y) == Xor(x, z) <==> y == z
  {
  }

  function Unchanged(n: nat): (z: seq<Byte>)
    ensures |z| == n && forall i | 0 <= i < n :: z[i] == 0
  {
    if n == 0 then [] else [0] + Unchanged(n - 1)
  }

  lemma {:induction false} FeedUnchanged(n: nat)
    ensures Feed(0, Unchanged(n)) == 0
  {
    if n > 0 {
      FeedUnchanged(n - 1);
    }
  }

  /** Zero bytes only step the register. */
  lemma FeedZero(c: bv32, n: nat)
    requires n > 0
    ensures Feed(c, Unchanged(n)) == Feed(ByteStep(c), Unchanged(n - 1))
  {
    hide ByteStep, FeedByte;
    ByteAtOnce(c, 0);
  }

  lemma StraddlingConstants()
    ensures ByteStep(0x19) == 0x646B_A8C0 && Xor(0, Wide(0x19)) == 0x19
    ensures ByteStep(0x646B_A8C0) == 0x9B00_A918 && ByteStep(0x9B00_A918) == 0x13F7_98FF
    ensures ByteStep(0x13F7_98FF) == 0x2D11_1815 && ByteStep(0x2D11_1815) == 0x6DF0_F5F3
    ensures ByteStep(0x6DF0_F5F3) == 0x24D9_5353 && ByteStep(0x24D9_5353) == 0xF246_D91D
    ensures ByteStep(0xF246_D91D) == 0x63F4_2A00 && ByteStep(0x63F4_2A00) == 0x0063_F42A
  {
    hide Xor, Wide;
    FirstXor();
  }

  lemma FirstXor()
    ensures Xor(0, Wide(0x19)) == 0x19
  {
  }

  /** What a change of 0x19 in the byte in front of the field makes of the CRC of 24 bytes. */
  lemma StraddlingSteps()
    ensures Feed(0, Unchanged(15) + ([0x19] + Unchanged(8))) == 0x0063_F42A
  {
    hide *;
    StraddlingConstants();
    FeedConcat(0, Unchanged(15), [0x19] + Unchanged(8));
    FeedUnchanged(15);
    ByteAtOnce(0, 0x19);
    FeedFirst(0, 0x19, Unchanged(8));
    FeedZero(0x646B_A8C0, 8);
    FeedZero(0x9B00_A918, 7);
    FeedZero(0x13F7_98FF, 6);
    FeedZero(0x2D11_1815, 5);
    FeedZero(0x6DF0_F5F3, 4);
    FeedZero(0x24D9_5353, 3);
    FeedZero(0xF246_D91D, 2);
    FeedZero(0x63F4_2A00, 1);
    FeedNothing(0x0063_F42A);
  }

  lemma FeedFirst(c: bv32, b: Byte, rest: seq<Byte>)
    ensures Feed(c, [b] + rest) == Feed(FeedByte(c, b), rest)
  {
    hide FeedByte;
    assert ([b] + rest)[1..] == rest;
  }

  lemma FeedNothing(c: bv32)
    ensures Feed(c, Unchanged(0)) == c
  {
  }

  /** A change of four bytes across the edge of the field may pass: this one does, in every
      accepted header of 24 bytes. It changes bytes 15 to 18. */
  lemma StraddlingChangePasses(h: seq<Byte>)
    requires |h| == HEADER && Accepts(0, HEADER, h)
    ensures var h' := WithCrc(h[15 := h[15] ^ 0x19], Xor(Stored(h), 0x0063_F42A));
            Corrupted(h, h', 15, 4) && Accepts(0, HEADER, h')
  {
    hide Accepts, WithCrc, Stored, Xor, Corrupted, Feed, Change;
    var body, field := h[15 := h[15] ^ 0x19], Xor(Stored(h), 0x0063_F42A);
    FourBytesChanged(h, field);
    StoredRoundTrip(body, field);
    SelfDifference(Stored(h), 0x0063_F42A);
    BodyChange(h, field);
    StraddlingSteps();
    ChangeAcceptedIff(0, HEADER, h, WithCrc(body, field));
  }

  /** The change is one of bytes 15 to 18. */
  lemma FourBytesChanged(h: seq<Byte>, field: bv32)
    requires |h| == HEADER && field == Xor(Stored(h), 0x0063_F42A)
    ensures Corrupted(h, WithCrc(h[15 := h[15] ^ 0x19], field), 15, 4)
  {
    TopByteKept(h[16], h[17], h[18], h[19]);
    TwiceSame(h[15], 0x19);
    hide Byte0, Byte1, Byte2, Byte3, FromBytes, Xor;
    var h' := WithCrc(h[15 := h[15] ^ 0x19], field);
    assert h[15..19][0] == h[15] && h'[15..19][0] == h[15] ^ 0x19;
    assert h[19..] == h'[19..];
  }

  lemma BodyChange(h: seq<Byte>, field: bv32)
    requires |h| == HEADER
    ensures var z, z' := WithCrc(h, 0), WithCrc(WithCrc(h[15 := h[15] ^ 0x19], field), 0);
            Change(z[..HEADER], z'[..HEADER]) == Unchanged(15) + ([0x19] + Unchanged(8))
  {
    hide Byte0, Byte1, Byte2, Byte3, Change, Unchanged, WithCrc;
    var z := WithCrc(h, 0);
    Overwrites(h[15 := h[15] ^ 0x19], field, 0);
    FieldAndBody(h, h[15] ^ 0x19);
    ChangeOne(z, 15, 0x19);
    WholeHeader(z);
    WholeHeader(z[15 := z[15] ^ 0x19]);
  }

  lemma FieldAndBody(h: seq<Byte>, x: Byte)
    requires |h| == HEADER
    ensures |WithCrc(h, 0)| == HEADER && WithCrc(h, 0)[15] == h[15]
    ensures WithCrc(h[15 := x], 0) == WithCrc(h, 0)[15 := x]
  {
    hide Byte0, Byte1, Byte2, Byte3;
  }

  lemma WholeHeader(z: seq<Byte>)
    requires |z| == HEADER
    ensures z[..HEADER] == z
  {
  }

  lemma TopByteKept(b0: Byte, b1: Byte, b2: Byte, b3: Byte)
    ensures Byte3(Xor(FromBytes(b0, b1, b2, b3), 0x0063_F42A)) == b3
  {
  }

  lemma SelfDifference(x: bv32, y: bv32)
    ensures Xor(x, Xor(x, y)) == y
  {
  }

  lemma ChangeOne(z: seq<Byte>, i: nat, x: Byte)
    requires i < |z|
    ensures Change(z, z[i := z[i] ^ x]) == Unchanged(i) + ([x] + Unchanged(|z| - i - 1))
  {
    var c, d := Change(z, z[i := z[i] ^ x]), Unchanged(i) + ([x] + Unchanged(|z| - i - 1));
    UnchangedLength(i);
    UnchangedLength(|z| - i - 1);
    hide Change, Unchanged;
    forall j | 0 <= j < |z|
      ensures c[j] == d[j]
    {
      ChangeAt(z, z[i := z[i] ^ x], j);
      TwiceSame(z[j], x);
    }
  }

  lemma {:induction false} ChangeAt(a: seq<Byte>, b: seq<Byte>, i: nat)
    requires |a| == |b| && i < |a|
    ensures Change(a, b)[i] == a[i] ^ b[i]
  {
    if i > 0 {
      ChangeAt(a[1..], b[1..], i - 1);
    }
  }

  lemma UnchangedLength(n: nat)
    ensures |Unchanged(n)| == n && forall i | 0 <= i < n :: Unchanged(n)[i] == 0
  {
  }

  lemma TwiceSame(b: Byte, x: Byte)
    ensures b ^ b == 0 && b ^ (b ^ x) == x && (x != 0 ==> b ^ x != b)
  {
  }

  lemma FieldCorrupted(maxSize: nat, size: nat, h: seq<Byte>, h': seq<Byte>, k: nat, n: nat)
    requires |h| >= HEADER && size <= |h| && Accepts(maxSize, size, h)
    requires Corrupted(h, h', k, n) && CRC_FIELD <= k && k + n <= CRC_FIELD + 4
    ensures !Accepts(maxSize, size, h')
  {
    hide Crc32, FromBytes, Byte0, Byte1, Byte2, Byte3;
    forall i | 0 <= i < |h| && !(CRC_FIELD <= i < CRC_FIELD + 4)
      ensures h[i] == h'[i]
    {
      if i < k {
        assert h[..k][i] == h'[..k][i];
      } else {
        assert h[k + n..][i - k - n] == h'[k + n..][i - k - n];
      }
    }
    assert WithCrc(h, 0) == WithCrc(h', 0);
    FieldRoundTrip(h);
    FieldRoundTrip(h');
    if Stored(h) == Stored(h') {
      hide Stored;
      Overwrites(h, 0, Stored(h));
      Overwrites(h', 0, Stored(h));
    }
  }

  lemma BodyCorrupted(maxSize: nat, size: nat, h: seq<Byte>, h': seq<Byte>, k: nat, n: nat)
    requires |h| >= HEADER && size <= |h| && Accepts(maxSize, size, h)
    requires Corrupted(h, h', k, n) && n <= 4 && k + n <= size
    requires k + n <= CRC_FIELD || CRC_FIELD + 4 <= k
    ensures !Accepts(maxSize, size, h')
  {
    hide Crc32, FromBytes, Byte0, Byte1, Byte2, Byte3;
    SameElsewhere(h, h', k, n);
    var z, z' := WithCrc(h, 0), WithCrc(h', 0);
    assert Stored(h) == Stored(h');
    assert z[k..k + n] == h[k..k + n] && z'[k..k + n] == h'[k..k + n];
    assert forall i | 0 <= i < |z| && !(k <= i < k + n) :: z[i] == z'[i];
    hide WithCrc, Stored;
    Pieces(z, z', k, n, size);
    BurstChangesCrc(z[..k], z[k..k + n], z'[k..k + n], z[k + n..size]);
  }

  lemma Pieces(z: seq<Byte>, z': seq<Byte>, k: nat, n: nat, size: nat)
    requires |z| == |z'| && k + n <= size <= |z|
    requires forall i | 0 <= i < |z| && !(k <= i < k + n) :: z[i] == z'[i]
    ensures z[..size] == z[..k] + z[k..k + n] + z[k + n..size]
    ensures z'[..size] == z[..k] + z'[k..k + n] + z[k + n..size]
  {
  }

  lemma SameElsewhere(h: seq<Byte>, h': seq<Byte>, k: nat, n: nat)
    requires Corrupted(h, h', k, n)
    ensures forall i | 0 <= i < |h| && !(k <= i < k + n) :: h[i] == h'[i]
  {
    forall i | 0 <= i < |h| && !(k <= i < k + n)
      ensures h[i] == h'[i]
    {
      if i < k {
        assert h[..k][i] == h'[..k][i];
      } else {
        assert h[k + n..][i - k - n] == h'[k + n..][i - k - n];
      }
    }
  }
}

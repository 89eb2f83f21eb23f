/** The 16-bit frame check sequence of `dlms_hdlc.c` (Appendix C.2 of RFC 1662): the table-driven
    loops, the bit-serial register they stand for, and the errors the check detects. */
module Fcs16 {
  import opened Bytes

  const INITIAL: bv16 := 0xffff
  const GOOD: bv16 := 0xf0b8

  function Entry(j: byte, e0: bv16, e1: bv16, e2: bv16, e3: bv16, e4: bv16, e5: bv16, e6: bv16, e7: bv16): bv16 {
    if j == 0 then e0 else if j == 1 then e1 else if j == 2 then e2 else if j == 3 then e3
    else if j == 4 then e4 else if j == 5 then e5 else if j == 6 then e6 else e7
  }

  /** The constant table `fcstab`, in its 32 rows of eight. */
  function FcsTab(i: byte): bv16 {
    match i >> 3 {
      case 0 => Entry(i & 7, 0x0000, 0x1189, 0x2312, 0x329b, 0x4624, 0x57ad, 0x6536, 0x74bf)
      case 1 => Entry(i & 7, 0x8c48, 0x9dc1, 0xaf5a, 0xbed3, 0xca6c, 0xdbe5, 0xe97e, 0xf8f7)
      case 2 => Entry(i & 7, 0x1081, 0x0108, 0x3393, 0x221a, 0x56a5, 0x472c, 0x75b7, 0x643e)
      case 3 => Entry(i & 7, 0x9cc9, 0x8d40, 0xbfdb, 0xae52, 0xdaed, 0xcb64, 0xf9ff, 0xe876)
      case 4 => Entry(i & 7, 0x2102, 0x308b, 0x0210, 0x1399, 0x6726, 0x76af, 0x4434, 0x55bd)
      case 5 => Entry(i & 7, 0xad4a, 0xbcc3, 0x8e58, 0x9fd1, 0xeb6e, 0xfae7, 0xc87c, 0xd9f5)
      case 6 => Entry(i & 7, 0x3183, 0x200a, 0x1291, 0x0318, 0x77a7, 0x662e, 0x54b5, 0x453c)
      case 7 => Entry(i & 7, 0xbdcb, 0xac42, 0x9ed9, 0x8f50, 0xfbef, 0xea66, 0xd8fd, 0xc974)
      case 8 => Entry(i & 7, 0x4204, 0x538d, 0x6116, 0x709f, 0x0420, 0x15a9, 0x2732, 0x36bb)
      case 9 => Entry(i & 7, 0xce4c, 0xdfc5, 0xed5e, 0xfcd7, 0x8868, 0x99e1, 0xab7a, 0xbaf3)
      case 10 => Entry(i & 7, 0x5285, 0x430c, 0x7197, 0x601e, 0x14a1, 0x0528, 0x37b3, 0x263a)
      case 11 => Entry(i & 7, 0xdecd, 0xcf44, 0xfddf, 0xec56, 0x98e9, 0x8960, 0xbbfb, 0xaa72)
      case 12 => Entry(i & 7, 0x6306, 0x728f, 0x4014, 0x519d, 0x2522, 0x34ab, 0x0630, 0x17b9)
      case 13 => Entry(i & 7, 0xef4e, 0xfec7, 0xcc5c, 0xddd5, 0xa96a, 0xb8e3, 0x8a78, 0x9bf1)
      case 14 => Entry(i & 7, 0x7387, 0x620e, 0x5095, 0x411c, 0x35a3, 0x242a, 0x16b1, 0x0738)
      case 15 => Entry(i & 7, 0xffcf, 0xee46, 0xdcdd, 0xcd54, 0xb9eb, 0xa862, 0x9af9, 0x8b70)
      case 16 => Entry(i & 7, 0x8408, 0x9581, 0xa71a, 0xb693, 0xc22c, 0xd3a5, 0xe13e, 0xf0b7)
      case 17 => Entry(i & 7, 0x0840, 0x19c9, 0x2b52, 0x3adb, 0x4e64, 0x5fed, 0x6d76, 0x7cff)
      case 18 => Entry(i & 7, 0x9489, 0x8500, 0xb79b, 0xa612, 0xd2ad, 0xc324, 0xf1bf, 0xe036)
      case 19 => Entry(i & 7, 0x18c1, 0x0948, 0x3bd3, 0x2a5a, 0x5ee5, 0x4f6c, 0x7df7, 0x6c7e)
      case 20 => Entry(i & 7, 0xa50a, 0xb483, 0x8618, 0x9791, 0xe32e, 0xf2a7, 0xc03c, 0xd1b5)
      case 21 => Entry(i & 7, 0x2942, 0x38cb, 0x0a50, 0x1bd9, 0x6f66, 0x7eef, 0x4c74, 0x5dfd)
      case 22 => Entry(i & 7, 0xb58b, 0xa402, 0x9699, 0x8710, 0xf3af, 0xe226, 0xd0bd, 0xc134)
      case 23 => Entry(i & 7, 0x39c3, 0x284a, 0x1ad1, 0x0b58, 0x7fe7, 0x6e6e, 0x5cf5, 0x4d7c)
      case 24 => Entry(i & 7, 0xc60c, 0xd785, 0xe51e, 0xf497, 0x8028, 0x91a1, 0xa33a, 0xb2b3)
      case 25 => Entry(i & 7, 0x4a44, 0x5bcd, 0x6956, 0x78df, 0x0c60, 0x1de9, 0x2f72, 0x3efb)
      case 26 => Entry(i & 7, 0xd68d, 0xc704, 0xf59f, 0xe416, 0x90a9, 0x8120, 0xb3bb, 0xa232)
      case 27 => Entry(i & 7, 0x5ac5, 0x4b4c, 0x79d7, 0x685e, 0x1ce1, 0x0d68, 0x3ff3, 0x2e7a)
      case 28 => Entry(i & 7, 0xe70e, 0xf687, 0xc41c, 0xd595, 0xa12a, 0xb0a3, 0x8238, 0x93b1)
      case 29 => Entry(i & 7, 0x6b46, 0x7acf, 0x4854, 0x59dd, 0x2d62, 0x3ceb, 0x0e70, 0x1ff9)
      case 30 => Entry(i & 7, 0xf78f, 0xe606, 0xd49d, 0xc514, 0xb1ab, 0xa022, 0x92b9, 0x8330)
      case _ => Entry(i & 7, 0x7bc7, 0x6a4e, 0x58d5, 0x495c, 0x3de3, 0x2c6a, 0x1ef1, 0x0f78)
    }
  }

  function Xor(x: bv16, y: bv16): bv16 { x ^ y }

  function Wide(b: byte): bv16 { b as bv16 }

  /** One iteration of the loops in `dlms_crc16` and `dlms_crc16_verify`. */
  function TableStep(fcs: bv16, b: byte): bv16 {
    Xor(High(fcs), FcsTab(Low(Xor(fcs, Wide(b)))))
  }

  function Run(fcs: bv16, data: seq<byte>): bv16
    decreases |data|
  {
    if data == [] then fcs else Run(TableStep(fcs, data[0]), data[1..])
  }

  function Crc16(data: seq<byte>): bv16 { !Run(INITIAL, data) }

  predicate Verify(data: seq<byte>) { Run(INITIAL, data) == GOOD }

  lemma RunFrom(fcs: bv16, data: seq<byte>, next: nat)
    requires next < |data|
    ensures Run(fcs, data[next..]) == Run(TableStep(fcs, data[next]), data[next + 1..])
  {
    assert data[next..][1..] == data[next + 1..];
  }

  /** `dlms_crc16` */
  method ComputeCrc16(data: seq<byte>) returns (crc: bv16)
    ensures crc == Crc16(data)
  {
    var fcs := INITIAL;
    var next: nat, len: nat := 0, |data|;
    assert data[0..] == data;
    while len > 0
      invariant next + len == |data|
      invariant Run(fcs, data[next..]) == Run(INITIAL, data)
    {
      RunFrom(fcs, data, next);
      fcs := TableStep(fcs, data[next]);
      next, len := next + 1, len - 1;
    }
    crc := !fcs;
  }

  /** `dlms_crc16_verify` */
  method VerifyCrc16(data: seq<byte>) returns (ok: bool)
    ensures ok <==> Verify(data)
  {
    var fcs := INITIAL;
    var next: nat, len: nat := 0, |data|;
    assert data[0..] == data;
    while len > 0
      invariant next + len == |data|
      invariant Run(fcs, data[next..]) == Run(INITIAL, data)
    {
      RunFrom(fcs, data, next);
      fcs := TableStep(fcs, data[next]);
      next, len := next + 1, len - 1;
    }
    ok := fcs == GOOD;
  }

  // ---------- The bit-serial reference ----------

  /** One shift of the reflected register with polynomial x^16 + x^12 + x^5 + 1. */
  function Shift(x: bv16): bv16 { if x & 1 == 1 then (x >> 1) ^ 0x8408 else x >> 1 }

  function Shifts(x: bv16, k: nat): bv16
    decreases k
  {
    if k == 0 then x else Shifts(Shift(x), k - 1)
  }

  /** Feeding received bits into the register, one at a time. */
  function BitRun(fcs: bv16, bits: seq<bool>): bv16
    decreases |bits|
  {
    if bits == [] then fcs else BitRun(Shift(Xor(fcs, if bits[0] then 1 else 0)), bits[1..])
  }

  /** The low `k` bits of a word in transmission order, least significant first. */
  function WordBits(w: bv16, k: nat): (bits: seq<bool>)
    ensures |bits| == k
    decreases k
  {
    if k == 0 then [] else [w & 1 == 1] + WordBits(w >> 1, k - 1)
  }

  function Bits(data: seq<byte>): (bits: seq<bool>)
    ensures |bits| == 8 * |data|
  {
    if data == [] then [] else WordBits(Wide(data[0]), 8) + Bits(data[1..])
  }

  predicate Fits(w: bv16, k: nat)
    decreases k
  {
    if k == 0 then w == 0 else Fits(w >> 1, k - 1)
  }

  lemma ByteFits(b: byte, k: nat)
    requires k == 8
    ensures Fits(Wide(b), k)
  {
    assert Fits(b as bv16, 8);
  }

  function Shift8(x: bv16): bv16 { Shift(Shift(Shift(Shift(Shift(Shift(Shift(Shift(x)))))))) }

  lemma Shift8IsShifts(x: bv16, k: nat)
    requires k == 8
    ensures Shift8(x) == Shifts(x, k)
  {
    assert Shifts(x, 8) == Shift8(x);
  }

  lemma TableFirstPart(i: byte)
    requires i < 0x20
    ensures FcsTab(i) == Shift8(i as bv16)
  {
  }

  lemma TableSecondPart(i: byte)
    requires 0x20 <= i < 0x40
    ensures FcsTab(i) == Shift8(i as bv16)
  {
  }

  lemma TableThirdPart(i: byte)
    requires 0x40 <= i < 0x60
    ensures FcsTab(i) == Shift8(i as bv16)
  {
  }

  lemma TableFourthPart(i: byte)
    requires 0x60 <= i < 0x80
    ensures FcsTab(i) == Shift8(i as bv16)
  {
  }

  lemma TableFifthPart(i: byte)
    requires 0x80 <= i < 0xa0
    ensures FcsTab(i) == Shift8(i as bv16)
  {
  }

  lemma TableSixthPart(i: byte)
    requires 0xa0 <= i < 0xc0
    ensures FcsTab(i) == Shift8(i as bv16)
  {
  }

  lemma TableSeventhPart(i: byte)
    requires 0xc0 <= i < 0xe0
    ensures FcsTab(i) == Shift8(i as bv16)
  {
  }

  lemma TableEighthPart(i: byte)
    requires 0xe0 <= i
    ensures FcsTab(i) == Shift8(i as bv16)
  {
  }

  lemma TableEntry(i: byte, k: nat)
    requires k == 8
    ensures FcsTab(i) == Shifts(Wide(i), k)
  {
    hide FcsTab, Shift8;
    if i < 0x20 { TableFirstPart(i); }
    else if i < 0x40 { TableSecondPart(i); }
    else if i < 0x60 { TableThirdPart(i); }
    else if i < 0x80 { TableFourthPart(i); }
    else if i < 0xa0 { TableFifthPart(i); }
    else if i < 0xc0 { TableSixthPart(i); }
    else if i < 0xe0 { TableSeventhPart(i); }
    else { TableEighthPart(i); }
    Shift8IsShifts(i as bv16, k);
  }

  lemma ShiftEven(x: bv16)
    requires x & 1 == 0
    ensures Shift(x) == x >> 1
  {
  }

  /** Without a low octet eight shifts only shift. */
  lemma Shift8High(x: bv16)
    requires x & 0xff == 0
    ensures Shift8(x) == High(x)
  {
    hide Shift;
    ShiftEven(x);
    ShiftEven(x >> 1);
    ShiftEven(x >> 2);
    ShiftEven(x >> 3);
    ShiftEven(x >> 4);
    ShiftEven(x >> 5);
    ShiftEven(x >> 6);
    ShiftEven(x >> 7);
  }

  lemma SplitWord(x: bv16)
    ensures x == Xor(x & 0xff00, Wide(Low(x))) && High(x & 0xff00) == High(x) && (x & 0xff00) & 0xff == 0
  {
  }

  lemma ShiftLinearBits(x: bv16, y: bv16)
    ensures Shift(x ^ y) == Shift(x) ^ Shift(y)
  {
    if x & 1 == 1 { if y & 1 == 1 {} else {} } else { if y & 1 == 1 {} else {} }
  }

  lemma ShiftLinear(x: bv16, y: bv16)
    ensures Shift(Xor(x, y)) == Xor(Shift(x), Shift(y))
  {
    if x & 1 == 1 { if y & 1 == 1 { ShiftLinearBits(x, y); } else { ShiftLinearBits(x, y); } }
    else { if y & 1 == 1 { ShiftLinearBits(x, y); } else { ShiftLinearBits(x, y); } }
  }

  lemma {:induction false} ShiftsLinear(x: bv16, y: bv16, k: nat)
    ensures Shifts(Xor(x, y), k) == Xor(Shifts(x, k), Shifts(y, k))
    decreases k
  {
    if k > 0 {
      ShiftLinear(x, y);
      ShiftsLinear(Shift(x), Shift(y), k - 1);
    }
  }

  lemma ShiftsSplit(x: bv16, k: nat)
    requires k == 8
    ensures Shifts(x, k) == Xor(High(x), Shifts(Wide(Low(x)), k))
  {
    hide Xor, Wide, Low, High, Shift8, Shifts;
    SplitWord(x);
    ShiftsLinear(x & 0xff00, Wide(Low(x)), k);
    Shift8High(x & 0xff00);
    Shift8IsShifts(x & 0xff00, k);
  }

  lemma HighByte(fcs: bv16, b: byte)
    ensures High(Xor(fcs, Wide(b))) == High(fcs)
  {
  }

  /** A table step is eight shifts of the register with the octet added in. */
  lemma TableStepIsShifts(fcs: bv16, b: byte, k: nat)
    requires k == 8
    ensures TableStep(fcs, b) == Shifts(Xor(fcs, Wide(b)), k)
  {
    var x := Xor(fcs, Wide(b));
    TableEntry(Low(x), k);
    ShiftsSplit(x, k);
    HighByte(fcs, b);
  }

  function LowBit(w: bv16): bv16 { w & 1 }

  function Rest(w: bv16): bv16 { w & 0xfffe }

  lemma LowBitSplit(w: bv16)
    ensures Xor(LowBit(w), Rest(w)) == w && Rest(w) & 1 == 0 && Rest(w) >> 1 == w >> 1
    ensures LowBit(w) == if w & 1 == 1 then 1 else 0
  {
  }

  lemma XorAssocBits(x: bv16, y: bv16, z: bv16)
    ensures Xor(x ^ y, z) == Xor(x, y ^ z)
  {
  }

  lemma XorAssoc(x: bv16, y: bv16, z: bv16)
    ensures Xor(Xor(x, y), z) == Xor(x, Xor(y, z))
  {
    XorAssocBits(x, y, z);
  }

  lemma ShiftAddsRest(x: bv16, w: bv16)
    ensures Xor(Shift(Xor(x, if w & 1 == 1 then 1 else 0)), w >> 1) == Shift(Xor(x, w))
  {
    hide Xor, Shift, LowBit, Rest;
    LowBitSplit(w);
    XorAssoc(x, LowBit(w), Rest(w));
    ShiftLinear(Xor(x, LowBit(w)), Rest(w));
    ShiftEven(Rest(w));
  }

  lemma {:induction false} BitRunWord(f: bv16, w: bv16, k: nat)
    requires Fits(w, k)
    ensures BitRun(f, WordBits(w, k)) == Shifts(Xor(f, w), k)
    decreases k
  {
    if k > 0 {
      var bits := WordBits(w, k);
      assert bits[1..] == WordBits(w >> 1, k - 1);
      BitRunWord(Shift(Xor(f, if w & 1 == 1 then 1 else 0)), w >> 1, k - 1);
      ShiftAddsRest(f, w);
    }
  }

  lemma BitRunByte(f: bv16, b: byte, k: nat)
    requires k == 8
    ensures BitRun(f, WordBits(Wide(b), k)) == TableStep(f, b)
  {
    ByteFits(b, k);
    BitRunWord(f, Wide(b), k);
    TableStepIsShifts(f, b, k);
  }

  lemma {:induction false} BitRunConcat(f: bv16, s: seq<bool>, t: seq<bool>)
    ensures BitRun(f, s + t) == BitRun(BitRun(f, s), t)
    decreases |s|
  {
    if s == [] {
      assert s + t == t;
    } else {
      assert (s + t)[1..] == s[1..] + t;
      BitRunConcat(Shift(Xor(f, if s[0] then 1 else 0)), s[1..], t);
    }
  }

  /** The table-driven loop computes exactly the bit-by-bit CRC of the transmitted bit stream. */
  lemma {:induction false} TableIsBitSerial(f: bv16, data: seq<byte>)
    ensures Run(f, data) == BitRun(f, Bits(data))
    decreases |data|
  {
    if data != [] {
      var b, k := data[0], 8;
      calc {
        BitRun(f, Bits(data));
        { BitRunConcat(f, WordBits(Wide(b), k), Bits(data[1..])); }
        BitRun(BitRun(f, WordBits(Wide(b), k)), Bits(data[1..]));
        { BitRunByte(f, b, k); }
        BitRun(TableStep(f, b), Bits(data[1..]));
        { TableIsBitSerial(TableStep(f, b), data[1..]); }
        Run(f, data);
      }
    }
  }

  /** The check of any data: the complement of the register that starts with sixteen ones and takes the data in bit
      by bit; and data with its check behind it is good when that register ends at F0B8 (Appendix C.1 of RFC 1662). */
  lemma CheckIsBitSerial(data: seq<byte>)
    ensures Crc16(data) == !BitRun(0xffff, Bits(data))
    ensures Verify(data) <==> BitRun(0xffff, Bits(data)) == 0xf0b8
  {
    TableIsBitSerial(0xffff, data);
  }

  // ---------- The algebra of the register ----------

  lemma ShiftInjective(x: bv16, y: bv16)
    requires Shift(x) == Shift(y)
    ensures x == y
  {
  }

  lemma {:induction false} ShiftsInjective(x: bv16, y: bv16, k: nat)
    requires Shifts(x, k) == Shifts(y, k)
    ensures x == y
    decreases k
  {
    if k > 0 {
      ShiftsInjective(Shift(x), Shift(y), k - 1);
      ShiftInjective(x, y);
    }
  }

  lemma XorCancel(x: bv16, y: bv16, w: bv16)
    requires Xor(x, w) == Xor(y, w)
    ensures x == y
  {
  }

  lemma XorSwapBits(f: bv16, g: bv16, a: bv16, b: bv16)
    ensures Xor(f ^ g, a ^ b) == Xor(f ^ a, g ^ b)
  {
  }

  lemma XorSwap(f: bv16, g: bv16, a: bv16, b: bv16)
    ensures Xor(Xor(f, g), Xor(a, b)) == Xor(Xor(f, a), Xor(g, b))
  {
    XorSwapBits(f, g, a, b);
  }

  lemma WideXor(a: byte, b: byte)
    ensures Wide(a ^ b) == Xor(Wide(a), Wide(b))
  {
  }

  lemma TableStepInjective(f: bv16, g: bv16, b: byte)
    requires TableStep(f, b) == TableStep(g, b)
    ensures f == g
  {
    var k := 8;
    TableStepIsShifts(f, b, k);
    TableStepIsShifts(g, b, k);
    ShiftsInjective(Xor(f, Wide(b)), Xor(g, Wide(b)), k);
    XorCancel(f, g, Wide(b));
  }

  lemma TableStepLinear(f: bv16, g: bv16, a: byte, b: byte)
    ensures TableStep(Xor(f, g), a ^ b) == Xor(TableStep(f, a), TableStep(g, b))
  {
    var k := 8;
    TableStepIsShifts(f, a, k);
    TableStepIsShifts(g, b, k);
    TableStepIsShifts(Xor(f, g), a ^ b, k);
    WideXor(a, b);
    XorSwap(f, g, Wide(a), Wide(b));
    ShiftsLinear(Xor(f, Wide(a)), Xor(g, Wide(b)), k);
  }

  lemma {:induction false} RunConcat(f: bv16, s: seq<byte>, t: seq<byte>)
    ensures Run(f, s + t) == Run(Run(f, s), t)
    decreases |s|
  {
    if s == [] {
      assert s + t == t;
    } else {
      assert (s + t)[1..] == s[1..] + t;
      RunConcat(TableStep(f, s[0]), s[1..], t);
    }
  }

  /** No octet string merges two register states: what happens before it is never forgotten. */
  lemma {:induction false} RunInjective(f: bv16, g: bv16, data: seq<byte>)
    requires Run(f, data) == Run(g, data)
    ensures f == g
    decreases |data|
  {
    if data != [] {
      RunInjective(TableStep(f, data[0]), TableStep(g, data[0]), data[1..]);
      TableStepInjective(f, g, data[0]);
    }
  }

  // ---------- The trailer ----------

  lemma RunTwo(f: bv16, a: byte, b: byte)
    ensures Run(f, [a, b]) == TableStep(TableStep(f, a), b)
  {
    assert [a, b][1..] == [b];
    assert [b][1..] == [];
    var g := TableStep(f, a);
    assert Run(g, [b]) == Run(TableStep(g, b), []);
  }

  lemma TwoSteps(f: bv16, a: byte, b: byte, k: nat)
    requires k == 8
    ensures Run(f, [a, b]) == Shifts(Xor(Shifts(Xor(f, Wide(a)), k), Wide(b)), k)
  {
    RunTwo(f, a, b);
    TableStepIsShifts(f, a, k);
    TableStepIsShifts(TableStep(f, a), b, k);
  }

  lemma Complements(f: bv16, w: bv16)
    ensures var x := Xor(f, Wide(Low(!f))); High(x) == High(f) && Low(x) == 0xff
    ensures Xor(Xor(High(f), w), Wide(Low(High(!f)))) == Xor(w, 0xff)
  {
  }

  lemma GoodResidue()
    ensures Shift8(Xor(Shift8(0xff), 0xff)) == GOOD
  {
  }

  lemma WideOnes()
    ensures Wide(0xff) == 0xff
  {
  }

  /** The complement of the register, low octet first, leads to the residue. */
  lemma GoodTrailer(f: bv16)
    ensures Run(f, [Low(!f), Low(High(!f))]) == GOOD
  {
    hide FcsTab, TableStep, Xor, Wide, Low, High, Shift8, Shifts, Run;
    var k := 8;
    var a, b := Low(!f), Low(High(!f));
    var w := Shifts(Wide(0xff), k);
    Complements(f, w);
    TwoSteps(f, a, b, k);
    ShiftsSplit(Xor(f, Wide(a)), k);
    WideOnes();
    Shift8IsShifts(0xff, k);
    Shift8IsShifts(Xor(w, 0xff), k);
    GoodResidue();
  }

  lemma XorSame(x: bv16)
    ensures Xor(x, x) == 0
  {
  }

  lemma GoodBits(b: byte)
    ensures Shift8(Xor(GOOD, Wide(b))) != GOOD
  {
  }

  /** No single octet leads from the accepting state back to it, so a header check and a frame check
      that end one octet apart never both succeed. */
  lemma NeverGoodTwice(d: seq<byte>, b: byte)
    requires Verify(d)
    ensures !Verify(d + [b])
  {
    var k := 8;
    RunConcat(INITIAL, d, [b]);
    assert [b][1..] == [];
    TableStepIsShifts(GOOD, b, k);
    Shift8IsShifts(Xor(GOOD, Wide(b)), k);
    GoodBits(b);
  }

  // ---------- Error detection ----------

  /** The octets that differ between two strings of one length, as an error pattern. */
  function XorData(x: seq<byte>, y: seq<byte>): (e: seq<byte>)
    requires |x| == |y|
    ensures |e| == |x|
  {
    seq(|x|, i requires 0 <= i < |x| => x[i] ^ y[i])
  }

  /** The register is linear in its start state and in the data. */
  lemma {:induction false} RunLinear(f: bv16, g: bv16, x: seq<byte>, y: seq<byte>)
    requires |x| == |y|
    ensures Run(Xor(f, g), XorData(x, y)) == Xor(Run(f, x), Run(g, y))
    decreases |x|
  {
    if x != [] {
      assert XorData(x, y)[1..] == XorData(x[1..], y[1..]);
      TableStepLinear(f, g, x[0], y[0]);
      RunLinear(TableStep(f, x[0]), TableStep(g, y[0]), x[1..], y[1..]);
    }
  }

  lemma XorZero(x: bv16, y: bv16)
    ensures Xor(x, y) == 0 <==> x == y
  {
    if x == y {} else {}
  }

  /** An error pattern goes unnoticed in every accepted string or in none: exactly when the register,
      started at zero, returns to zero over it. */
  lemma UndetectedIff(x: seq<byte>, y: seq<byte>)
    requires |x| == |y| && Verify(x)
    ensures Verify(y) <==> Run(0, XorData(x, y)) == 0
  {
    RunLinear(INITIAL, INITIAL, x, y);
    XorZero(INITIAL, INITIAL);
    XorZero(Run(INITIAL, x), Run(INITIAL, y));
  }

  function Zeros(n: nat): (z: seq<byte>)
    ensures |z| == n && forall i :: 0 <= i < n ==> z[i] == 0
  {
    seq(n, _ => 0)
  }

  lemma {:induction false} RunZeros(n: nat)
    ensures Run(0, Zeros(n)) == 0
    decreases n
  {
    if n > 0 {
      var k := 8;
      assert Zeros(n)[1..] == Zeros(n - 1);
      TableStepIsShifts(0, 0, k);
      Shift8IsShifts(0, k);
      RunZeros(n - 1);
    }
  }

  /** Errors confined to a window are noticed when the window alone is. */
  lemma WindowDetected(at: nat, window: seq<byte>, rest: nat)
    requires Run(0, window) != 0
    ensures Run(0, Zeros(at) + window + Zeros(rest)) != 0
  {
    RunConcat(0, Zeros(at) + window, Zeros(rest));
    RunConcat(0, Zeros(at), window);
    RunZeros(at);
    RunZeros(rest);
    if Run(Run(0, window), Zeros(rest)) == 0 {
      RunInjective(Run(0, window), 0, Zeros(rest));
    }
  }

  lemma SameWhereZero(x: seq<byte>, y: seq<byte>)
    requires |x| == |y| && XorData(x, y) == Zeros(|x|)
    ensures x == y
  {
    forall i | 0 <= i < |x| ensures x[i] == y[i] {
      assert XorData(x, y)[i] == 0;
    }
  }

  lemma TwoBits(d0: byte, d1: byte)
    requires Shift8(Xor(Shift8(d0 as bv16), d1 as bv16)) == 0
    ensures d0 == 0 && d1 == 0
  {
  }

  lemma ZeroPlus(x: bv16)
    ensures Xor(0, x) == x
  {
  }

  lemma TwoOctetWindow(d0: byte, d1: byte)
    requires Run(0, [d0, d1]) == 0
    ensures d0 == 0 && d1 == 0
  {
    var k := 8;
    TwoSteps(0, d0, d1, k);
    ZeroPlus(Wide(d0));
    Shift8IsShifts(Wide(d0), k);
    Shift8IsShifts(Xor(Shift8(Wide(d0)), Wide(d1)), k);
    TwoBits(d0, d1);
  }

  lemma DifferenceOfTwo(a: byte, b: byte, c: byte, d: byte)
    ensures XorData([a, b], [c, d]) == [a ^ c, b ^ d]
  {
  }

  lemma SameOctet(a: byte, b: byte)
    requires a ^ b == 0
    ensures a == b
  {
  }

  /** No other two octets do. */
  lemma OnlyTrailer(f: bv16, a: byte, b: byte, c: byte, d: byte)
    requires Run(f, [a, b]) == Run(f, [c, d])
    ensures a == c && b == d
  {
    RunLinear(f, f, [a, b], [c, d]);
    DifferenceOfTwo(a, b, c, d);
    XorSame(f);
    XorSame(Run(f, [a, b]));
    hide *;
    TwoOctetWindow(a ^ c, b ^ d);
    SameOctet(a, c);
    SameOctet(b, d);
  }

  /** A body is accepted exactly with its own CRC behind it, low octet first. */
  lemma VerifyIffTrailer(d: seq<byte>, a: byte, b: byte)
    ensures Verify(d + [a, b]) <==> a == Low(Crc16(d)) && b == Low(High(Crc16(d)))
  {
    hide FcsTab, TableStep, Xor, Wide, High, Low, Run;
    var f := Run(INITIAL, d);
    RunConcat(INITIAL, d, [a, b]);
    GoodTrailer(f);
    if Verify(d + [a, b]) { OnlyTrailer(f, a, b, Low(!f), Low(High(!f))); }
  }

  /** Changing any one octet, or any two adjacent octets, of an accepted string is always noticed. */
  lemma TwoAdjacentOctetsDetected(x: seq<byte>, y: seq<byte>, at: nat)
    requires |x| == |y| && at + 2 <= |x| && x != y
    requires forall i :: 0 <= i < |x| && i != at && i != at + 1 ==> x[i] == y[i]
    requires Verify(x)
    ensures !Verify(y)
  {
    hide FcsTab, TableStep;
    var e := XorData(x, y);
    var d0, d1 := e[at], e[at + 1];
    assert e == Zeros(at) + [d0, d1] + Zeros(|x| - at - 2) by {
      forall i | 0 <= i < |x| && i != at && i != at + 1 ensures e[i] == 0 { assert x[i] == y[i]; }
    }
    if Run(0, [d0, d1]) == 0 {
      TwoOctetWindow(d0, d1);
      SameWhereZero(x, y);
      assert false;
    }
    WindowDetected(at, [d0, d1], |x| - at - 2);
    UndetectedIff(x, y);
  }

  lemma BurstBits(d0: byte, d1: byte, d2: byte, p: bv16, k: nat)
    requires k <= 8
    requires (d0 as bv24) | ((d1 as bv24) << 8) | ((d2 as bv24) << 16) == (p as bv24) << k
    requires Shift8(Xor(Shift8(Xor(Shift8(d0 as bv16), d1 as bv16)), d2 as bv16)) == 0
    ensures p == 0
  {
    if k == 0 {} else if k == 1 {} else if k == 2 {} else if k == 3 {} else if k == 4 {}
    else if k == 5 {} else if k == 6 {} else if k == 7 {} else {}
  }

  lemma BurstWindow(d0: byte, d1: byte, d2: byte, p: bv16, k: nat)
    requires k <= 8 && (d0 as bv24) | ((d1 as bv24) << 8) | ((d2 as bv24) << 16) == (p as bv24) << k
    requires Run(0, [d0, d1, d2]) == 0
    ensures p == 0
  {
    hide FcsTab, TableStep, Shift8, Xor;
    var n := 8;
    assert [d0, d1, d2] == [d0] + [d1, d2];
    RunConcat(0, [d0], [d1, d2]);
    assert Run(0, [d0]) == Run(TableStep(0, d0), []);
    TableStepIsShifts(0, d0, n);
    ZeroPlus(Wide(d0));
    var f := Shifts(Wide(d0), n);
    TwoSteps(f, d1, d2, n);
    Shift8IsShifts(Wide(d0), n);
    Shift8IsShifts(Xor(f, Wide(d1)), n);
    Shift8IsShifts(Xor(Shift8(Xor(f, Wide(d1))), Wide(d2)), n);
    BurstBits(d0, d1, d2, p, k);
  }

  /** Every error burst of at most 16 consecutive transmitted bits, however it lies across octet
      boundaries, is noticed. */
  lemma BurstDetected(x: seq<byte>, y: seq<byte>, at: nat, p: bv16, k: nat)
    requires |x| == |y| && at + 3 <= |x| && k <= 8 && p != 0
    requires forall i :: 0 <= i < |x| && !(at <= i < at + 3) ==> x[i] == y[i]
    requires ((x[at] ^ y[at]) as bv24) | (((x[at + 1] ^ y[at + 1]) as bv24) << 8)
           | (((x[at + 2] ^ y[at + 2]) as bv24) << 16) == (p as bv24) << k
    requires Verify(x)
    ensures !Verify(y)
  {
    hide FcsTab, TableStep;
    var e := XorData(x, y);
    assert e == Zeros(at) + [e[at], e[at + 1], e[at + 2]] + Zeros(|x| - at - 3) by {
      forall i | 0 <= i < |x| && !(at <= i < at + 3) ensures e[i] == 0 { assert x[i] == y[i]; }
    }
    if Run(0, [e[at], e[at + 1], e[at + 2]]) == 0 { BurstWindow(e[at], e[at + 1], e[at + 2], p, k); }
    WindowDetected(at, [e[at], e[at + 1], e[at + 2]], |x| - at - 3);
    UndetectedIff(x, y);
  }

  function Ones(bits: seq<bool>): nat {
    if bits == [] then 0 else (if bits[0] then 1 else 0) + Ones(bits[1..])
  }

  predicate Odd(x: bv16) { x & 1 == 1 }

  function Half(x: bv16): bv16 { x >> 1 }

  /** Whether an odd number of the low `k` bits are set. */
  predicate OddBits(x: bv16, k: nat)
    decreases k
  {
    if k == 0 then false else if Odd(x) then !OddBits(Half(x), k - 1) else OddBits(Half(x), k - 1)
  }

  /** `z` is the sum of `x` and `y` in its low `k` bits. */
  predicate SumBits(x: bv16, y: bv16, z: bv16, k: nat)
    decreases k
  {
    k > 0 ==> (Odd(z) <==> (Odd(x) != Odd(y))) && SumBits(Half(x), Half(y), Half(z), k - 1)
  }

  lemma LowBitXor(x: bv16, y: bv16)
    ensures Odd(Xor(x, y)) <==> (Odd(x) != Odd(y))
    ensures Half(Xor(x, y)) == Xor(Half(x), Half(y))
  {
  }

  lemma {:induction false} XorSumBits(x: bv16, y: bv16, k: nat)
    ensures SumBits(x, y, Xor(x, y), k)
    decreases k
  {
    if k > 0 {
      LowBitXor(x, y);
      XorSumBits(Half(x), Half(y), k - 1);
    }
  }

  lemma {:induction false} OddBitsSum(x: bv16, y: bv16, z: bv16, k: nat)
    requires SumBits(x, y, z, k)
    ensures OddBits(z, k) <==> (OddBits(x, k) != OddBits(y, k))
    decreases k
  {
    if k > 0 { OddBitsSum(Half(x), Half(y), Half(z), k - 1); }
  }

  lemma OddBitsXor(x: bv16, y: bv16, k: nat)
    ensures OddBits(Xor(x, y), k) <==> (OddBits(x, k) != OddBits(y, k))
  {
    XorSumBits(x, y, k);
    OddBitsSum(x, y, Xor(x, y), k);
  }

  lemma {:induction false} OddBitsExtend(x: bv16, k: nat)
    requires Fits(x, k)
    ensures OddBits(x, k + 1) <==> OddBits(x, k)
    decreases k
  {
    if k > 0 { OddBitsExtend(Half(x), k - 1); }
  }

  lemma HalfFits(x: bv16, k: nat)
    requires k == 15
    ensures Fits(Half(x), k)
  {
    assert Fits(x >> 1, 15);
  }

  lemma ShiftCases(x: bv16)
    ensures Shift(x) == if Odd(x) then Xor(Half(x), 0x8408) else Half(x)
  {
  }

  lemma {:induction false} ZeroParity(x: bv16, k: nat)
    requires x == 0
    ensures !OddBits(x, k)
    decreases k
  {
    if k > 0 { ZeroParity(Half(x), k - 1); }
  }

  lemma OddBitsStep(x: bv16, half: bv16, k: nat)
    requires k > 0 && half == Half(x)
    ensures OddBits(x, k) <==> (Odd(x) != OddBits(half, k - 1))
  {
  }

  lemma BitParity()
    ensures OddBits(1, 16)
  {
    OddBitsStep(1, 0, 16);
    ZeroParity(0, 15);
  }

  /** The three terms 0x8000, 0x0400 and 0x0008. */
  lemma PolynomialParity()
    ensures OddBits(0x8408, 16)
  {
    hide OddBits;
    ZeroParity(0, 0);
    OddBitsStep(0x0001, 0, 1);
    OddBitsStep(0x0002, 0x0001, 2);
    OddBitsStep(0x0004, 0x0002, 3);
    OddBitsStep(0x0008, 0x0004, 4);
    OddBitsStep(0x0010, 0x0008, 5);
    OddBitsStep(0x0021, 0x0010, 6);
    OddBitsStep(0x0042, 0x0021, 7);
    OddBitsStep(0x0084, 0x0042, 8);
    OddBitsStep(0x0108, 0x0084, 9);
    OddBitsStep(0x0210, 0x0108, 10);
    OddBitsStep(0x0420, 0x0210, 11);
    OddBitsStep(0x0840, 0x0420, 12);
    OddBitsStep(0x1081, 0x0840, 13);
    OddBitsStep(0x2102, 0x1081, 14);
    OddBitsStep(0x4204, 0x2102, 15);
    OddBitsStep(0x8408, 0x4204, 16);
  }

  /** Shifting keeps the parity of the register: the polynomial has an even number of terms. */
  lemma ShiftKeepsParity(x: bv16, k: nat)
    requires k == 16
    ensures OddBits(Shift(x), k) <==> OddBits(x, k)
  {
    ShiftCases(x);
    HalfFits(x, k - 1);
    OddBitsExtend(Half(x), k - 1);
    OddBitsXor(Half(x), 0x8408, k);
    PolynomialParity();
  }

  lemma {:induction false} BitRunParity(f: bv16, bits: seq<bool>, k: nat)
    requires k == 16
    ensures OddBits(BitRun(f, bits), k) <==> (OddBits(f, k) != (Ones(bits) % 2 == 1))
    decreases |bits|
  {
    if bits != [] {
      var b: bv16 := if bits[0] then 1 else 0;
      OddBitsXor(f, b, k);
      BitParity();
      ZeroParity(0, k);
      ShiftKeepsParity(Xor(f, b), k);
      BitRunParity(Shift(Xor(f, b)), bits[1..], k);
    }
  }

  /** Any odd number of flipped bits, anywhere in an accepted string, is noticed. */
  lemma OddErrorsDetected(x: seq<byte>, y: seq<byte>)
    requires |x| == |y| && Verify(x)
    requires Ones(Bits(XorData(x, y))) % 2 == 1
    ensures !Verify(y)
  {
    var e, k := XorData(x, y), 16;
    UndetectedIff(x, y);
    TableIsBitSerial(0, e);
    BitRunParity(0, Bits(e), k);
    ZeroParity(0, k);
  }
}

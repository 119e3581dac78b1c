/**
  The CRC-32 of `crc32.c`: a byte-at-a-time loop over a table of 256 constants.
  Its reference is the polynomial long division of section 3.2.9 of IEEE 802.3,
  carried out one bit at a time in transmission order.
 */
module Crc32 {
  import opened Bytes

  // The lookup table of the source, sixteen constants a row.
  const ROW_0: seq<bv32> := [
    0x00000000, 0x77073096, 0xee0e612c, 0x990951ba, 0x076dc419, 0x706af48f, 0xe963a535, 0x9e6495a3,
    0x0edb8832, 0x79dcb8a4, 0xe0d5e91e, 0x97d2d988, 0x09b64c2b, 0x7eb17cbd, 0xe7b82d07, 0x90bf1d91
  ]
  const ROW_1: seq<bv32> := [
    0x1db71064, 0x6ab020f2, 0xf3b97148, 0x84be41de, 0x1adad47d, 0x6ddde4eb, 0xf4d4b551, 0x83d385c7,
    0x136c9856, 0x646ba8c0, 0xfd62f97a, 0x8a65c9ec, 0x14015c4f, 0x63066cd9, 0xfa0f3d63, 0x8d080df5
  ]
  const ROW_2: seq<bv32> := [
    0x3b6e20c8, 0x4c69105e, 0xd56041e4, 0xa2677172, 0x3c03e4d1, 0x4b04d447, 0xd20d85fd, 0xa50ab56b,
    0x35b5a8fa, 0x42b2986c, 0xdbbbc9d6, 0xacbcf940, 0x32d86ce3, 0x45df5c75, 0xdcd60dcf, 0xabd13d59
  ]
  const ROW_3: seq<bv32> := [
    0x26d930ac, 0x51de003a, 0xc8d75180, 0xbfd06116, 0x21b4f4b5, 0x56b3c423, 0xcfba9599, 0xb8bda50f,
    0x2802b89e, 0x5f058808, 0xc60cd9b2, 0xb10be924, 0x2f6f7c87, 0x58684c11, 0xc1611dab, 0xb6662d3d
  ]
  const ROW_4: seq<bv32> := [
    0x76dc4190, 0x01db7106, 0x98d220bc, 0xefd5102a, 0x71b18589, 0x06b6b51f, 0x9fbfe4a5, 0xe8b8d433,
    0x7807c9a2, 0x0f00f934, 0x9609a88e, 0xe10e9818, 0x7f6a0dbb, 0x086d3d2d, 0x91646c97, 0xe6635c01
  ]
  const ROW_5: seq<bv32> := [
    0x6b6b51f4, 0x1c6c6162, 0x856530d8, 0xf262004e, 0x6c0695ed, 0x1b01a57b, 0x8208f4c1, 0xf50fc457,
    0x65b0d9c6, 0x12b7e950, 0x8bbeb8ea, 0xfcb9887c, 0x62dd1ddf, 0x15da2d49, 0x8cd37cf3, 0xfbd44c65
  ]
  const ROW_6: seq<bv32> := [
    0x4db26158, 0x3ab551ce, 0xa3bc0074, 0xd4bb30e2, 0x4adfa541, 0x3dd895d7, 0xa4d1c46d, 0xd3d6f4fb,
    0x4369e96a, 0x346ed9fc, 0xad678846, 0xda60b8d0, 0x44042d73, 0x33031de5, 0xaa0a4c5f, 0xdd0d7cc9
  ]
  const ROW_7: seq<bv32> := [
    0x5005713c, 0x270241aa, 0xbe0b1010, 0xc90c2086, 0x5768b525, 0x206f85b3, 0xb966d409, 0xce61e49f,
    0x5edef90e, 0x29d9c998, 0xb0d09822, 0xc7d7a8b4, 0x59b33d17, 0x2eb40d81, 0xb7bd5c3b, 0xc0ba6cad
  ]
  const ROW_8: seq<bv32> := [
    0xedb88320, 0x9abfb3b6, 0x03b6e20c, 0x74b1d29a, 0xead54739, 0x9dd277af, 0x04db2615, 0x73dc1683,
    0xe3630b12, 0x94643b84, 0x0d6d6a3e, 0x7a6a5aa8, 0xe40ecf0b, 0x9309ff9d, 0x0a00ae27, 0x7d079eb1
  ]
  const ROW_9: seq<bv32> := [
    0xf00f9344, 0x8708a3d2, 0x1e01f268, 0x6906c2fe, 0xf762575d, 0x806567cb, 0x196c3671, 0x6e6b06e7,
    0xfed41b76, 0x89d32be0, 0x10da7a5a, 0x67dd4acc, 0xf9b9df6f, 0x8ebeeff9, 0x17b7be43, 0x60b08ed5
  ]
  const ROW_A: seq<bv32> := [
    0xd6d6a3e8, 0xa1d1937e, 0x38d8c2c4, 0x4fdff252, 0xd1bb67f1, 0xa6bc5767, 0x3fb506dd, 0x48b2364b,
    0xd80d2bda, 0xaf0a1b4c, 0x36034af6, 0x41047a60, 0xdf60efc3, 0xa867df55, 0x316e8eef, 0x4669be79
  ]
  const ROW_B: seq<bv32> := [
    0xcb61b38c, 0xbc66831a, 0x256fd2a0, 0x5268e236, 0xcc0c7795, 0xbb0b4703, 0x220216b9, 0x5505262f,
    0xc5ba3bbe, 0xb2bd0b28, 0x2bb45a92, 0x5cb36a04, 0xc2d7ffa7, 0xb5d0cf31, 0x2cd99e8b, 0x5bdeae1d
  ]
  const ROW_C: seq<bv32> := [
    0x9b64c2b0, 0xec63f226, 0x756aa39c, 0x026d930a, 0x9c0906a9, 0xeb0e363f, 0x72076785, 0x05005713,
    0x95bf4a82, 0xe2b87a14, 0x7bb12bae, 0x0cb61b38, 0x92d28e9b, 0xe5d5be0d, 0x7cdcefb7, 0x0bdbdf21
  ]
  const ROW_D: seq<bv32> := [
    0x86d3d2d4, 0xf1d4e242, 0x68ddb3f8, 0x1fda836e, 0x81be16cd, 0xf6b9265b, 0x6fb077e1, 0x18b74777,
    0x88085ae6, 0xff0f6a70, 0x66063bca, 0x11010b5c, 0x8f659eff, 0xf862ae69, 0x616bffd3, 0x166ccf45
  ]
  const ROW_E: seq<bv32> := [
    0xa00ae278, 0xd70dd2ee, 0x4e048354, 0x3903b3c2, 0xa7672661, 0xd06016f7, 0x4969474d, 0x3e6e77db,
    0xaed16a4a, 0xd9d65adc, 0x40df0b66, 0x37d83bf0, 0xa9bcae53, 0xdebb9ec5, 0x47b2cf7f, 0x30b5ffe9
  ]
  const ROW_F: seq<bv32> := [
    0xbdbdf21c, 0xcabac28a, 0x53b39330, 0x24b4a3a6, 0xbad03605, 0xcdd70693, 0x54de5729, 0x23d967bf,
    0xb3667a2e, 0xc4614ab8, 0x5d681b02, 0x2a6f2b94, 0xb40bbe37, 0xc30c8ea1, 0x5a05df1b, 0x2d02ef8d
  ]

  const CRC32_TAB: seq<seq<bv32>> := [
    ROW_0, ROW_1, ROW_2, ROW_3, ROW_4, ROW_5, ROW_6, ROW_7,
    ROW_8, ROW_9, ROW_A, ROW_B, ROW_C, ROW_D, ROW_E, ROW_F
  ]

  // The constant at index v, for v below 256.
  function Tab(v: bv32): bv32
    requires v < 256
  {
    CRC32_TAB[(v >> 4) as int][(v & 0xf) as int]
  }

  // The generator polynomial with the coefficient of x^31 in bit 0.
  const POLYNOMIAL: bv32 := 0xedb88320

  // What is added when the bit shifted out of the register is a one.
  function Carry(v: bv32): bv32 {
    if v & 1 == 1 then POLYNOMIAL else 0
  }

  // One division step: shift out a bit, subtract the generator if it was a one.
  function Fold(v: bv32): bv32 {
    (v >> 1) ^ Carry(v)
  }

  function Fold8(v: bv32): bv32 {
    Fold(Fold(Fold(Fold(Fold(Fold(Fold(Fold(v))))))))
  }

  ghost predicate EntryIsFolded(row: seq<bv32>, base: bv32, k: bv32)
    requires |row| == 16 && k < 16
  {
    row[k as int] == Fold8(base + k)
  }

  ghost predicate RowIsFolded(row: seq<bv32>, base: bv32) {
    && |row| == 16
    && forall k: bv32 | k < 16 :: EntryIsFolded(row, base, k)
  }

  lemma Nibble(k: bv32)
    requires k < 16
    ensures k == 0 || k == 1 || k == 2 || k == 3 || k == 4 || k == 5 || k == 6 || k == 7
         || k == 8 || k == 9 || k == 10 || k == 11 || k == 12 || k == 13 || k == 14 || k == 15
  {
  }

  lemma Row0()
    ensures RowIsFolded(ROW_0, 0x00)
  {
    forall k: bv32 | k < 16 ensures EntryIsFolded(ROW_0, 0x00, k) {
      Nibble(k);
    }
  }

  lemma Row1()
    ensures RowIsFolded(ROW_1, 0x10)
  {
    forall k: bv32 | k < 16 ensures EntryIsFolded(ROW_1, 0x10, k) {
      Nibble(k);
    }
  }

  lemma Row2()
    ensures RowIsFolded(ROW_2, 0x20)
  {
    forall k: bv32 | k < 16 ensures EntryIsFolded(ROW_2, 0x20, k) {
      Nibble(k);
    }
  }

  lemma Row3()
    ensures RowIsFolded(ROW_3, 0x30)
  {
    forall k: bv32 | k < 16 ensures EntryIsFolded(ROW_3, 0x30, k) {
      Nibble(k);
    }
  }

  lemma Row4()
    ensures RowIsFolded(ROW_4, 0x40)
  {
    forall k: bv32 | k < 16 ensures EntryIsFolded(ROW_4, 0x40, k) {
      Nibble(k);
    }
  }

  lemma Row5()
    ensures RowIsFolded(ROW_5, 0x50)
  {
    forall k: bv32 | k < 16 ensures EntryIsFolded(ROW_5, 0x50, k) {
      Nibble(k);
    }
  }

  lemma Row6()
    ensures RowIsFolded(ROW_6, 0x60)
  {
    forall k: bv32 | k < 16 ensures EntryIsFolded(ROW_6, 0x60, k) {
      Nibble(k);
    }
  }

  lemma Row7()
    ensures RowIsFolded(ROW_7, 0x70)
  {
    forall k: bv32 | k < 16 ensures EntryIsFolded(ROW_7, 0x70, k) {
      Nibble(k);
    }
  }

  lemma Row8()
    ensures RowIsFolded(ROW_8, 0x80)
  {
    forall k: bv32 | k < 16 ensures EntryIsFolded(ROW_8, 0x80, k) {
      Nibble(k);
    }
  }

  lemma Row9()
    ensures RowIsFolded(ROW_9, 0x90)
  {
    forall k: bv32 | k < 16 ensures EntryIsFolded(ROW_9, 0x90, k) {
      Nibble(k);
    }
  }

  lemma RowA()
    ensures RowIsFolded(ROW_A, 0xA0)
  {
    forall k: bv32 | k < 16 ensures EntryIsFolded(ROW_A, 0xA0, k) {
      Nibble(k);
    }
  }

  lemma RowB()
    ensures RowIsFolded(ROW_B, 0xB0)
  {
    forall k: bv32 | k < 16 ensures EntryIsFolded(ROW_B, 0xB0, k) {
      Nibble(k);
    }
  }

  lemma RowC()
    ensures RowIsFolded(ROW_C, 0xC0)
  {
    forall k: bv32 | k < 16 ensures EntryIsFolded(ROW_C, 0xC0, k) {
      Nibble(k);
    }
  }

  lemma RowD()
    ensures RowIsFolded(ROW_D, 0xD0)
  {
    forall k: bv32 | k < 16 ensures EntryIsFolded(ROW_D, 0xD0, k) {
      Nibble(k);
    }
  }

  lemma RowE()
    ensures RowIsFolded(ROW_E, 0xE0)
  {
    forall k: bv32 | k < 16 ensures EntryIsFolded(ROW_E, 0xE0, k) {
      Nibble(k);
    }
  }

  lemma RowF()
    ensures RowIsFolded(ROW_F, 0xF0)
  {
    forall k: bv32 | k < 16 ensures EntryIsFolded(ROW_F, 0xF0, k) {
      Nibble(k);
    }
  }

  lemma LowerRows(h: bv32)
    requires h < 8
    ensures RowIsFolded(CRC32_TAB[h as int], h << 4)
  {
    Nibble(h);
    Row0();
    Row1();
    Row2();
    Row3();
    Row4();
    Row5();
    Row6();
    Row7();
  }

  lemma UpperRows(h: bv32)
    requires 8 <= h < 16
    ensures RowIsFolded(CRC32_TAB[h as int], h << 4)
  {
    Nibble(h);
    Row8();
    Row9();
    RowA();
    RowB();
    RowC();
    RowD();
    RowE();
    RowF();
  }

  // Each of the 256 constants is its own index folded eight times.
  lemma TableIsFolded(v: bv32)
    requires v < 256
    ensures Tab(v) == Fold8(v)
  {
    if v >> 4 < 8 {
      LowerRows(v >> 4);
    } else {
      UpperRows(v >> 4);
    }
    assert EntryIsFolded(CRC32_TAB[(v >> 4) as int], (v >> 4) << 4, v & 0xf);
    assert ((v >> 4) << 4) + (v & 0xf) == v;
  }

  // ------------------------------------------- the register, bit by bit

  function Bit(b: bool): bv32 {
    if b then 1 else 0
  }

  // Addition over GF(2), named so that proofs can treat it as an operation
  // with laws and leave the individual bits alone.
  function Xor(a: bv32, b: bv32): bv32 {
    a ^ b
  }

  // The shift register after a string of bits, first bit first.
  function Register(r: bv32, bits: seq<bool>): bv32
    decreases |bits|
  {
    if bits == [] then r else Register(Fold(Xor(r, Bit(bits[0]))), bits[1..])
  }

  function Word(b: byte): bv32 {
    b as bv32
  }

  lemma WordIsByte(b: byte)
    ensures Word(b) < 256
  {
  }

  function Low(v: bv32): bv32 {
    v & 0xff
  }

  function High(v: bv32): bv32 {
    v & 0xffff_ff00
  }

  function Shift(v: bv32): bv32 {
    v >> 1
  }

  function Shift8(v: bv32): bv32 {
    v >> 8
  }

  lemma XorCommutes(a: bv32, b: bv32)
    ensures Xor(a, b) == Xor(b, a)
  {
  }

  lemma XorAssociates(a: bv32, b: bv32, c: bv32)
    ensures Xor(Xor(a, b), c) == Xor(a, Xor(b, c))
  {
  }

  lemma Xor4(a: bv32, b: bv32, p: bv32, q: bv32)
    ensures Xor(Xor(a, b), Xor(p, q)) == Xor(Xor(a, p), Xor(b, q))
  {
    hide *;
    XorAssociates(a, b, Xor(p, q));
    XorAssociates(b, p, q);
    XorCommutes(b, p);
    XorAssociates(p, b, q);
    XorAssociates(a, p, Xor(b, q));
  }

  lemma ShiftXor(x: bv32, y: bv32)
    ensures Shift(Xor(x, y)) == Xor(Shift(x), Shift(y))
  {
  }

  lemma CarryXor(x: bv32, y: bv32)
    ensures Carry(Xor(x, y)) == Xor(Carry(x), Carry(y))
  {
  }

  lemma FoldIs(x: bv32)
    ensures Fold(x) == Xor(Shift(x), Carry(x))
  {
  }

  lemma FoldXor(x: bv32, y: bv32)
    ensures Fold(Xor(x, y)) == Xor(Fold(x), Fold(y))
  {
    hide *;
    FoldIs(x);
    FoldIs(y);
    FoldIs(Xor(x, y));
    CarryXor(x, y);
    ShiftXor(x, y);
    Xor4(Shift(x), Shift(y), Carry(x), Carry(y));
  }

  function Folds(v: bv32, n: nat): bv32
    decreases n
  {
    if n == 0 then v else Folds(Fold(v), n - 1)
  }

  lemma {:induction false} FoldsXor(x: bv32, y: bv32, n: nat)
    ensures Folds(Xor(x, y), n) == Xor(Folds(x, n), Folds(y, n))
    decreases n
  {
    hide Fold, Xor;
    if n == 0 {
    } else {
      FoldXor(x, y);
      FoldsXor(Fold(x), Fold(y), n - 1);
    }
  }

  lemma Folds8(v: bv32)
    ensures Folds(v, 8) == Fold8(v)
  {
    hide Fold;
    assert Folds(v, 8) == Folds(Fold(Fold(Fold(Fold(Fold(v))))), 3);
  }

  lemma Fold8OfHigh(x: bv32)
    ensures Fold8(High(x)) == Shift8(x)
  {
  }

  lemma LowHigh(x: bv32)
    ensures x == Xor(Low(x), High(x))
  {
  }

  lemma Fold8Splits(x: bv32)
    ensures Fold8(x) == Xor(Fold8(Low(x)), Shift8(x))
  {
    hide *;
    LowHigh(x);
    FoldsXor(Low(x), High(x), 8);
    Folds8(Low(x));
    Folds8(High(x));
    Folds8(x);
    Fold8OfHigh(x);
  }

  lemma ByteShiftsOut(r: bv32, b: byte)
    ensures Shift8(Xor(r, Word(b))) == Shift8(r)
  {
    WordIsByte(b);
    hide Word;
  }

  lemma LowIsByte(x: bv32)
    ensures Low(x) < 256
  {
  }

  // The table form of the source is eight steps of the shift register.
  lemma TableStep(r: bv32, b: byte)
    ensures Low(Xor(r, Word(b))) < 256
    ensures Xor(Tab(Low(Xor(r, Word(b)))), Shift8(r)) == Fold8(Xor(r, Word(b)))
  {
    hide *;
    LowIsByte(Xor(r, Word(b)));
    TableIsFolded(Low(Xor(r, Word(b))));
    Fold8Splits(Xor(r, Word(b)));
    ByteShiftsOut(r, b);
  }

  // A byte goes over the line with its least significant bit first.
  function BitsOf(v: bv32, n: nat): seq<bool>
    decreases n
  {
    if n == 0 then [] else [v & 1 == 1] + BitsOf(Shift(v), n - 1)
  }

  function Bits(data: seq<byte>): seq<bool> {
    if data == [] then [] else BitsOf(Word(data[0]), 8) + Bits(data[1..])
  }

  function Shifts(v: bv32, n: nat): bv32
    decreases n
  {
    if n == 0 then v else Shifts(Shift(v), n - 1)
  }

  function Odd(v: bv32): bv32 {
    v & 1
  }

  function Even(v: bv32): bv32 {
    v & 0xffff_fffe
  }

  lemma OddEven(v: bv32)
    ensures v == Xor(Odd(v), Even(v))
  {
  }

  lemma OddIsBit(v: bv32)
    ensures Odd(v) == Bit(v & 1 == 1)
  {
    if v & 1 != 1 {
      assert v & 1 == 0;
    }
  }

  lemma EvenOnlyShifts(v: bv32)
    ensures Carry(Even(v)) == 0
    ensures Shift(Even(v)) == Shift(v)
  {
  }

  lemma XorZero(v: bv32)
    ensures Xor(v, 0) == v && Xor(0, v) == v
  {
  }

  lemma ShiftIn(r: bv32, v: bv32)
    ensures Fold(Xor(r, v)) == Xor(Fold(Xor(r, Bit(v & 1 == 1))), Shift(v))
  {
    hide *;
    OddEven(v);
    OddIsBit(v);
    XorAssociates(r, Odd(v), Even(v));
    FoldXor(Xor(r, Odd(v)), Even(v));
    FoldIs(Even(v));
    EvenOnlyShifts(v);
    XorZero(Shift(v));
  }

  // Bits sent one by one, or all added at once and then folded.
  lemma {:induction false} RegisterOfWord(r: bv32, v: bv32, n: nat)
    ensures Folds(Xor(r, v), n) == Xor(Register(r, BitsOf(v, n)), Shifts(v, n))
    decreases n
  {
    hide Fold, Xor, Shift, Bit;
    if n == 0 {
    } else {
      ShiftIn(r, v);
      var bits := BitsOf(v, n);
      assert bits[0] == (v & 1 == 1) && bits[1..] == BitsOf(Shift(v), n - 1);
      RegisterOfWord(Fold(Xor(r, Bit(v & 1 == 1))), Shift(v), n - 1);
    }
  }

  lemma ByteIsGone(v: bv32)
    requires v < 256
    ensures Shifts(v, 8) == 0
  {
    assert Shifts(v, 8) == Shifts(Shift(Shift(Shift(Shift(v)))), 4);
  }

  // One byte through the table is that byte's eight bits through the register.
  lemma TableStepIsRegister(r: bv32, b: byte)
    ensures Low(Xor(r, Word(b))) < 256
    ensures Xor(Tab(Low(Xor(r, Word(b)))), Shift8(r)) == Register(r, BitsOf(Word(b), 8))
  {
    hide *;
    WordIsByte(b);
    TableStep(r, b);
    Folds8(Xor(r, Word(b)));
    RegisterOfWord(r, Word(b), 8);
    ByteIsGone(Word(b));
    XorZero(Register(r, BitsOf(Word(b), 8)));
  }

  lemma {:induction false} RegisterConcat(r: bv32, a: seq<bool>, b: seq<bool>)
    ensures Register(r, a + b) == Register(Register(r, a), b)
    decreases |a|
  {
    hide Fold, Xor;
    if a == [] {
      assert a + b == b;
    } else {
      assert (a + b)[1..] == a[1..] + b;
      RegisterConcat(Fold(Xor(r, Bit(a[0]))), a[1..], b);
    }
  }

  lemma {:induction false} BitsConcat(a: seq<byte>, b: seq<byte>)
    ensures Bits(a + b) == Bits(a) + Bits(b)
    decreases |a|
  {
    hide BitsOf, Word;
    if a == [] {
      assert a + b == b;
    } else {
      assert (a + b)[1..] == a[1..] + b;
      BitsConcat(a[1..], b);
    }
  }

  // ------------------------------------------------------------ the code

  function Not(v: bv32): bv32 {
    !v
  }

  // The checksum of data continued from an earlier checksum.
  function CrcNext(data: seq<byte>, lastCrc: bv32): bv32 {
    Not(Register(Not(lastCrc), Bits(data)))
  }

  function Crc(data: seq<byte>): bv32 {
    CrcNext(data, 0)
  }

  lemma NextByte(r: bv32, data: seq<byte>)
    requires data != []
    ensures Register(r, Bits(data)) == Register(Register(r, BitsOf(Word(data[0]), 8)), Bits(data[1..]))
  {
    hide Register, BitsOf, Word;
    RegisterConcat(r, BitsOf(Word(data[0]), 8), Bits(data[1..]));
  }

  lemma NoBits(r: bv32)
    ensures Register(r, Bits([])) == r
  {
  }

  method Crc32Next(data: seq<byte>, lastCrc: bv32) returns (crc: bv32)
    ensures crc == CrcNext(data, lastCrc)
  {
    hide Register, Bits, BitsOf, Tab, Not, Xor, Low, Shift8, Word;
    crc := Not(lastCrc);
    var p, len := 0, |data|;
    while len > 0
      invariant 0 <= p <= |data| && len == |data| - p
      invariant Register(crc, Bits(data[p..])) == Register(Not(lastCrc), Bits(data))
    {
      NextByte(crc, data[p..]);
      assert data[p..][1..] == data[p + 1..];
      TableStepIsRegister(crc, data[p]);
      crc := Xor(Tab(Low(Xor(crc, Word(data[p])))), Shift8(crc));
      p, len := p + 1, len - 1;
    }
    assert data[p..] == [];
    NoBits(crc);
    crc := Not(crc);
  }

  method Crc32(data: seq<byte>) returns (crc: bv32)
    ensures crc == Crc(data)
  {
    crc := Crc32Next(data, 0);
  }

  lemma InvertTwice(x: bv32)
    ensures Not(Not(x)) == x
  {
  }

  // No bytes leave a checksum as it was.
  lemma CrcOfNothing()
    ensures Crc([]) == 0
  {
    hide Not, Register, Bits;
    NoBits(Not(0));
    InvertTwice(0);
  }

  // Feeding a message in two pieces gives the checksum of the whole.
  lemma CrcComposes(a: seq<byte>, b: seq<byte>, lastCrc: bv32)
    ensures CrcNext(a + b, lastCrc) == CrcNext(b, CrcNext(a, lastCrc))
  {
    hide Register, Bits, Not;
    BitsConcat(a, b);
    RegisterConcat(Not(lastCrc), Bits(a), Bits(b));
    InvertTwice(Register(Not(lastCrc), Bits(a)));
  }

  // ------------------------------------------------ polynomial division

  // The coefficient that enters a 32-bit window at its far end.
  function Top(b: bool): bv32 {
    if b then 0x8000_0000 else 0
  }

  // A window of 32 coefficients moved along a bit string.
  function Slide(w: bv32, bits: seq<bool>): bv32
    decreases |bits|
  {
    if bits == [] then w else Slide(Xor(Shift(w), Top(bits[0])), bits[1..])
  }

  // Long division: the leading coefficient leaves the window, the generator is
  // subtracted when it was a one, and the next coefficient is brought down.
  function Divide(w: bv32, rest: seq<bool>): bv32
    decreases |rest|
  {
    if rest == [] then w else Divide(Xor(Fold(w), Top(rest[0])), rest[1..])
  }

  function Zeros(n: nat): (z: seq<bool>)
    ensures |z| == n && forall i | 0 <= i < n :: !z[i]
  {
    seq(n, i => false)
  }

  // Section 3.2.9 of IEEE 802.3: the message is multiplied by x^32, its first
  // 32 coefficients are complemented, and the remainder of the division by the
  // generator is complemented.
  function FrameCheck(message: seq<bool>): bv32 {
    var dividend := message + Zeros(32);
    Not(Divide(Xor(0xffff_ffff, Slide(0, dividend[..32])), dividend[32..]))
  }

  lemma ShiftZero()
    ensures Shift(0) == 0
  {
  }

  lemma {:induction false} ShiftsXor(x: bv32, y: bv32, n: nat)
    ensures Shifts(Xor(x, y), n) == Xor(Shifts(x, n), Shifts(y, n))
    decreases n
  {
    hide Xor, Shift;
    if n == 0 {
    } else {
      ShiftXor(x, y);
      ShiftsXor(Shift(x), Shift(y), n - 1);
    }
  }

  lemma {:induction false} SlideXor(w: bv32, bits: seq<bool>)
    ensures Slide(w, bits) == Xor(Shifts(w, |bits|), Slide(0, bits))
    decreases |bits|
  {
    hide Xor, Shift, Top;
    if bits == [] {
      XorZero(w);
    } else {
      var u, t := bits[1..], Top(bits[0]);
      XorZero(t);
      ShiftZero();
      SlideXor(Xor(Shift(w), t), u);
      SlideXor(t, u);
      ShiftsXor(Shift(w), t, |u|);
      XorAssociates(Shifts(Shift(w), |u|), Shifts(t, |u|), Slide(0, u));
    }
  }

  // The n lowest bits of v are zero.
  predicate LowZeros(v: bv32, n: nat)
    decreases n
  {
    n == 0 || (Odd(v) == 0 && LowZeros(Shift(v), n - 1))
  }

  lemma {:induction false} LowZerosShift(v: bv32, n: nat, k: nat)
    requires k < n && LowZeros(v, n)
    ensures Odd(Shifts(v, k)) == 0
    decreases k
  {
    hide Odd, Shift;
    if k == 0 {
    } else {
      LowZerosShift(Shift(v), n - 1, k - 1);
    }
  }

  lemma FourAtOnce(v: bv32, n: nat)
    requires n >= 4
    ensures Shifts(v, n) == Shifts(v >> 4, n - 4)
    ensures v & 0xf == 0 ==> LowZeros(v, n) == LowZeros(v >> 4, n - 4)
  {
    var w := Shift(Shift(v));
    assert Shifts(v, n) == Shifts(w, n - 2) == Shifts(Shift(Shift(w)), n - 4);
    if v & 0xf == 0 {
      assert Odd(v) == 0 && Odd(Shift(v)) == 0 && Odd(w) == 0 && Odd(Shift(w)) == 0;
      assert LowZeros(v, n) == LowZeros(w, n - 2) == LowZeros(Shift(Shift(w)), n - 4);
    }
  }

  lemma {:induction false} ZeroFalls(n: nat)
    ensures Shifts(0, n) == 0 && LowZeros(0, n)
    decreases n
  {
    if n == 0 {
    } else {
      ZeroFalls(n - 1);
    }
  }

  lemma EightFalls()
    ensures Shifts(8, 3) == 1 && LowZeros(8, 3) && Shifts(8, 4) == 0
  {
    assert Shifts(2, 1) == 1 && Shifts(2, 2) == 0 && LowZeros(2, 1);
  }

  lemma TopFalls(b: bool)
    ensures LowZeros(Top(b), 31)
    ensures Shifts(Top(b), 31) == Bit(b)
    ensures Shifts(Top(b), 32) == 0
  {
    hide Shifts, LowZeros;
    ZeroFalls(31);
    ZeroFalls(32);
    FourAtOnce(0x8000_0000, 31);
    FourAtOnce(0x0800_0000, 27);
    FourAtOnce(0x0080_0000, 23);
    FourAtOnce(0x0008_0000, 19);
    FourAtOnce(0x0000_8000, 15);
    FourAtOnce(0x0000_0800, 11);
    FourAtOnce(0x0000_0080, 7);
    EightFalls();
    FourAtOnce(0x8000_0000, 32);
    FourAtOnce(0x0800_0000, 28);
    FourAtOnce(0x0080_0000, 24);
    FourAtOnce(0x0008_0000, 20);
    FourAtOnce(0x0000_8000, 16);
    FourAtOnce(0x0000_0800, 12);
    FourAtOnce(0x0000_0080, 8);
  }

  lemma OddXor(x: bv32, y: bv32)
    ensures Odd(Xor(x, y)) == Xor(Odd(x), Odd(y))
  {
  }

  lemma OddZero()
    ensures Odd(0) == 0
  {
  }

  lemma {:induction false} ShortSlideIsEven(bits: seq<bool>)
    requires |bits| <= 31
    ensures Odd(Slide(0, bits)) == 0
  {
    hide Xor, Shift, Top, Odd, LowZeros, Shifts;
    if bits == [] {
      assert Slide(0, bits) == 0;
      OddZero();
    } else {
      var u, t := bits[1..], Top(bits[0]);
      ShiftZero();
      XorZero(t);
      SlideXor(t, u);
      TopFalls(bits[0]);
      LowZerosShift(t, 31, |u|);
      ShortSlideIsEven(u);
      OddXor(Shifts(t, |u|), Slide(0, u));
      XorZero(0);
    }
  }

  lemma OddBit(b: bool)
    ensures Odd(Bit(b)) == Bit(b)
  {
  }

  lemma OddTest(v: bv32, b: bool)
    requires Odd(v) == Bit(b)
    ensures (v & 1 == 1) == b
  {
  }

  lemma {:induction false} SlideConcat(w: bv32, bits: seq<bool>, b: bool)
    ensures Slide(w, bits + [b]) == Xor(Shift(Slide(w, bits)), Top(b))
    decreases |bits|
  {
    hide Xor, Shift, Top;
    if bits == [] {
      assert Slide(w, [b]) == Slide(Xor(Shift(w), Top(b)), []);
      assert bits + [b] == [b];
    } else {
      assert (bits + [b])[1..] == bits[1..] + [b];
      SlideConcat(Xor(Shift(w), Top(bits[0])), bits[1..], b);
    }
  }

  // The window over s[..32] holds s[0] in its lowest bit, and one slide later
  // it is the window over s[1..33].
  lemma WindowMoves(s: seq<bool>)
    requires |s| > 32
    ensures Odd(Slide(0, s[..32])) == Bit(s[0])
    ensures Xor(Shift(Slide(0, s[..32])), Top(s[32])) == Slide(0, s[1..][..32])
  {
    hide Xor, Shift, Top, Odd, Shifts, LowZeros;
    var t := Top(s[0]);
    ShiftZero();
    XorZero(t);
    TopFalls(s[0]);
    var u := s[1..32];
    assert s[..32] == [s[0]] + u;
    assert s[..32][1..] == u;
    SlideXor(t, u);
    ShortSlideIsEven(u);
    OddXor(Bit(s[0]), Slide(0, u));
    OddBit(s[0]);
    XorZero(Bit(s[0]));
    var v := s[1..][..32];
    assert v == u + [s[32]];
    SlideXor(t, v);
    XorZero(Slide(0, v));
    SlideConcat(t, u, s[32]);
  }

  lemma ZerosSlide(n: nat)
    ensures Slide(0, Zeros(n)) == 0
    decreases n
  {
    hide Xor, Shift;
    if n == 0 {
    } else {
      assert Zeros(n)[1..] == Zeros(n - 1);
      ShiftZero();
      XorZero(0);
      ZerosSlide(n - 1);
    }
  }

  // The shift register, which never sees the 32 appended zeros, carries the
  // difference between the window of the division and the message still to come.
  lemma {:induction false} DivisionIsRegister(r: bv32, m: seq<bool>)
    ensures Divide(Xor(r, Slide(0, (m + Zeros(32))[..32])), (m + Zeros(32))[32..]) == Register(r, m)
    decreases |m|
  {
    hide Xor, Fold, Top, Slide, Shift;
    var s := m + Zeros(32);
    if m == [] {
      assert s[..32] == Zeros(32) && s[32..] == [];
      ZerosSlide(32);
      XorZero(r);
    } else {
      var w := Slide(0, s[..32]);
      WindowMoves(s);
      OddTest(w, m[0]);
      ShiftIn(r, w);
      var r' := Fold(Xor(r, Bit(m[0])));
      XorAssociates(r', Shift(w), Top(s[32]));
      var s' := m[1..] + Zeros(32);
      assert s[1..] == s';
      assert s[32..][1..] == s'[32..];
      assert Register(r, m) == Register(r', m[1..]);
      DivisionIsRegister(r', m[1..]);
      assert Divide(Xor(r, w), s[32..]) == Divide(Xor(Fold(Xor(r, w)), Top(s[32])), s'[32..]);
    }
  }

  // The table-driven code computes the frame check sequence of the standard.
  lemma CrcIsFrameCheck(data: seq<byte>)
    ensures Crc(data) == FrameCheck(Bits(data))
  {
    hide Register, Bits, Divide, Slide, Xor;
    assert Not(0) == 0xffff_ffff;
    DivisionIsRegister(0xffff_ffff, Bits(data));
  }
}

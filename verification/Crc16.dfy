/** The CRC-16 of fup.src/crc16.c: the table-driven byte step and the loop over a
    buffer, against the bit-by-bit division by 0x8005 with reflected bits. */
module Crc16 {

  // ---------------------------------------------- bit-serial reference

  // One bit: the bit that falls out says whether the divisor is subtracted;
  // 0xA001 is the polynomial 0x8005 with its bits reversed.
  function BitStep(crc: bv16): bv16 {
    (crc >> 1) ^ ((crc & 1) * 0xA001)
  }

  function Xor(x: bv16, y: bv16): bv16 { x ^ y }

  function Wide(b: bv8): bv16 { b as bv16 }

  function High(x: bv16): bv16 { x >> 8 }

  function Bits8(crc: bv16): bv16 {
    BitStep(BitStep(BitStep(BitStep(BitStep(BitStep(BitStep(BitStep(crc))))))))
  }

  function Serial(crc: bv16, data: seq<bv8>): bv16 {
    if data == [] then crc
    else Bits8(Xor(Serial(crc, data[..|data| - 1]), Wide(data[|data| - 1])))
  }

  // --------------------------------------------------------- the program

  // One line of the table, as the source lays it out: the entry at column k.
  function Line(k: bv8, e0: bv16, e1: bv16, e2: bv16, e3: bv16, e4: bv16, e5: bv16, e6: bv16, e7: bv16): bv16 {
    if k == 0 then e0 else if k == 1 then e1 else if k == 2 then e2 else if k == 3 then e3
    else if k == 4 then e4 else if k == 5 then e5 else if k == 6 then e6 else e7
  }

  // Entries 0 to 63; r is the line, k the column.
  function Table0(r: bv8, k: bv8): bv16 {
    if r == 0 then Line(k, 0x0000, 0xC0C1, 0xC181, 0x0140, 0xC301, 0x03C0, 0x0280, 0xC241)
    else if r == 1 then Line(k, 0xC601, 0x06C0, 0x0780, 0xC741, 0x0500, 0xC5C1, 0xC481, 0x0440)
    else if r == 2 then Line(k, 0xCC01, 0x0CC0, 0x0D80, 0xCD41, 0x0F00, 0xCFC1, 0xCE81, 0x0E40)
    else if r == 3 then Line(k, 0x0A00, 0xCAC1, 0xCB81, 0x0B40, 0xC901, 0x09C0, 0x0880, 0xC841)
    else if r == 4 then Line(k, 0xD801, 0x18C0, 0x1980, 0xD941, 0x1B00, 0xDBC1, 0xDA81, 0x1A40)
    else if r == 5 then Line(k, 0x1E00, 0xDEC1, 0xDF81, 0x1F40, 0xDD01, 0x1DC0, 0x1C80, 0xDC41)
    else if r == 6 then Line(k, 0x1400, 0xD4C1, 0xD581, 0x1540, 0xD701, 0x17C0, 0x1680, 0xD641)
    else Line(k, 0xD201, 0x12C0, 0x1380, 0xD341, 0x1100, 0xD1C1, 0xD081, 0x1040)
  }

  // Entries 64 to 127; r is the line, k the column.
  function Table64(r: bv8, k: bv8): bv16 {
    if r == 8 then Line(k, 0xF001, 0x30C0, 0x3180, 0xF141, 0x3300, 0xF3C1, 0xF281, 0x3240)
    else if r == 9 then Line(k, 0x3600, 0xF6C1, 0xF781, 0x3740, 0xF501, 0x35C0, 0x3480, 0xF441)
    else if r == 10 then Line(k, 0x3C00, 0xFCC1, 0xFD81, 0x3D40, 0xFF01, 0x3FC0, 0x3E80, 0xFE41)
    else if r == 11 then Line(k, 0xFA01, 0x3AC0, 0x3B80, 0xFB41, 0x3900, 0xF9C1, 0xF881, 0x3840)
    else if r == 12 then Line(k, 0x2800, 0xE8C1, 0xE981, 0x2940, 0xEB01, 0x2BC0, 0x2A80, 0xEA41)
    else if r == 13 then Line(k, 0xEE01, 0x2EC0, 0x2F80, 0xEF41, 0x2D00, 0xEDC1, 0xEC81, 0x2C40)
    else if r == 14 then Line(k, 0xE401, 0x24C0, 0x2580, 0xE541, 0x2700, 0xE7C1, 0xE681, 0x2640)
    else Line(k, 0x2200, 0xE2C1, 0xE381, 0x2340, 0xE101, 0x21C0, 0x2080, 0xE041)
  }

  // Entries 128 to 191; r is the line, k the column.
  function Table128(r: bv8, k: bv8): bv16 {
    if r == 16 then Line(k, 0xA001, 0x60C0, 0x6180, 0xA141, 0x6300, 0xA3C1, 0xA281, 0x6240)
    else if r == 17 then Line(k, 0x6600, 0xA6C1, 0xA781, 0x6740, 0xA501, 0x65C0, 0x6480, 0xA441)
    else if r == 18 then Line(k, 0x6C00, 0xACC1, 0xAD81, 0x6D40, 0xAF01, 0x6FC0, 0x6E80, 0xAE41)
    else if r == 19 then Line(k, 0xAA01, 0x6AC0, 0x6B80, 0xAB41, 0x6900, 0xA9C1, 0xA881, 0x6840)
    else if r == 20 then Line(k, 0x7800, 0xB8C1, 0xB981, 0x7940, 0xBB01, 0x7BC0, 0x7A80, 0xBA41)
    else if r == 21 then Line(k, 0xBE01, 0x7EC0, 0x7F80, 0xBF41, 0x7D00, 0xBDC1, 0xBC81, 0x7C40)
    else if r == 22 then Line(k, 0xB401, 0x74C0, 0x7580, 0xB541, 0x7700, 0xB7C1, 0xB681, 0x7640)
    else Line(k, 0x7200, 0xB2C1, 0xB381, 0x7340, 0xB101, 0x71C0, 0x7080, 0xB041)
  }

  // Entries 192 to 255; r is the line, k the column.
  function Table192(r: bv8, k: bv8): bv16 {
    if r == 24 then Line(k, 0x5000, 0x90C1, 0x9181, 0x5140, 0x9301, 0x53C0, 0x5280, 0x9241)
    else if r == 25 then Line(k, 0x9601, 0x56C0, 0x5780, 0x9741, 0x5500, 0x95C1, 0x9481, 0x5440)
    else if r == 26 then Line(k, 0x9C01, 0x5CC0, 0x5D80, 0x9D41, 0x5F00, 0x9FC1, 0x9E81, 0x5E40)
    else if r == 27 then Line(k, 0x5A00, 0x9AC1, 0x9B81, 0x5B40, 0x9901, 0x59C0, 0x5880, 0x9841)
    else if r == 28 then Line(k, 0x8801, 0x48C0, 0x4980, 0x8941, 0x4B00, 0x8BC1, 0x8A81, 0x4A40)
    else if r == 29 then Line(k, 0x4E00, 0x8EC1, 0x8F81, 0x4F40, 0x8D01, 0x4DC0, 0x4C80, 0x8C41)
    else if r == 30 then Line(k, 0x4400, 0x84C1, 0x8581, 0x4540, 0x8701, 0x47C0, 0x4680, 0x8641)
    else Line(k, 0x8201, 0x42C0, 0x4380, 0x8341, 0x4100, 0x81C1, 0x8081, 0x4040)
  }

  // crc16_table.
  function Table(i: bv8): bv16 {
    var r, k := i >> 3, i & 7;
    if r < 8 then Table0(r, k) else if r < 16 then Table64(r, k)
    else if r < 24 then Table128(r, k) else Table192(r, k)
  }

  function Low(x: bv16): bv8 {
    (x & 0xFF) as bv8
  }

  // crc16_byte.
  function Crc16Byte(crc: bv16, data: bv8): bv16 {
    Xor(High(crc), Table(Low(Xor(crc, Wide(data)))))
  }

  // crc16 on a buffer, as a function.
  function Crc(crc: bv16, data: seq<bv8>): bv16 {
    if data == [] then crc
    else Crc16Byte(Crc(crc, data[..|data| - 1]), data[|data| - 1])
  }

  // crc16: the loop over the buffer.
  method Crc16(crc: bv16, buffer: seq<bv8>) returns (r: bv16)
    ensures r == Crc(crc, buffer)
    ensures r == Serial(crc, buffer)
  {
    hide Crc16Byte;
    r := crc;
    var pos := 0;
    while pos < |buffer|
      invariant pos <= |buffer|
      invariant r == Crc(crc, buffer[..pos])
    {
      assert buffer[..pos + 1][..pos] == buffer[..pos];
      r := Crc16Byte(r, buffer[pos]);
      pos := pos + 1;
    }
    assert buffer[..pos] == buffer;
    TableIsSerial(crc, buffer);
  }

  // ------------------------------------------------- the table is the division

  lemma Table0Is(i: bv8)
    requires 0 <= i && i < 64
    ensures Table(i) == Bits8(Wide(i))
  {
  }

  lemma Table64Is(i: bv8)
    requires 64 <= i && i < 128
    ensures Table(i) == Bits8(Wide(i))
  {
  }

  lemma Table128Is(i: bv8)
    requires 128 <= i && i < 192
    ensures Table(i) == Bits8(Wide(i))
  {
  }

  lemma Table192Is(i: bv8)
    requires 192 <= i
    ensures Table(i) == Bits8(Wide(i))
  {
  }

  lemma TableEntry(i: bv8)
    ensures Table(i) == Bits8(Wide(i))
  {
    hide Table, Bits8, Wide;
    if i < 64 {
      Table0Is(i);
    } else if i < 128 {
      Table64Is(i);
    } else if i < 192 {
      Table128Is(i);
    } else {
      Table192Is(i);
    }
  }

  lemma StepLinear(x: bv16, y: bv16)
    ensures BitStep(Xor(x, y)) == Xor(BitStep(x), BitStep(y))
  {
  }

  /** A byte step is linear: differences go through it by themselves. */
  lemma Bits8Linear(x: bv16, y: bv16)
    ensures Bits8(Xor(x, y)) == Xor(Bits8(x), Bits8(y))
  {
    hide BitStep, Xor;
    var x1, y1 := BitStep(x), BitStep(y);
    var x2, y2 := BitStep(x1), BitStep(y1);
    var x3, y3 := BitStep(x2), BitStep(y2);
    var x4, y4 := BitStep(x3), BitStep(y3);
    var x5, y5 := BitStep(x4), BitStep(y4);
    var x6, y6 := BitStep(x5), BitStep(y5);
    var x7, y7 := BitStep(x6), BitStep(y6);
    StepLinear(x, y); StepLinear(x1, y1); StepLinear(x2, y2); StepLinear(x3, y3);
    StepLinear(x4, y4); StepLinear(x5, y5); StepLinear(x6, y6); StepLinear(x7, y7);
  }

  // The division works on the low byte only; the high byte is shifted down.
  lemma Bits8Split(x: bv16)
    ensures Bits8(x) == Xor(High(x), Bits8(Wide(Low(x))))
  {
    HalvesJoin(x);
    ShiftsDown(x & 0xFF00);
    hide Bits8, Xor, High, Wide, Low;
    Bits8Linear(x & 0xFF00, Wide(Low(x)));
  }

  lemma HalvesJoin(x: bv16)
    ensures x == Xor(x & 0xFF00, Wide(Low(x))) && High(x & 0xFF00) == High(x) && (x & 0xFF00) & 0xFF == 0
  {
  }

  lemma ShiftsDown(x: bv16)
    requires x & 0xFF == 0
    ensures Bits8(x) == High(x)
  {
  }

  lemma HighByteKept(crc: bv16, data: bv8)
    ensures High(Xor(crc, Wide(data))) == High(crc)
  {
  }

  lemma ByteIsSerial(crc: bv16, data: bv8)
    ensures Crc16Byte(crc, data) == Bits8(Xor(crc, Wide(data)))
  {
    hide Bits8, Table, Low, High, Xor, Wide;
    var x := Xor(crc, Wide(data));
    Bits8Split(x);
    HighByteKept(crc, data);
    TableEntry(Low(x));
  }

  /** The table-driven CRC is the bit-by-bit division, on every buffer. */
  lemma {:induction false} TableIsSerial(crc: bv16, data: seq<bv8>)
    ensures Crc(crc, data) == Serial(crc, data)
  {
    hide Bits8, Crc16Byte;
    if data != [] {
      TableIsSerial(crc, data[..|data| - 1]);
      ByteIsSerial(Crc(crc, data[..|data| - 1]), data[|data| - 1]);
    }
  }

  /** The CRC of a concatenation continues from the CRC of its first part. */
  lemma {:induction false} CrcAppend(crc: bv16, a: seq<bv8>, b: seq<bv8>)
    ensures Crc(crc, a + b) == Crc(Crc(crc, a), b)
  {
    hide Crc16Byte;
    if b == [] {
      assert a + b == a;
    } else {
      CrcAppend(crc, a, b[..|b| - 1]);
      assert (a + b)[..|a + b| - 1] == a + b[..|b| - 1];
    }
  }

  // ------------------------------------------------------- what it detects

  lemma Bits8Injective(x: bv16, y: bv16)
    requires Bits8(x) == Bits8(y)
    ensures x == y
  {
  }

  lemma XorCancel(c: bv16, d: bv16, e: bv16)
    requires Xor(c, e) == Xor(d, e)
    ensures c == d
  {
  }

  // Two registers that differ still differ after the same byte.
  lemma SameByteKeepsDifference(c: bv16, d: bv16, data: bv8)
    requires Crc16Byte(c, data) == Crc16Byte(d, data)
    ensures c == d
  {
    hide Crc16Byte, Bits8, Xor, Wide;
    var e := Wide(data);
    ByteIsSerial(c, data);
    ByteIsSerial(d, data);
    Bits8Injective(Xor(c, e), Xor(d, e));
    XorCancel(c, d, e);
  }

  lemma {:induction false} TailKeepsDifference(c: bv16, d: bv16, tail: seq<bv8>)
    requires Crc(c, tail) == Crc(d, tail)
    ensures c == d
  {
    hide Crc16Byte;
    if tail != [] {
      SameByteKeepsDifference(Crc(c, tail[..|tail| - 1]), Crc(d, tail[..|tail| - 1]), tail[|tail| - 1]);
      TailKeepsDifference(c, d, tail[..|tail| - 1]);
    }
  }

  // The byte step of a nonzero byte changes the high byte of the register.
  lemma HighByteChanges(e: bv16)
    requires e < 256 && Bits8(e) < 256
    ensures e == 0
  {
  }

  lemma XorOfBytes(c: bv16, x: bv8, y: bv8)
    ensures Xor(Xor(c, Wide(x)), Xor(c, Wide(y))) < 256
    ensures Xor(Xor(c, Wide(x)), Xor(c, Wide(y))) == 0 ==> x == y
  {
  }

  lemma XorMoves(u: bv16, v: bv16, x: bv8, y: bv8)
    requires Xor(u, Wide(x)) == Xor(v, Wide(y))
    ensures Xor(u, v) < 256
    ensures Xor(u, v) == 0 ==> x == y
  {
  }

  lemma Bits8Zero()
    ensures Bits8(0) == 0
  {
  }

  lemma TwoBytesDiffer(c: bv16, x0: bv8, x1: bv8, y0: bv8, y1: bv8)
    requires Crc16Byte(Crc16Byte(c, x0), x1) == Crc16Byte(Crc16Byte(c, y0), y1)
    ensures x0 == y0 && x1 == y1
  {
    hide Crc16Byte, Bits8, Xor, Wide;
    ByteIsSerial(c, x0);
    ByteIsSerial(c, y0);
    var u, v := Crc16Byte(c, x0), Crc16Byte(c, y0);
    ByteIsSerial(u, x1);
    ByteIsSerial(v, y1);
    Bits8Injective(Xor(u, Wide(x1)), Xor(v, Wide(y1)));
    XorMoves(u, v, x1, y1);
    Bits8Linear(Xor(c, Wide(x0)), Xor(c, Wide(y0)));
    XorOfBytes(c, x0, y0);
    HighByteChanges(Xor(Xor(c, Wide(x0)), Xor(c, Wide(y0))));
    Bits8Zero();
  }

  lemma CrcOfOne(crc: bv16, x: bv8)
    ensures Crc(crc, [x]) == Crc16Byte(crc, x)
  {
    hide Crc16Byte;
    assert [x][..0] == [];
  }

  lemma CrcOfTwo(crc: bv16, x0: bv8, x1: bv8)
    ensures Crc(crc, [x0, x1]) == Crc16Byte(Crc16Byte(crc, x0), x1)
  {
    hide Crc16Byte, Crc;
    assert [x0, x1] == [x0] + [x1];
    CrcAppend(crc, [x0], [x1]);
    CrcOfOne(crc, x0);
    CrcOfOne(Crc16Byte(crc, x0), x1);
  }

  /** Two buffers of equal length that differ only within two neighbouring bytes
      have different CRCs. */
  lemma DetectsTwoBytes(crc: bv16, head: seq<bv8>, x: seq<bv8>, y: seq<bv8>, tail: seq<bv8>)
    requires |x| == |y| <= 2 && Crc(crc, head + x + tail) == Crc(crc, head + y + tail)
    ensures x == y
  {
    hide Crc, Crc16Byte;
    CrcAppend(crc, head + x, tail);
    CrcAppend(crc, head + y, tail);
    CrcAppend(crc, head, x);
    CrcAppend(crc, head, y);
    var c := Crc(crc, head);
    TailKeepsDifference(Crc(c, x), Crc(c, y), tail);
    if |x| == 2 {
      assert x == [x[0], x[1]] && y == [y[0], y[1]];
      CrcOfTwo(c, x[0], x[1]);
      CrcOfTwo(c, y[0], y[1]);
      TwoBytesDiffer(c, x[0], x[1], y[0], y[1]);
    } else if |x| == 1 {
      assert x == [x[0]] && y == [y[0]];
      CrcOfOne(c, x[0]);
      CrcOfOne(c, y[0]);
      TwoBytesDiffer(c, x[0], 0, y[0], 0);
    }
  }
}
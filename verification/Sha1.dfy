/** The SHA-1 implementation of mup.src/sh1.cpp and sh1.h: the transform with its
    16-word circular schedule and unrolled rounds, and the streaming context,
    against sections 4, 7 and 8 of FIPS PUB 180-1. How four bytes are read as a
    word is a parameter of everything here. */
module Sha1 {
  import opened Octets

  type Word = bv32
  type Load = seq<bv8> -> Word

  // ------------------------------------- FIPS PUB 180-1, sections 4 to 7

  datatype Regs = Regs(a: Word, b: Word, c: Word, d: Word, e: Word)

  const INITIAL: Regs := Regs(0x67452301, 0xEFCDAB89, 0x98BADCFE, 0x10325476, 0xC3D2E1F0)

  // S^n(X) of section 3.
  function Rol(x: Word, n: nat): Word
    requires n <= 32
  {
    (x << n) | (x >> (32 - n))
  }

  // Section 5.
  function Ch(b: Word, c: Word, d: Word): Word { (b & c) | (!b & d) }

  function Parity(b: Word, c: Word, d: Word): Word { b ^ c ^ d }

  function Maj(b: Word, c: Word, d: Word): Word { (b & c) | (b & d) | (c & d) }

  function F(t: nat, b: Word, c: Word, d: Word): Word {
    if t < 20 then Ch(b, c, d)
    else if t < 40 then Parity(b, c, d)
    else if t < 60 then Maj(b, c, d)
    else Parity(b, c, d)
  }

  // Section 6.
  function K(t: nat): Word {
    if t < 20 then 0x5A827999
    else if t < 40 then 0x6ED9EBA1
    else if t < 60 then 0x8F1BBCDC
    else 0xCA62C1D6
  }

  // The rotations that sections 6 and 7 ask for.
  lemma RolIs(x: Word)
    ensures Rol(x, 1) == x.RotateLeft(1) && Rol(x, 5) == x.RotateLeft(5) && Rol(x, 30) == x.RotateLeft(30)
  {
  }

  // n is the root of m, rounded down.
  ghost predicate IsRoot(n: nat, m: nat) {
    n * n <= m < (n + 1) * (n + 1)
  }

  /** The four constants are the roots of 2, 3, 5 and 10, each for 20 operations,
      in units of 2^-30. */
  lemma ConstantsAreRoots(t: nat)
    requires t < 80
    ensures IsRoot(K(t) as nat, [2, 3, 5, 10][t / 20] * 0x1000_0000_0000_0000)
  {
  }

  function Xor4(a: Word, b: Word, c: Word, d: Word): Word { a ^ b ^ c ^ d }

  // Step b of section 7: the 80-word schedule.
  function W(m: seq<Word>, t: nat): Word
    requires |m| == 16
  {
    if t < 16 then m[t]
    else Rol(Xor4(W(m, t - 3), W(m, t - 8), W(m, t - 14), W(m, t - 16)), 1)
  }

  function Add(x: Word, y: Word): Word { x + y }

  // TEMP of step d of section 7.
  function Temp(a5: Word, f: Word, e: Word, w: Word, k: Word): Word { a5 + f + e + w + k }

  // Step d of section 7.
  function Round(r: Regs, t: nat, w: Word): Regs {
    Regs(Temp(Rol(r.a, 5), F(t, r.b, r.c, r.d), r.e, w, K(t)), r.a, Rol(r.b, 30), r.c, r.d)
  }

  function Rounds(s: Regs, m: seq<Word>, t: nat): Regs
    requires |m| == 16
  {
    if t == 0 then s else Round(Rounds(s, m, t - 1), t - 1, W(m, t - 1))
  }

  // Section 7 for one block.
  function Compress(s: Regs, m: seq<Word>): Regs
    requires |m| == 16
  {
    var r := Rounds(s, m, 80);
    Regs(Add(s.a, r.a), Add(s.b, r.b), Add(s.c, r.c), Add(s.d, r.d), Add(s.e, r.e))
  }

  // ----------------------------------------------------------- the transform

  function Slot(i: nat): (r: nat)
    ensures r < 16
  {
    i % 16
  }

  // The 16-word block before round i: it holds the last 16 schedule words, each
  // at its index modulo 16.
  ghost predicate Window(block: seq<Word>, m: seq<Word>, i: nat)
    requires |m| == 16
  {
    && |block| == 16
    && forall j :: (if i < 16 then 0 else i - 16) <= j < (if i < 16 then 16 else i) ==> block[Slot(j)] == W(m, j)
  }

  lemma WindowStart(m: seq<Word>)
    requires |m| == 16
    ensures Window(m, m, 0)
  {
  }

  lemma SlotsOf(i: nat)
    requires i >= 16
    ensures Slot(i + 13) == Slot(i - 3) && Slot(i + 8) == Slot(i - 8)
    ensures Slot(i + 2) == Slot(i - 14) && Slot(i) == Slot(i - 16)
    ensures forall j :: i - 16 < j < i ==> Slot(j) != Slot(i)
  {
  }

  // The assignment of macro blk moves the window on by one word.
  lemma WindowMoves(block: seq<Word>, m: seq<Word>, i: nat, w: Word)
    requires |m| == 16 && i >= 16 && Window(block, m, i)
    requires w == Rol(Xor4(block[Slot(i + 13)], block[Slot(i + 8)], block[Slot(i + 2)], block[Slot(i)]), 1)
    ensures w == W(m, i) && Window(block[Slot(i) := w], m, i + 1)
  {
    hide Rol, Xor4, Slot;
    SlotsOf(i);
    assert block[Slot(i - 3)] == W(m, i - 3) && block[Slot(i - 8)] == W(m, i - 8);
    assert block[Slot(i - 14)] == W(m, i - 14) && block[Slot(i - 16)] == W(m, i - 16);
  }

  // How the macros of sh1.h write the functions of section 5, and their sum.

  function MacroCh(w: Word, x: Word, y: Word): Word { (w & (x ^ y)) ^ y }

  function MacroMaj(w: Word, x: Word, y: Word): Word { ((w | x) & y) | (w & x) }

  function MacroSum(z: Word, f: Word, blk: Word, k: Word, v5: Word): Word { z + (f + blk + k + v5) }

  lemma MacroChIs(w: Word, x: Word, y: Word)
    ensures MacroCh(w, x, y) == Ch(w, x, y)
  {
    assert (w & (x ^ y)) ^ y == (w & x) | (!w & y);
  }

  lemma MacroMajIs(w: Word, x: Word, y: Word)
    ensures MacroMaj(w, x, y) == Maj(w, x, y)
  {
    assert ((w | x) & y) | (w & x) == (w & x) | (w & y) | (x & y);
  }

  lemma MacroSumIs(z: Word, f: Word, blk: Word, k: Word, v5: Word)
    ensures MacroSum(z, f, blk, k, v5) == Temp(v5, f, z, blk, k)
  {
  }

  // blk(i) of sh1.h: extend the schedule in place.
  method Blk(block: array<Word>, i: nat, ghost m: seq<Word>) returns (w: Word)
    requires block.Length == 16 && i >= 16 && |m| == 16 && Window(block[..], m, i)
    modifies block
    ensures w == W(m, i) && Window(block[..], m, i + 1)
  {
    hide Rol, Xor4, W, Window, Slot;
    ghost var before := block[..];
    w := Rol(Xor4(block[Slot(i + 13)], block[Slot(i + 8)], block[Slot(i + 2)], block[Slot(i)]), 1);
    block[Slot(i)] := w;
    WindowMoves(before, m, i, w);
    assert block[..] == before[Slot(i) := w];
  }

  // The registers, renamed for round i, hold (A, B, C, D, E) of section 7.
  ghost predicate Holds(s: Regs, m: seq<Word>, i: nat, v: Word, w: Word, x: Word, y: Word, z: Word)
    requires |m| == 16
  {
    Rounds(s, m, i) == Regs(v, w, x, y, z)
  }

  lemma RoundHolds(s: Regs, m: seq<Word>, i: nat, v: Word, w: Word, x: Word, y: Word, z: Word, f: Word, k: Word)
    requires |m| == 16 && Holds(s, m, i, v, w, x, y, z) && f == F(i, w, x, y) && k == K(i)
    ensures Holds(s, m, i + 1, MacroSum(z, f, W(m, i), k, Rol(v, 5)), v, Rol(w, 30), x, y)
  {
    hide Rol, F, W, K, MacroSum, Temp;
    MacroSumIs(z, f, W(m, i), k, Rol(v, 5));
  }

  // The round macros. Each changes two of the registers it is given and leaves
  // the five, read one place further round, as section 7's next step.

  method R0(v: Word, w: Word, x: Word, y: Word, z: Word, i: nat, block: array<Word>, ghost m: seq<Word>, ghost s: Regs)
      returns (z': Word, w': Word)
    requires i < 16 && |m| == 16 && block.Length == 16
    requires Window(block[..], m, i) && Holds(s, m, i, v, w, x, y, z)
    ensures Window(block[..], m, i + 1) && Holds(s, m, i + 1, z', v, w', x, y)
  {
    hide Rol, Holds, W, Ch, Parity, Maj, MacroCh, MacroMaj, MacroSum;
    MacroChIs(w, x, y);
    RoundHolds(s, m, i, v, w, x, y, z, MacroCh(w, x, y), 0x5A827999);
    assert block[Slot(i)] == W(m, i);
    z' := MacroSum(z, MacroCh(w, x, y), block[i], 0x5A827999, Rol(v, 5));
    w' := Rol(w, 30);
  }

  method R1(v: Word, w: Word, x: Word, y: Word, z: Word, i: nat, block: array<Word>, ghost m: seq<Word>, ghost s: Regs)
      returns (z': Word, w': Word)
    requires 16 <= i < 20 && |m| == 16 && block.Length == 16
    requires Window(block[..], m, i) && Holds(s, m, i, v, w, x, y, z)
    modifies block
    ensures Window(block[..], m, i + 1) && Holds(s, m, i + 1, z', v, w', x, y)
  {
    hide Rol, Holds, Window, W, Ch, Parity, Maj, MacroCh, MacroMaj, MacroSum;
    MacroChIs(w, x, y);
    RoundHolds(s, m, i, v, w, x, y, z, MacroCh(w, x, y), 0x5A827999);
    var blk := Blk(block, i, m);
    z' := MacroSum(z, MacroCh(w, x, y), blk, 0x5A827999, Rol(v, 5));
    w' := Rol(w, 30);
  }

  method R2(v: Word, w: Word, x: Word, y: Word, z: Word, i: nat, block: array<Word>, ghost m: seq<Word>, ghost s: Regs)
      returns (z': Word, w': Word)
    requires 20 <= i < 40 && |m| == 16 && block.Length == 16
    requires Window(block[..], m, i) && Holds(s, m, i, v, w, x, y, z)
    modifies block
    ensures Window(block[..], m, i + 1) && Holds(s, m, i + 1, z', v, w', x, y)
  {
    hide Rol, Holds, Window, W, Ch, Parity, Maj, MacroCh, MacroMaj, MacroSum;
    RoundHolds(s, m, i, v, w, x, y, z, Parity(w, x, y), 0x6ED9EBA1);
    var blk := Blk(block, i, m);
    z' := MacroSum(z, Parity(w, x, y), blk, 0x6ED9EBA1, Rol(v, 5));
    w' := Rol(w, 30);
  }

  method R3(v: Word, w: Word, x: Word, y: Word, z: Word, i: nat, block: array<Word>, ghost m: seq<Word>, ghost s: Regs)
      returns (z': Word, w': Word)
    requires 40 <= i < 60 && |m| == 16 && block.Length == 16
    requires Window(block[..], m, i) && Holds(s, m, i, v, w, x, y, z)
    modifies block
    ensures Window(block[..], m, i + 1) && Holds(s, m, i + 1, z', v, w', x, y)
  {
    hide Rol, Holds, Window, W, Ch, Parity, Maj, MacroCh, MacroMaj, MacroSum;
    MacroMajIs(w, x, y);
    RoundHolds(s, m, i, v, w, x, y, z, MacroMaj(w, x, y), 0x8F1BBCDC);
    var blk := Blk(block, i, m);
    z' := MacroSum(z, MacroMaj(w, x, y), blk, 0x8F1BBCDC, Rol(v, 5));
    w' := Rol(w, 30);
  }

  method R4(v: Word, w: Word, x: Word, y: Word, z: Word, i: nat, block: array<Word>, ghost m: seq<Word>, ghost s: Regs)
      returns (z': Word, w': Word)
    requires 60 <= i < 80 && |m| == 16 && block.Length == 16
    requires Window(block[..], m, i) && Holds(s, m, i, v, w, x, y, z)
    modifies block
    ensures Window(block[..], m, i + 1) && Holds(s, m, i + 1, z', v, w', x, y)
  {
    hide Rol, Holds, Window, W, Ch, Parity, Maj, MacroCh, MacroMaj, MacroSum;
    RoundHolds(s, m, i, v, w, x, y, z, Parity(w, x, y), 0xCA62C1D6);
    var blk := Blk(block, i, m);
    z' := MacroSum(z, Parity(w, x, y), blk, 0xCA62C1D6, Rol(v, 5));
    w' := Rol(w, 30);
  }

  // The 16 words of a 64-byte block.
  function Words(load: Load, bytes: seq<bv8>): (m: seq<Word>)
    requires |bytes| == 64
    ensures |m| == 16
  {
    seq(16, i requires 0 <= i < 16 => load(bytes[4 * i..4 * i + 4]))
  }

  function RegsOf(state: seq<Word>): Regs
    requires |state| == 5
  {
    Regs(state[0], state[1], state[2], state[3], state[4])
  }

  // The workspace that SHA1Transform copies the block to, seen as words.
  method LoadBlock(load: Load, buffer: seq<bv8>) returns (block: array<Word>)
    requires |buffer| == 64
    ensures fresh(block) && block.Length == 16 && block[..] == Words(load, buffer)
  {
    block := new Word[16](i requires 0 <= i < 16 => load(buffer[4 * i..4 * i + 4]));
  }

  // Operations 0 to 19, with the registers renamed instead of moved.
  method Operations0(a0: Word, b0: Word, c0: Word, d0: Word, e0: Word, block: array<Word>, ghost m: seq<Word>,
                     ghost s: Regs)
      returns (a: Word, b: Word, c: Word, d: Word, e: Word)
    requires |m| == 16 && block.Length == 16 && Window(block[..], m, 0) && Holds(s, m, 0, a0, b0, c0, d0, e0)
    modifies block
    ensures Window(block[..], m, 20) && Holds(s, m, 20, a, b, c, d, e)
  {
    hide Window, Holds;
    a, b, c, d, e := a0, b0, c0, d0, e0;
    e, b := R0(a, b, c, d, e, 0, block, m, s);
    d, a := R0(e, a, b, c, d, 1, block, m, s);
    c, e := R0(d, e, a, b, c, 2, block, m, s);
    b, d := R0(c, d, e, a, b, 3, block, m, s);
    a, c := R0(b, c, d, e, a, 4, block, m, s);
    e, b := R0(a, b, c, d, e, 5, block, m, s);
    d, a := R0(e, a, b, c, d, 6, block, m, s);
    c, e := R0(d, e, a, b, c, 7, block, m, s);
    b, d := R0(c, d, e, a, b, 8, block, m, s);
    a, c := R0(b, c, d, e, a, 9, block, m, s);
    e, b := R0(a, b, c, d, e, 10, block, m, s);
    d, a := R0(e, a, b, c, d, 11, block, m, s);
    c, e := R0(d, e, a, b, c, 12, block, m, s);
    b, d := R0(c, d, e, a, b, 13, block, m, s);
    a, c := R0(b, c, d, e, a, 14, block, m, s);
    e, b := R0(a, b, c, d, e, 15, block, m, s);
    d, a := R1(e, a, b, c, d, 16, block, m, s);
    c, e := R1(d, e, a, b, c, 17, block, m, s);
    b, d := R1(c, d, e, a, b, 18, block, m, s);
    a, c := R1(b, c, d, e, a, 19, block, m, s);
  }

  // Operations 20 to 39, with the registers renamed instead of moved.
  method Operations20(a0: Word, b0: Word, c0: Word, d0: Word, e0: Word, block: array<Word>, ghost m: seq<Word>,
                      ghost s: Regs)
      returns (a: Word, b: Word, c: Word, d: Word, e: Word)
    requires |m| == 16 && block.Length == 16 && Window(block[..], m, 20) && Holds(s, m, 20, a0, b0, c0, d0, e0)
    modifies block
    ensures Window(block[..], m, 40) && Holds(s, m, 40, a, b, c, d, e)
  {
    hide Window, Holds;
    a, b, c, d, e := a0, b0, c0, d0, e0;
    e, b := R2(a, b, c, d, e, 20, block, m, s);
    d, a := R2(e, a, b, c, d, 21, block, m, s);
    c, e := R2(d, e, a, b, c, 22, block, m, s);
    b, d := R2(c, d, e, a, b, 23, block, m, s);
    a, c := R2(b, c, d, e, a, 24, block, m, s);
    e, b := R2(a, b, c, d, e, 25, block, m, s);
    d, a := R2(e, a, b, c, d, 26, block, m, s);
    c, e := R2(d, e, a, b, c, 27, block, m, s);
    b, d := R2(c, d, e, a, b, 28, block, m, s);
    a, c := R2(b, c, d, e, a, 29, block, m, s);
    e, b := R2(a, b, c, d, e, 30, block, m, s);
    d, a := R2(e, a, b, c, d, 31, block, m, s);
    c, e := R2(d, e, a, b, c, 32, block, m, s);
    b, d := R2(c, d, e, a, b, 33, block, m, s);
    a, c := R2(b, c, d, e, a, 34, block, m, s);
    e, b := R2(a, b, c, d, e, 35, block, m, s);
    d, a := R2(e, a, b, c, d, 36, block, m, s);
    c, e := R2(d, e, a, b, c, 37, block, m, s);
    b, d := R2(c, d, e, a, b, 38, block, m, s);
    a, c := R2(b, c, d, e, a, 39, block, m, s);
  }

  // Operations 40 to 59, with the registers renamed instead of moved.
  method Operations40(a0: Word, b0: Word, c0: Word, d0: Word, e0: Word, block: array<Word>, ghost m: seq<Word>,
                      ghost s: Regs)
      returns (a: Word, b: Word, c: Word, d: Word, e: Word)
    requires |m| == 16 && block.Length == 16 && Window(block[..], m, 40) && Holds(s, m, 40, a0, b0, c0, d0, e0)
    modifies block
    ensures Window(block[..], m, 60) && Holds(s, m, 60, a, b, c, d, e)
  {
    hide Window, Holds;
    a, b, c, d, e := a0, b0, c0, d0, e0;
    e, b := R3(a, b, c, d, e, 40, block, m, s);
    d, a := R3(e, a, b, c, d, 41, block, m, s);
    c, e := R3(d, e, a, b, c, 42, block, m, s);
    b, d := R3(c, d, e, a, b, 43, block, m, s);
    a, c := R3(b, c, d, e, a, 44, block, m, s);
    e, b := R3(a, b, c, d, e, 45, block, m, s);
    d, a := R3(e, a, b, c, d, 46, block, m, s);
    c, e := R3(d, e, a, b, c, 47, block, m, s);
    b, d := R3(c, d, e, a, b, 48, block, m, s);
    a, c := R3(b, c, d, e, a, 49, block, m, s);
    e, b := R3(a, b, c, d, e, 50, block, m, s);
    d, a := R3(e, a, b, c, d, 51, block, m, s);
    c, e := R3(d, e, a, b, c, 52, block, m, s);
    b, d := R3(c, d, e, a, b, 53, block, m, s);
    a, c := R3(b, c, d, e, a, 54, block, m, s);
    e, b := R3(a, b, c, d, e, 55, block, m, s);
    d, a := R3(e, a, b, c, d, 56, block, m, s);
    c, e := R3(d, e, a, b, c, 57, block, m, s);
    b, d := R3(c, d, e, a, b, 58, block, m, s);
    a, c := R3(b, c, d, e, a, 59, block, m, s);
  }

  // Operations 60 to 79, with the registers renamed instead of moved.
  method Operations60(a0: Word, b0: Word, c0: Word, d0: Word, e0: Word, block: array<Word>, ghost m: seq<Word>,
                      ghost s: Regs)
      returns (a: Word, b: Word, c: Word, d: Word, e: Word)
    requires |m| == 16 && block.Length == 16 && Window(block[..], m, 60) && Holds(s, m, 60, a0, b0, c0, d0, e0)
    modifies block
    ensures Window(block[..], m, 80) && Holds(s, m, 80, a, b, c, d, e)
  {
    hide Window, Holds;
    a, b, c, d, e := a0, b0, c0, d0, e0;
    e, b := R4(a, b, c, d, e, 60, block, m, s);
    d, a := R4(e, a, b, c, d, 61, block, m, s);
    c, e := R4(d, e, a, b, c, 62, block, m, s);
    b, d := R4(c, d, e, a, b, 63, block, m, s);
    a, c := R4(b, c, d, e, a, 64, block, m, s);
    e, b := R4(a, b, c, d, e, 65, block, m, s);
    d, a := R4(e, a, b, c, d, 66, block, m, s);
    c, e := R4(d, e, a, b, c, 67, block, m, s);
    b, d := R4(c, d, e, a, b, 68, block, m, s);
    a, c := R4(b, c, d, e, a, 69, block, m, s);
    e, b := R4(a, b, c, d, e, 70, block, m, s);
    d, a := R4(e, a, b, c, d, 71, block, m, s);
    c, e := R4(d, e, a, b, c, 72, block, m, s);
    b, d := R4(c, d, e, a, b, 73, block, m, s);
    a, c := R4(b, c, d, e, a, 74, block, m, s);
    e, b := R4(a, b, c, d, e, 75, block, m, s);
    d, a := R4(e, a, b, c, d, 76, block, m, s);
    c, e := R4(d, e, a, b, c, 77, block, m, s);
    b, d := R4(c, d, e, a, b, 78, block, m, s);
    a, c := R4(b, c, d, e, a, 79, block, m, s);
  }

  /** SHA1Transform: hash one 64-byte block into the state. */
  method Transform(load: Load, state: array<Word>, buffer: seq<bv8>)
    requires state.Length == 5 && |buffer| == 64
    modifies state
    ensures RegsOf(state[..]) == Compress(RegsOf(old(state[..])), Words(load, buffer))
  {
    hide Rounds, Window, Words, Holds, Add;
    ghost var s := RegsOf(state[..]);
    ghost var m := Words(load, buffer);
    var block := LoadBlock(load, buffer);
    WindowStart(m);
    var a, b, c, d, e := state[0], state[1], state[2], state[3], state[4];
    RoundsStart(s, m);
    a, b, c, d, e := Operations0(a, b, c, d, e, block, m, s);
    a, b, c, d, e := Operations20(a, b, c, d, e, block, m, s);
    a, b, c, d, e := Operations40(a, b, c, d, e, block, m, s);
    a, b, c, d, e := Operations60(a, b, c, d, e, block, m, s);
    HoldsIs(s, m, 80, a, b, c, d, e);
    state[0] := Add(state[0], a);
    state[1] := Add(state[1], b);
    state[2] := Add(state[2], c);
    state[3] := Add(state[3], d);
    state[4] := Add(state[4], e);
  }

  lemma RoundsStart(s: Regs, m: seq<Word>)
    requires |m| == 16
    ensures Holds(s, m, 0, s.a, s.b, s.c, s.d, s.e)
  {
  }

  lemma HoldsIs(s: Regs, m: seq<Word>, i: nat, a: Word, b: Word, c: Word, d: Word, e: Word)
    requires |m| == 16 && Holds(s, m, i, a, b, c, d, e)
    ensures Rounds(s, m, i) == Regs(a, b, c, d, e)
  {
  }

  // ------------------------------------------------- messages and padding

  const TWO32: nat := 0x1_0000_0000
  const TWO64: nat := 0x1_0000_0000_0000_0000

  // The state after the first k blocks of a message.
  function Chain(load: Load, msg: seq<bv8>, k: nat): Regs
    requires 64 * k <= |msg|
  {
    if k == 0 then INITIAL
    else Compress(Chain(load, msg, k - 1), Words(load, msg[64 * (k - 1)..64 * k]))
  }

  // The state after all full blocks of a message.
  function Absorbed(load: Load, msg: seq<bv8>): Regs {
    Chain(load, msg, |msg| / 64)
  }

  // The buffer starts with what follows the full blocks of the message.
  ghost predicate Buffers(buffer: seq<bv8>, msg: seq<bv8>) {
    |buffer| == 64 && buffer[..|msg| % 64] == msg[|msg| - |msg| % 64..]
  }

  lemma {:induction false} ChainAppend(load: Load, msg: seq<bv8>, more: seq<bv8>, k: nat)
    requires 64 * k <= |msg|
    ensures Chain(load, msg + more, k) == Chain(load, msg, k)
  {
    hide Compress, Words;
    if k > 0 {
      ChainAppend(load, msg, more, k - 1);
      assert (msg + more)[64 * (k - 1)..64 * k] == msg[64 * (k - 1)..64 * k];
    }
  }

  lemma ChainStep(load: Load, msg: seq<bv8>, k: nat)
    requires 64 * (k + 1) <= |msg|
    ensures Chain(load, msg, k + 1) == Compress(Chain(load, msg, k), Words(load, msg[64 * k..64 * k + 64]))
  {
    hide Compress, Words;
    assert 64 * k + 64 == 64 * (k + 1);
  }

  // A 64-bit number, most significant byte first.
  function BigEndian64(v: nat): (r: seq<bv8>)
    ensures |r| == 8
  {
    [Byte(v / 0x100_0000_0000_0000), Byte(v / 0x1_0000_0000_0000), Byte(v / 0x100_0000_0000), Byte(v / 0x1_0000_0000),
     Byte(v / 0x100_0000), Byte(v / 0x1_0000), Byte(v / 0x100), Byte(v)]
  }

  // Section 4: a one bit, zero bits, and the length.
  function ZeroCount(len: nat): (z: nat)
    ensures z < 64 && (len + 1 + z + 8) % 64 == 0
  {
    (119 - len % 64) % 64
  }

  function Zeros(n: nat): (r: seq<bv8>)
    ensures |r| == n && forall i :: 0 <= i < n ==> r[i] == 0
  {
    seq(n, _ => 0)
  }

  function Pad(msg: seq<bv8>): (r: seq<bv8>)
    ensures |r| == |msg| + 1 + ZeroCount(|msg|) + 8
  {
    msg + [0x80] + Zeros(ZeroCount(|msg|)) + BigEndian64(8 * |msg| % TWO64)
  }

  // The five words, most significant byte first.
  function DigestBytes(s: Regs): (r: seq<bv8>)
    ensures |r| == 20
  {
    WordBytes(s.a) + WordBytes(s.b) + WordBytes(s.c) + WordBytes(s.d) + WordBytes(s.e)
  }

  function WordBytes(w: Word): (r: seq<bv8>)
    ensures |r| == 4
  {
    [WordByte(w, 24), WordByte(w, 16), WordByte(w, 8), WordByte(w, 0)]
  }

  function WordByte(w: Word, shift: nat): bv8
    requires shift <= 32
  {
    ((w >> shift) & 255) as bv8
  }

  /** The first four initial words hold the bytes that count up from 0 to F and
      down again, digit by digit, least significant byte first. */
  lemma InitialBytes(k: nat)
    requires k < 16
    ensures var s := INITIAL;
      WordByte([s.a, s.b, s.c, s.d][k / 4], k % 4 * 8)
      == [0x01, 0x23, 0x45, 0x67, 0x89, 0xAB, 0xCD, 0xEF, 0xFE, 0xDC, 0xBA, 0x98, 0x76, 0x54, 0x32, 0x10][k]
  {
    InitialWordBytes(k % 4);
    hide WordByte;
  }

  lemma InitialWordBytes(r: nat)
    requires r < 4
    ensures WordByte(INITIAL.a, r * 8) == [0x01, 0x23, 0x45, 0x67][r]
    ensures WordByte(INITIAL.b, r * 8) == [0x89, 0xAB, 0xCD, 0xEF][r]
    ensures WordByte(INITIAL.c, r * 8) == [0xFE, 0xDC, 0xBA, 0x98][r]
    ensures WordByte(INITIAL.d, r * 8) == [0x76, 0x54, 0x32, 0x10][r]
  {
  }

  // The four bytes of a word, most significant first, make it again.
  lemma WordBytesIs(w: Word)
    ensures var b := WordBytes(w);
      (b[0] as Word << 24) | (b[1] as Word << 16) | (b[2] as Word << 8) | b[3] as Word == w
  {
    WordByteIs(w, 24);
    WordByteIs(w, 16);
    WordByteIs(w, 8);
    WordByteIs(w, 0);
    hide WordByte;
    BytesJoin(w);
  }

  lemma WordByteIs(w: Word, shift: nat)
    requires shift == 0 || shift == 8 || shift == 16 || shift == 24
    ensures WordByte(w, shift) as Word == (w >> shift) & 255
  {
    var x := (w >> shift) & 255;
    assert x < 256;
  }

  lemma BytesJoin(w: Word)
    ensures (((w >> 24) & 255) << 24) | (((w >> 16) & 255) << 16) | (((w >> 8) & 255) << 8) | ((w >> 0) & 255) == w
  {
  }

  // The number that bytes stand for, most significant first.
  ghost function Number(bytes: seq<bv8>): nat {
    if bytes == [] then 0 else Number(bytes[..|bytes| - 1]) * 256 + bytes[|bytes| - 1] as nat
  }

  lemma NumberSnoc(bytes: seq<bv8>, b: bv8)
    ensures Number(bytes + [b]) == Number(bytes) * 256 + b as nat
  {
    assert (bytes + [b])[..|bytes|] == bytes;
  }

  lemma NumberByte(bytes: seq<bv8>, high: nat, v: nat)
    requires Number(bytes) == high && v / 256 == high
    ensures Number(bytes + [Byte(v)]) == v
  {
    ByteIs(v);
    hide Byte;
    NumberSnoc(bytes, Byte(v));
  }

  // The low n bytes of a number, most significant first.
  function HighBytes(v: nat, n: nat): (r: seq<bv8>)
    ensures |r| == n
  {
    if n == 0 then [] else HighBytes(v / 256, n - 1) + [Byte(v)]
  }

  lemma DivBelow(v: nat, p: nat)
    requires v < 256 * p
    ensures v / 256 < p
  {
  }

  lemma {:induction false} HighBytesNumber(v: nat, n: nat)
    requires v < Power256(n)
    ensures Number(HighBytes(v, n)) == v
  {
    if n > 0 {
      DivBelow(v, Power256(n - 1));
      hide Byte, Power256, Number;
      HighBytesNumber(v / 256, n - 1);
      NumberByte(HighBytes(v / 256, n - 1), v / 256, v);
    }
  }

  function Power256(n: nat): (r: nat)
    ensures r > 0
  {
    if n == 0 then 1 else 256 * Power256(n - 1)
  }

  lemma BigEndianHigh(v: nat)
    ensures BigEndian64(v) == HighBytes(v, 8)
  {
    hide Byte, HighBytes;
    ByteShifts(v);
    var v6 := v / 256 / 256;
    var v4 := v6 / 256 / 256;
    var v2 := v4 / 256 / 256;
    HighBytesTwo(v2, 0);
    HighBytesTwo(v4, 2);
    HighBytesTwo(v6, 4);
    HighBytesTwo(v, 6);
    assert HighBytes(v2 / 256 / 256, 0) == [];
  }

  lemma ByteShifts(v: nat)
    ensures var v6 := v / 256 / 256;
      var v4 := v6 / 256 / 256;
      var v2 := v4 / 256 / 256;
      && v / 0x1_0000 == v6 && v / 0x100_0000 == v6 / 256
      && v / 0x1_0000_0000 == v4 && v / 0x100_0000_0000 == v4 / 256
      && v / 0x1_0000_0000_0000 == v2 && v / 0x100_0000_0000_0000 == v2 / 256
  {
  }

  lemma HighBytesTwo(v: nat, n: nat)
    ensures HighBytes(v, n + 2) == HighBytes(v / 256 / 256, n) + [Byte(v / 256), Byte(v)]
  {
    assert HighBytes(v / 256, n + 1) == HighBytes(v / 256 / 256, n) + [Byte(v / 256)];
  }

  /** The padding of section 4: whole blocks of the message, a one bit, zeros, and
      the length in bits as a number of eight bytes. */
  lemma PaddedIs(msg: seq<bv8>)
    ensures var p := Pad(msg);
      && |p| % 64 == 0 && |msg| + 9 <= |p| < |msg| + 9 + 64
      && p[..|msg|] == msg && p[|msg|] == 128
      && (forall i :: |msg| < i < |p| - 8 ==> p[i] == 0)
      && Number(p[|p| - 8..]) == 8 * |msg| % 0x1_0000_0000_0000_0000
  {
    var v := 8 * |msg| % TWO64;
    BigEndianHigh(v);
    assert Power256(8) == TWO64;
    HighBytesNumber(v, 8);
    hide BigEndian64, HighBytes, Number;
    assert Pad(msg)[|Pad(msg)| - 8..] == BigEndian64(v);
  }

  /** The digest of a message: section 7 over the message padded as in section 4. */
  function Digest(load: Load, msg: seq<bv8>): (r: seq<bv8>)
    ensures |r| == 20
  {
    DigestBytes(Absorbed(load, Pad(msg)))
  }

  // --------------------------------------------------------- the bit count

  ghost predicate Counts(count0: nat, count1: nat, len: nat) {
    count0 < TWO32 && count1 < TWO32 && count1 * TWO32 + count0 == 8 * len % TWO64
  }

  lemma CountLow(count0: nat, count1: nat, len: nat)
    requires Counts(count0, count1, len)
    ensures count0 % 8 == 0 && count0 / 8 % 64 == len % 64
  {
    var q := 8 * len / TWO64;
    assert 8 * len == q * TWO64 + (count1 * TWO32 + count0);
    var m := q * 0x80_0000_0000_0000 + count1 * 0x80_0000;
    assert count0 == 8 * (len - 64 * m);
    SameRemainder(len - 64 * m, m);
  }

  lemma SameRemainder(x: nat, m: nat)
    ensures (x + 64 * m) % 64 == x % 64
  {
  }

  lemma ModUnique(x: nat, q: nat, r: nat)
    requires x == q * TWO64 + r && r < TWO64
    ensures x % TWO64 == r
  {
  }

  lemma ShiftedLength(len: nat)
    ensures 8 * len == len / 0x2000_0000 * TWO32 + len * 8 % TWO32
  {
  }

  lemma LowCarry(count0: nat, shifted: nat)
    requires count0 < TWO32 && shifted < TWO32
    ensures var low := (count0 + shifted) % TWO32;
      count0 + shifted == low + if low < shifted then TWO32 else 0
  {
  }

  lemma HighSum(c: nat, high: nat)
    requires c <= TWO32 && high < TWO32
    ensures (c % TWO32 + high) % TWO32 == (c + high) % TWO32
    ensures exists d: nat :: c + high == d * TWO32 + (c + high) % TWO32
  {
    assert c + high == (c + high) / TWO32 * TWO32 + (c + high) % TWO32;
  }

  // The two words of the count after len more bytes, with the carry that the
  // code takes from the wrap-around of the low word.
  lemma CountAdd(count0: nat, count1: nat, n: nat, len: nat, shifted: nat, low: nat, c: nat)
    requires Counts(count0, count1, n) && len < TWO32
    requires shifted == len * 8 % TWO32 && low == (count0 + shifted) % TWO32
    requires c == count1 + if low < shifted then 1 else 0
    ensures Counts(low, (c % TWO32 + len / 0x2000_0000) % TWO32, n + len)
  {
    var high := len / 0x2000_0000;
    var c1 := (c % TWO32 + high) % TWO32;
    ShiftedLength(len);
    LowCarry(count0, shifted);
    HighSum(c, high);
    var d: nat :| c + high == d * TWO32 + c1;
    var q := 8 * n / TWO64;
    assert 8 * n == q * TWO64 + (count1 * TWO32 + count0);
    assert 8 * (n + len) == (q + d) * TWO64 + (c1 * TWO32 + low);
    ModUnique(8 * (n + len), q + d, c1 * TWO32 + low);
  }

  function Scale(n: nat): (r: nat)
    requires n <= 3
    ensures r > 0
  {
    if n == 0 then 1 else if n == 1 then 0x100 else if n == 2 then 0x1_0000 else 0x100_0000
  }

  lemma ByteOfHigh(c0: nat, c1: nat, n: nat)
    requires c0 < TWO32 && n <= 3
    ensures (c1 * TWO32 + c0) / (TWO32 * Scale(n)) == c1 / Scale(n)
  {
  }

  lemma LowShift(c0: nat, c1: nat, n: nat)
    requires c0 < TWO32 && n <= 3
    ensures (c1 * TWO32 + c0) / Scale(n) == c1 * Scale(3 - n) * 256 + c0 / Scale(n)
  {
  }

  lemma WholeBytes(x: nat, y: nat)
    ensures (x * 256 + y) % 256 == y % 256
  {
  }

  lemma ByteOfLow(c0: nat, c1: nat, n: nat)
    requires c0 < TWO32 && n <= 3
    ensures (c1 * TWO32 + c0) / Scale(n) % 256 == c0 / Scale(n) % 256
  {
    LowShift(c0, c1, n);
    hide Scale;
    WholeBytes(c1 * Scale(3 - n), c0 / Scale(n));
  }

  // The bytes of the two count words are those of the 64-bit count.
  function CountByte(c0: nat, c1: nat, i: nat): bv8
    requires i < 8
  {
    Byte((if i >= 4 then c0 else c1) / Scale(3 - i % 4))
  }

  lemma ByteMod(x: nat, y: nat)
    requires x % 256 == y % 256
    ensures Byte(x) == Byte(y)
  {
  }

  lemma CountByteIs(c0: nat, c1: nat, i: nat)
    requires c0 < TWO32 && i < 8
    ensures BigEndian64(c1 * TWO32 + c0)[i] == CountByte(c0, c1, i)
  {
    hide Byte;
    var v := c1 * TWO32 + c0;
    if i < 4 {
      ByteOfHigh(c0, c1, 3 - i);
    } else {
      ByteOfLow(c0, c1, 7 - i);
      ByteMod(v / Scale(7 - i), c0 / Scale(7 - i));
    }
    hide Scale, CountByte;
    BigEndianAt(v, i);
    CountByteAt(c0, c1, i);
  }

  lemma BigEndianAt(v: nat, i: nat)
    requires i < 8
    ensures BigEndian64(v)[i] == Byte(v / if i < 4 then TWO32 * Scale(3 - i) else Scale(7 - i))
  {
    hide Byte;
  }

  lemma CountByteAt(c0: nat, c1: nat, i: nat)
    requires i < 8
    ensures CountByte(c0, c1, i) == if i < 4 then Byte(c1 / Scale(3 - i)) else Byte(c0 / Scale(7 - i))
  {
    hide Byte, Scale;
  }

  lemma WordByteAt(w: Word, r: nat)
    requires r < 4
    ensures WordBytes(w)[r] == WordByte(w, (3 - r) * 8)
  {
    hide WordByte;
  }

  lemma DigestByteAt(s: Regs, q: nat, r: nat)
    requires q < 5 && r < 4
    ensures DigestBytes(s)[4 * q + r] == WordBytes([s.a, s.b, s.c, s.d, s.e][q])[r]
  {
    hide WordBytes;
  }

  lemma RegAt(state: seq<Word>, q: nat)
    requires |state| == 5 && q < 5
    ensures var s := RegsOf(state);
      [s.a, s.b, s.c, s.d, s.e][q] == state[q]
  {
  }

  lemma DigestByteIs(state: seq<Word>, k: nat)
    requires |state| == 5 && k < 20
    ensures DigestBytes(RegsOf(state))[k] == WordByte(state[k / 4], (3 - k % 4) * 8)
  {
    hide WordByte, WordBytes, DigestBytes, RegsOf;
    var q, r := k / 4, k % 4;
    assert k == 4 * q + r && q < 5;
    DigestByteAt(RegsOf(state), q, r);
    RegAt(state, q);
    WordByteAt(state[q], r);
  }

  // ---------------------------------------------------------- the context

  // The buffered bytes followed by the first new ones are one block of the message.
  lemma BlockFilled(before: seq<bv8>, data: seq<bv8>, was: seq<bv8>, buffer: seq<bv8>)
    requires Buffers(was, before) && |before| % 64 + |data| > 63
    requires var j := |before| % 64;
      buffer == was[..j] + data[..64 - j] + was[64..]
    ensures var k := |before| / 64;
      64 * (k + 1) <= |before + data| && buffer == (before + data)[64 * k..64 * k + 64]
    ensures (|before| + (64 - |before| % 64)) / 64 == |before| / 64 + 1
    ensures (|before| + (64 - |before| % 64)) % 64 == 0
  {
    assert |before| == 64 * (|before| / 64) + |before| % 64;
  }

  // After the full blocks, the rest of the data is the rest of the message.
  lemma TailOfBlocks(before: seq<bv8>, data: seq<bv8>, i: nat, was: seq<bv8>, buffer: seq<bv8>)
    requires i <= |data| < i + 64 && (|before| + i) % 64 == 0 && |was| == 64
    requires buffer == was[..0] + data[i..] + was[|data| - i..]
    ensures |before + data| / 64 == (|before| + i) / 64
    ensures Buffers(buffer, before + data)
  {
    assert |before| + i == 64 * ((|before| + i) / 64);
  }

  // Without a full block, the new bytes join the buffered ones.
  lemma TailGrows(before: seq<bv8>, data: seq<bv8>, was: seq<bv8>, buffer: seq<bv8>)
    requires Buffers(was, before)
    requires var j := |before| % 64;
      j + |data| <= 63 && buffer == was[..j] + data + was[j + |data|..]
    ensures |before + data| / 64 == |before| / 64 && Buffers(buffer, before + data)
  {
    var j := |before| % 64;
    assert |before| == 64 * (|before| / 64) + j;
    assert |before + data| % 64 == j + |data|;
  }

  // The zero bytes are complete exactly when eight bytes are missing to a full block.
  lemma PaddingShort(len: nat, z: nat)
    requires z <= ZeroCount(len)
    ensures z == ZeroCount(len) <==> (len + 1 + z) % 64 == 56
  {
  }

  /** The 32-bit test `j + len > 63` of SHA1Update finds a full block exactly when
      there is one, for precisely the lengths whose sum with j does not wrap. */
  lemma UpdateTestExact(j: nat, len: nat)
    requires j < 64 && len < TWO32
    ensures ((j + len) % TWO32 > 63 <==> j + len > 63) <==> j + len < TWO32
  {
  }

  class SHA1Ctx {
    const load: Load
    const state: array<Word>
    const buffer: array<bv8>
    var count0: nat
    var count1: nat
    // Everything fed to the context since SHA1Init.
    ghost var message: seq<bv8>

    ghost predicate Shape()
    {
      state.Length == 5 && buffer.Length == 64
    }

    // The context stands for the message: the state is that after its full
    // blocks, the count its length in bits, and the buffer holds the rest.
    ghost predicate Represents()
      reads this, state, buffer
    {
      && Shape()
      && RegsOf(state[..]) == Absorbed(load, message)
      && Counts(count0, count1, |message|)
      && Buffers(buffer[..], message)
    }

    constructor (load: Load)
      ensures Represents() && message == [] && this.load == load && fresh(state) && fresh(buffer)
    {
      this.load := load;
      state := new Word[5][0x67452301, 0xEFCDAB89, 0x98BADCFE, 0x10325476, 0xC3D2E1F0];
      buffer := new bv8[64](_ => 0);
      count0, count1 := 0, 0;
      message := [];
    }

    // memcpy into the buffer.
    method CopyIn(at: nat, data: seq<bv8>)
      requires Shape() && at + |data| <= 64
      modifies buffer
      ensures buffer[..] == old(buffer[..at]) + data + old(buffer[at + |data|..])
    {
      forall k | 0 <= k < |data| { buffer[at + k] := data[k]; }
    }

    // The count after len more bytes.
    method CountBytes(len: nat, ghost n: nat)
      requires Counts(count0, count1, n) && len < TWO32
      modifies this`count0, this`count1
      ensures Counts(count0, count1, n + len)
    {
      var shifted := len * 8 % TWO32;
      ghost var c0, c1 := count0, count1;
      count0 := (count0 + shifted) % TWO32;
      if count0 < shifted {
        count1 := (count1 + 1) % TWO32;
      }
      CountAdd(c0, c1, n, len, shifted, count0, c1 + if count0 < shifted then 1 else 0);
      count1 := (count1 + len / 0x2000_0000) % TWO32;
    }

    // The loop over the full blocks in the data, from position start on; n
    // bytes came before the data.
    method FullBlocks(data: seq<bv8>, start: nat, ghost before: seq<bv8>) returns (i: nat)
      requires Shape() && start <= |data| && (|before| + start) % 64 == 0
      requires RegsOf(state[..]) == Chain(load, before + data, (|before| + start) / 64)
      modifies state
      ensures start <= i <= |data| < i + 64 && (|before| + i) % 64 == 0
      ensures RegsOf(state[..]) == Chain(load, before + data, (|before| + i) / 64)
    {
      hide Chain, Compress, Words, RegsOf;
      i := start;
      while i + 63 < |data|
        invariant start <= i <= |data| && (|before| + i) % 64 == 0
        invariant RegsOf(state[..]) == Chain(load, before + data, (|before| + i) / 64)
      {
        ghost var k := (|before| + i) / 64;
        assert data[i..i + 64] == (before + data)[64 * k..64 * k + 64];
        ChainStep(load, before + data, k);
        Transform(load, state, data[i..i + 64]);
        i := i + 64;
      }
    }

    // Complete the buffered block with the first bytes of the data and hash it.
    method FirstBlock(data: seq<bv8>, j: nat, ghost before: seq<bv8>) returns (i: nat)
      requires Shape() && j == |before| % 64 && j + |data| > 63
      requires RegsOf(state[..]) == Absorbed(load, before) && Buffers(buffer[..], before)
      modifies state, buffer
      ensures i == 64 - j && (|before| + i) % 64 == 0
      ensures RegsOf(state[..]) == Chain(load, before + data, (|before| + i) / 64)
    {
      hide Chain, Compress, Words, RegsOf, Buffers;
      i := 64 - j;
      ghost var was := buffer[..];
      CopyIn(j, data[..i]);
      ghost var k := |before| / 64;
      BlockFilled(before, data, was, buffer[..]);
      ChainAppend(load, before, data, k);
      ChainStep(load, before + data, k);
      Transform(load, state, buffer[..]);
    }

    // The branch of SHA1Update with at least one full block.
    method AbsorbBlocks(data: seq<bv8>, j: nat, ghost before: seq<bv8>)
      requires Shape() && j == |before| % 64 && j + |data| > 63
      requires RegsOf(state[..]) == Absorbed(load, before) && Buffers(buffer[..], before)
      modifies state, buffer
      ensures RegsOf(state[..]) == Absorbed(load, before + data) && Buffers(buffer[..], before + data)
    {
      hide Chain, RegsOf, Buffers;
      var i := FirstBlock(data, j, before);
      i := FullBlocks(data, i, before);
      ghost var was := buffer[..];
      CopyIn(0, data[i..]);
      TailOfBlocks(before, data, i, was, buffer[..]);
    }

    // The other branch: the data is only buffered.
    method KeepBytes(data: seq<bv8>, j: nat, ghost before: seq<bv8>)
      requires Shape() && j == |before| % 64 && j + |data| <= 63
      requires RegsOf(state[..]) == Absorbed(load, before) && Buffers(buffer[..], before)
      modifies buffer
      ensures RegsOf(state[..]) == Absorbed(load, before + data) && Buffers(buffer[..], before + data)
    {
      hide Chain, RegsOf, Buffers;
      ghost var was := buffer[..];
      CopyIn(j, data);
      ChainAppend(load, before, data, |before| / 64);
      TailGrows(before, data, was, buffer[..]);
    }

    /** SHA1Update. The sum of the buffered and the new length must fit the
        32-bit variables, as the code's own test j + len > 63 needs. */
    method Update(data: seq<bv8>)
      requires Represents() && |message| % 64 + |data| < TWO32
      modifies this`count0, this`count1, this`message, state, buffer
      ensures Represents() && message == old(message) + data
    {
      hide Absorbed, Counts, Buffers, RegsOf;
      CountLow(count0, count1, |message|);
      var j := count0 / 8 % 64;
      CountBytes(|data|, |message|);
      if j + |data| > 63 {
        AbsorbBlocks(data, j, message);
      } else {
        KeepBytes(data, j, message);
      }
      message := message + data;
    }

    // finalcount: the eight bytes of the count, high word first.
    method CountBytesOf() returns (finalcount: seq<bv8>)
      requires Counts(count0, count1, |message|)
      ensures finalcount == BigEndian64(8 * |message| % TWO64)
    {
      hide BigEndian64, CountByte;
      var bytes := new bv8[8](_ => 0);
      var i := 0;
      while i < 8
        invariant i <= 8
        invariant forall k :: 0 <= k < i ==> bytes[k] == BigEndian64(8 * |message| % TWO64)[k]
      {
        CountByteIs(count0, count1, i);
        bytes[i] := CountByte(count0, count1, i);
        i := i + 1;
      }
      finalcount := bytes[..];
    }

    // The loop of SHA1Final that feeds zero bytes up to the length field.
    method PadWithZeros(ghost msg: seq<bv8>)
      requires Represents() && message == msg + [0x80]
      modifies this`count0, this`count1, this`message, state, buffer
      ensures Represents() && message == msg + [0x80] + Zeros(ZeroCount(|msg|))
    {
      hide Absorbed, Counts, Buffers, RegsOf;
      ghost var z := 0;
      CountLow(count0, count1, |message|);
      assert message == msg + [0x80] + Zeros(0);
      while count0 / 8 % 64 != 56
        invariant Represents() && z <= ZeroCount(|msg|)
        invariant message == msg + [0x80] + Zeros(z)
        invariant count0 / 8 % 64 == |message| % 64
        decreases ZeroCount(|msg|) - z
      {
        PaddingShort(|msg|, z);
        Update([0]);
        assert Zeros(z) + [0] == Zeros(z + 1);
        z := z + 1;
        CountLow(count0, count1, |message|);
      }
      PaddingShort(|msg|, z);
    }

    // The loop that writes the five words as bytes.
    method WriteDigest(digest: array<bv8>)
      requires Shape() && digest.Length == 20
      modifies digest
      ensures digest[..] == DigestBytes(RegsOf(state[..]))
    {
      hide DigestBytes, WordByte;
      var i := 0;
      while i < 20
        invariant i <= 20
        invariant forall k :: 0 <= k < i ==> digest[k] == DigestBytes(RegsOf(state[..]))[k]
      {
        DigestByteIs(state[..], i);
        digest[i] := WordByte(state[i / 4], (3 - i % 4) * 8);
        i := i + 1;
      }
    }

    // Clear the context, and hash the cleared block as the code does to clear
    // the transform's own workspace.
    method Wipe()
      requires Shape()
      modifies this`count0, this`count1, state, buffer
      ensures count0 == count1 == 0 && buffer[..] == Zeros(64)
      ensures RegsOf(state[..]) == Compress(Regs(0, 0, 0, 0, 0), Words(load, Zeros(64)))
    {
      hide Compress, Words;
      forall k | 0 <= k < 64 { buffer[k] := 0; }
      forall k | 0 <= k < 5 { state[k] := 0; }
      count0, count1 := 0, 0;
      assert buffer[..] == Zeros(64);
      Transform(load, state, buffer[..]);
    }

    /** SHA1Final: the digest of everything fed to the context, which is then wiped. */
    method Final() returns (digest: array<bv8>)
      requires Represents()
      modifies this`count0, this`count1, this`message, state, buffer
      ensures fresh(digest) && digest[..] == Digest(load, old(message))
      ensures count0 == count1 == 0 && buffer[..] == Zeros(64)
      ensures Shape() && RegsOf(state[..]) == Compress(Regs(0, 0, 0, 0, 0), Words(load, Zeros(64)))
    {
      hide Absorbed, Counts, Buffers, RegsOf, Compress, Words, BigEndian64, DigestBytes;
      ghost var msg := message;
      var finalcount := CountBytesOf();
      Update([0x80]);
      PadWithZeros(msg);
      Update(finalcount);
      assert message == Pad(msg);
      digest := new bv8[20](_ => 0);
      WriteDigest(digest);
      Wipe();
    }
  }
}

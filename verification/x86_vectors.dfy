/**
 * The byte sequences each example of the location code builder denotes.
 * Each case states the exact bytes the builder's result holds for the
 * operands of one example; the per-instruction lemmas give the encodings
 * the cases are made of.
 */
module X86Vectors {
  import opened Bytes
  import opened Registers
  import opened Wrappers
  import opened Encoding
  import opened Instructions
  import opened Locations

  const BASE_ADDR: int := 0xFEDC_BA98_7654_3210

  /** BASE_ADDR read as a signed 64-bit machine integer, BASE_ADDR - 2^64. */
  const BASE_WORD: int := -0x0123_4567_89AB_CDF0

  const IMMED32: int := -0x0123_4567
  const IMMED64: int := 0x0123_4567_89AB_CDEF

  /** mov r11, 0xFEDCBA9876543210 */
  const LOAD_R11: seq<byte> := [0x49, 0xBB, 0x10, 0x32, 0x54, 0x76, 0x98, 0xBA, 0xDC, 0xFE]

  function Fresh(mode: Mode): Builder
  {
    NewBuilder(mode, 0)
  }

  // ---------------------------------------------------------------- glue

  /** The builder appends what the selected instructions encode to. */
  lemma BinaryEmits(b: Builder, op: BinOp, size: Size, dst: Loc, src: Loc, ins: seq<Instr>, s: Session)
    requires var p := SelectBinary(b.mode, b.session, op, size, Classify(b.mode, dst), Classify(b.mode, src));
      p.Ok? && p.value.instrs == ins && p.value.session == s
    requires EncodeAll(b.mode, ins).Ok?
    ensures Binary(b, op, size, dst, src).Ok?
    ensures Binary(b, op, size, dst, src).value.code == b.code + EncodeAll(b.mode, ins).value
    ensures Binary(b, op, size, dst, src).value.session == s
  {
  }

  // ---------------------------------------------------------------- little-endian constants

  lemma EncodeSeq2(mode: Mode, i0: Instr, i1: Instr, e0: seq<byte>, e1: seq<byte>)
    requires Encode(mode, i0).Ok? && Encode(mode, i0).value == e0 && Encode(mode, i1).Ok? && Encode(mode, i1).value == e1
    ensures EncodeAll(mode, [i0, i1]).Ok?
    ensures EncodeAll(mode, [i0, i1]).value == e0 + e1
  {
    EncodeSingle(mode, i1);
    var r0 := [i0] + [i1];
    EncodeCons(mode, i0, [i1]);
    assert r0 == [i0, i1];
  }

  lemma EncodeSeq3(mode: Mode, i0: Instr, i1: Instr, i2: Instr, e0: seq<byte>, e1: seq<byte>, e2: seq<byte>)
    requires Encode(mode, i0).Ok? && Encode(mode, i0).value == e0 && Encode(mode, i1).Ok? && Encode(mode, i1).value == e1 && Encode(mode, i2).Ok? && Encode(mode, i2).value == e2
    ensures EncodeAll(mode, [i0, i1, i2]).Ok?
    ensures EncodeAll(mode, [i0, i1, i2]).value == e0 + (e1 + e2)
  {
    EncodeSingle(mode, i2);
    var r1 := [i1] + [i2];
    EncodeCons(mode, i1, [i2]);
    var r0 := [i0] + r1;
    EncodeCons(mode, i0, r1);
    assert r0 == [i0, i1, i2];
  }

  lemma EncodeSeq4(mode: Mode, i0: Instr, i1: Instr, i2: Instr, i3: Instr, e0: seq<byte>, e1: seq<byte>, e2: seq<byte>, e3: seq<byte>)
    requires Encode(mode, i0).Ok? && Encode(mode, i0).value == e0 && Encode(mode, i1).Ok? && Encode(mode, i1).value == e1 && Encode(mode, i2).Ok? && Encode(mode, i2).value == e2 && Encode(mode, i3).Ok? && Encode(mode, i3).value == e3
    ensures EncodeAll(mode, [i0, i1, i2, i3]).Ok?
    ensures EncodeAll(mode, [i0, i1, i2, i3]).value == e0 + (e1 + (e2 + e3))
  {
    EncodeSingle(mode, i3);
    var r2 := [i2] + [i3];
    EncodeCons(mode, i2, [i3]);
    var r1 := [i1] + r2;
    EncodeCons(mode, i1, r2);
    var r0 := [i0] + r1;
    EncodeCons(mode, i0, r1);
    assert r0 == [i0, i1, i2, i3];
  }

  lemma EncodeSeq5(mode: Mode, i0: Instr, i1: Instr, i2: Instr, i3: Instr, i4: Instr, e0: seq<byte>, e1: seq<byte>, e2: seq<byte>, e3: seq<byte>, e4: seq<byte>)
    requires Encode(mode, i0).Ok? && Encode(mode, i0).value == e0 && Encode(mode, i1).Ok? && Encode(mode, i1).value == e1 && Encode(mode, i2).Ok? && Encode(mode, i2).value == e2 && Encode(mode, i3).Ok? && Encode(mode, i3).value == e3 && Encode(mode, i4).Ok? && Encode(mode, i4).value == e4
    ensures EncodeAll(mode, [i0, i1, i2, i3, i4]).Ok?
    ensures EncodeAll(mode, [i0, i1, i2, i3, i4]).value == e0 + (e1 + (e2 + (e3 + e4)))
  {
    EncodeSingle(mode, i4);
    var r3 := [i3] + [i4];
    EncodeCons(mode, i3, [i4]);
    var r2 := [i2] + r3;
    EncodeCons(mode, i2, r3);
    var r1 := [i1] + r2;
    EncodeCons(mode, i1, r2);
    var r0 := [i0] + r1;
    EncodeCons(mode, i0, r1);
    assert r0 == [i0, i1, i2, i3, i4];
  }

  lemma EncodeSeq6(mode: Mode, i0: Instr, i1: Instr, i2: Instr, i3: Instr, i4: Instr, i5: Instr, e0: seq<byte>, e1: seq<byte>, e2: seq<byte>, e3: seq<byte>, e4: seq<byte>, e5: seq<byte>)
    requires Encode(mode, i0).Ok? && Encode(mode, i0).value == e0 && Encode(mode, i1).Ok? && Encode(mode, i1).value == e1 && Encode(mode, i2).Ok? && Encode(mode, i2).value == e2 && Encode(mode, i3).Ok? && Encode(mode, i3).value == e3 && Encode(mode, i4).Ok? && Encode(mode, i4).value == e4 && Encode(mode, i5).Ok? && Encode(mode, i5).value == e5
    ensures EncodeAll(mode, [i0, i1, i2, i3, i4, i5]).Ok?
    ensures EncodeAll(mode, [i0, i1, i2, i3, i4, i5]).value == e0 + (e1 + (e2 + (e3 + (e4 + e5))))
  {
    EncodeSingle(mode, i5);
    var r4 := [i4] + [i5];
    EncodeCons(mode, i4, [i5]);
    var r3 := [i3] + r4;
    EncodeCons(mode, i3, r4);
    var r2 := [i2] + r3;
    EncodeCons(mode, i2, r3);
    var r1 := [i1] + r2;
    EncodeCons(mode, i1, r2);
    var r0 := [i0] + r1;
    EncodeCons(mode, i0, r1);
    assert r0 == [i0, i1, i2, i3, i4, i5];
  }

  /** One byte of a little-endian encoding, and the rest. */
  lemma LECons(v: int, n: nat)
    ensures LE(v, n + 1) == [v % 256] + LE(v / 256, n)
  {
  }

  lemma BaseBytes()
    ensures LE(BASE_WORD, 8) == [0x10, 0x32, 0x54, 0x76, 0x98, 0xBA, 0xDC, 0xFE]
  {
    var q := [-0x123456789ABCDF0, -0x123456789ABCE, -0x123456789AC, -0x12345678A, -0x1234568, -0x12346, -0x124, -0x2, -0x1];
    LECons(q[7], 0);
    LECons(q[6], 1);
    LECons(q[5], 2);
    LECons(q[4], 3);
    LECons(q[3], 4);
    LECons(q[2], 5);
    LECons(q[1], 6);
    LECons(q[0], 7);
  }

  lemma Immed64Bytes()
    ensures LE(IMMED64, 8) == [0xEF, 0xCD, 0xAB, 0x89, 0x67, 0x45, 0x23, 0x01]
  {
    var q := [0x123456789ABCDEF, 0x123456789ABCD, 0x123456789AB, 0x123456789, 0x1234567, 0x12345, 0x123, 0x1, 0x0];
    LECons(q[7], 0);
    LECons(q[6], 1);
    LECons(q[5], 2);
    LECons(q[4], 3);
    LECons(q[3], 4);
    LECons(q[2], 5);
    LECons(q[1], 6);
    LECons(q[0], 7);
  }

  lemma Immed32Bytes()
    ensures LE(IMMED32, 4) == [0x99, 0xBA, 0xDC, 0xFE]
  {
    var q := [-0x1234567, -0x12346, -0x124, -0x2, -0x1];
    LECons(q[3], 0);
    LECons(q[2], 1);
    LECons(q[1], 2);
    LECons(q[0], 3);
  }

  lemma Imm16Bytes()
    ensures LE(12345, 2) == [0x39, 0x30]
  {
    var q := [0x3039, 0x30, 0x0];
    LECons(q[1], 0);
    LECons(q[0], 1);
  }


  // ---------------------------------------------------------------- single instructions

  /** The ModRM group of [r11] with /0 in 64-bit mode. */
  lemma StoreImm32AbsRm(m: MemOperand)
    requires m == BaseDisp(SCRATCH, 0)
    ensures RmValid(Mode64, Memory(m))
    ensures EncodeRm(Mode64, 0, Memory(m)).rexX == false && EncodeRm(Mode64, 0, Memory(m)).rexB == true
    ensures EncodeRm(Mode64, 0, Memory(m)).bytes == [0x03]
  {
    var c := ChooseDisp(m.base, 0);
    assert c.md == 0 && c.bytes == [];
  }

  /** MOV qword [r11], imm32 for any 32-bit immediate. */
  lemma StoreImm32AbsForm(v: int)
    requires Fits32(v)
    ensures Encode(Mode64, MovMI(SizeWord, BaseDisp(SCRATCH, 0), v)).Ok?
    ensures Encode(Mode64, MovMI(SizeWord, BaseDisp(SCRATCH, 0), v)).value == [0x49, 0xC7, 0x03] + LE(v, 4)
  {
    var m := BaseDisp(SCRATCH, 0);
    StoreImm32AbsRm(m);
    assert Rex(Mode64, true, false, false, true) == [0x49];
    assert [0x49] + [0xC7] + [0x03] == [0x49, 0xC7, 0x03];
    MovMIWordForm(Mode64, m, v, EncodeRm(Mode64, 0, Memory(m)), [0x49, 0xC7, 0x03]);
  }

  /** The ModRM group of [r11 + rdx*8] with /0 in 64-bit mode. */
  lemma StoreImm32ScaledRm(m: MemOperand)
    requires m == BaseIndex(SCRATCH, EDX, 3, 0)
    ensures RmValid(Mode64, Memory(m))
    ensures EncodeRm(Mode64, 0, Memory(m)).rexX == false && EncodeRm(Mode64, 0, Memory(m)).rexB == true
    ensures EncodeRm(Mode64, 0, Memory(m)).bytes == [0x04, 0xD3]
  {
    var c := ChooseDisp(m.base, 0);
    assert c.md == 0 && c.bytes == [];
  }

  /** MOV qword [r11 + rdx*8], imm32 for any 32-bit immediate. */
  lemma StoreImm32ScaledForm(v: int)
    requires Fits32(v)
    ensures Encode(Mode64, MovMI(SizeWord, BaseIndex(SCRATCH, EDX, 3, 0), v)).Ok?
    ensures Encode(Mode64, MovMI(SizeWord, BaseIndex(SCRATCH, EDX, 3, 0), v)).value == [0x49, 0xC7, 0x04, 0xD3] + LE(v, 4)
  {
    var m := BaseIndex(SCRATCH, EDX, 3, 0);
    StoreImm32ScaledRm(m);
    assert Rex(Mode64, true, false, false, true) == [0x49];
    assert [0x49] + [0xC7] + [0x04, 0xD3] == [0x49, 0xC7, 0x04, 0xD3];
    MovMIWordForm(Mode64, m, v, EncodeRm(Mode64, 0, Memory(m)), [0x49, 0xC7, 0x04, 0xD3]);
  }

  /** The ModRM group of [rdx + r11] with /0 in 64-bit mode. */
  lemma StoreImm32BasedRm(m: MemOperand)
    requires m == BaseIndex(EDX, SCRATCH, 0, 0)
    ensures RmValid(Mode64, Memory(m))
    ensures EncodeRm(Mode64, 0, Memory(m)).rexX == true && EncodeRm(Mode64, 0, Memory(m)).rexB == false
    ensures EncodeRm(Mode64, 0, Memory(m)).bytes == [0x04, 0x1A]
  {
    var c := ChooseDisp(m.base, 0);
    assert c.md == 0 && c.bytes == [];
  }

  /** MOV qword [rdx + r11], imm32 for any 32-bit immediate. */
  lemma StoreImm32BasedForm(v: int)
    requires Fits32(v)
    ensures Encode(Mode64, MovMI(SizeWord, BaseIndex(EDX, SCRATCH, 0, 0), v)).Ok?
    ensures Encode(Mode64, MovMI(SizeWord, BaseIndex(EDX, SCRATCH, 0, 0), v)).value == [0x4A, 0xC7, 0x04, 0x1A] + LE(v, 4)
  {
    var m := BaseIndex(EDX, SCRATCH, 0, 0);
    StoreImm32BasedRm(m);
    assert Rex(Mode64, true, false, true, false) == [0x4A];
    assert [0x4A] + [0xC7] + [0x04, 0x1A] == [0x4A, 0xC7, 0x04, 0x1A];
    MovMIWordForm(Mode64, m, v, EncodeRm(Mode64, 0, Memory(m)), [0x4A, 0xC7, 0x04, 0x1A]);
  }

  /** The ModRM group of [r11 + rsi*4] with /0 in 64-bit mode. */
  lemma StoreImm32FoldedRm(m: MemOperand)
    requires m == BaseIndex(SCRATCH, ESI, 2, 0)
    ensures RmValid(Mode64, Memory(m))
    ensures EncodeRm(Mode64, 0, Memory(m)).rexX == false && EncodeRm(Mode64, 0, Memory(m)).rexB == true
    ensures EncodeRm(Mode64, 0, Memory(m)).bytes == [0x04, 0xB3]
  {
    var c := ChooseDisp(m.base, 0);
    assert c.md == 0 && c.bytes == [];
  }

  /** MOV qword [r11 + rsi*4], imm32 for any 32-bit immediate. */
  lemma StoreImm32FoldedForm(v: int)
    requires Fits32(v)
    ensures Encode(Mode64, MovMI(SizeWord, BaseIndex(SCRATCH, ESI, 2, 0), v)).Ok?
    ensures Encode(Mode64, MovMI(SizeWord, BaseIndex(SCRATCH, ESI, 2, 0), v)).value == [0x49, 0xC7, 0x04, 0xB3] + LE(v, 4)
  {
    var m := BaseIndex(SCRATCH, ESI, 2, 0);
    StoreImm32FoldedRm(m);
    assert Rex(Mode64, true, false, false, true) == [0x49];
    assert [0x49] + [0xC7] + [0x04, 0xB3] == [0x49, 0xC7, 0x04, 0xB3];
    MovMIWordForm(Mode64, m, v, EncodeRm(Mode64, 0, Memory(m)), [0x49, 0xC7, 0x04, 0xB3]);
  }

  lemma LoadScratch(i: Instr)
    requires i == MovRI(SizeWord, SCRATCH, BASE_WORD)
    ensures Encode(Mode64, i).Ok? && Encode(Mode64, i).value == LOAD_R11
  {
    BaseBytes(); MovImm64Form(SCRATCH, BASE_WORD);
  }

  lemma LoadEAX(i: Instr)
    requires i == MovRI(SizeWord, EAX, IMMED64)
    ensures Encode(Mode64, i).Ok? && Encode(Mode64, i).value == [0x48, 0xB8] + [0xEF, 0xCD, 0xAB, 0x89, 0x67, 0x45, 0x23, 0x01]
  {
    Immed64Bytes(); MovImm64Form(EAX, IMMED64);
  }

  lemma LoadEDX(i: Instr)
    requires i == MovRI(SizeWord, EDX, IMMED64)
    ensures Encode(Mode64, i).Ok? && Encode(Mode64, i).value == [0x48, 0xBA] + [0xEF, 0xCD, 0xAB, 0x89, 0x67, 0x45, 0x23, 0x01]
  {
    Immed64Bytes(); MovImm64Form(EDX, IMMED64);
  }

  lemma LoadECX(i: Instr)
    requires i == MovRI(SizeWord, ECX, IMMED64)
    ensures Encode(Mode64, i).Ok? && Encode(Mode64, i).value == [0x48, 0xB9] + [0xEF, 0xCD, 0xAB, 0x89, 0x67, 0x45, 0x23, 0x01]
  {
    Immed64Bytes(); MovImm64Form(ECX, IMMED64);
  }

  lemma PushEAX(i: Instr)
    requires i == Push(EAX)
    ensures Encode(Mode64, i).Ok? && Encode(Mode64, i).value == [0x50]
  {
  }

  lemma PopEAX(i: Instr)
    requires i == Pop(EAX)
    ensures Encode(Mode64, i).Ok? && Encode(Mode64, i).value == [0x58]
  {
  }

  lemma PushECX(i: Instr)
    requires i == Push(ECX)
    ensures Encode(Mode64, i).Ok? && Encode(Mode64, i).value == [0x51]
  {
  }

  lemma PopECX(i: Instr)
    requires i == Pop(ECX)
    ensures Encode(Mode64, i).Ok? && Encode(Mode64, i).value == [0x59]
  {
  }

  lemma PushEDX(i: Instr)
    requires i == Push(EDX)
    ensures Encode(Mode64, i).Ok? && Encode(Mode64, i).value == [0x52]
  {
  }

  lemma PopEDX(i: Instr)
    requires i == Pop(EDX)
    ensures Encode(Mode64, i).Ok? && Encode(Mode64, i).value == [0x5A]
  {
  }

  lemma CmpRcxAbs(i: Instr)
    requires i == CmpRM(SizeWord, ECX, BaseDisp(SCRATCH, 0))
    ensures Encode(Mode64, i).Ok? && Encode(Mode64, i).value == [0x49, 0x3B, 0x0B]
  {
  }

  lemma MovRcxAbs(i: Instr)
    requires i == MovRM(SizeWord, ECX, BaseDisp(SCRATCH, 0))
    ensures Encode(Mode64, i).Ok? && Encode(Mode64, i).value == [0x49, 0x8B, 0x0B]
  {
  }

  lemma MovRcxAbs8(i: Instr)
    requires i == MovRM(SizeWord, ECX, BaseDisp(SCRATCH, 8))
    ensures Encode(Mode64, i).Ok? && Encode(Mode64, i).value == [0x49, 0x8B, 0x4B, 0x08]
  {
  }

  lemma MovRcxScaled(i: Instr)
    requires i == MovRM(SizeWord, ECX, BaseIndex(SCRATCH, EDX, 3, 0))
    ensures Encode(Mode64, i).Ok? && Encode(Mode64, i).value == [0x49, 0x8B, 0x0C, 0xD3]
  {
  }

  lemma MovRcxBased(i: Instr)
    requires i == MovRM(SizeWord, ECX, BaseIndex(EDX, SCRATCH, 0, 0))
    ensures Encode(Mode64, i).Ok? && Encode(Mode64, i).value == [0x4A, 0x8B, 0x0C, 0x1A]
  {
  }

  lemma LeaFold(i: Instr)
    requires i == Lea(SCRATCH, BaseIndex(EDX, SCRATCH, 0, 0))
    ensures Encode(Mode64, i).Ok? && Encode(Mode64, i).value == [0x4E, 0x8D, 0x1C, 0x1A]
  {
  }

  lemma MovRcxFolded(i: Instr)
    requires i == MovRM(SizeWord, ECX, BaseIndex(SCRATCH, ESI, 2, 0))
    ensures Encode(Mode64, i).Ok? && Encode(Mode64, i).value == [0x49, 0x8B, 0x0C, 0xB3]
  {
  }

  lemma StoreImm32Abs(i: Instr)
    requires i == MovMI(SizeWord, BaseDisp(SCRATCH, 0), IMMED32)
    ensures Encode(Mode64, i).Ok? && Encode(Mode64, i).value == [0x49, 0xC7, 0x03] + [0x99, 0xBA, 0xDC, 0xFE]
  {
    StoreImm32AbsForm(IMMED32); Immed32Bytes();
  }

  lemma StoreImm32Scaled(i: Instr)
    requires i == MovMI(SizeWord, BaseIndex(SCRATCH, EDX, 3, 0), IMMED32)
    ensures Encode(Mode64, i).Ok? && Encode(Mode64, i).value == [0x49, 0xC7, 0x04, 0xD3] + [0x99, 0xBA, 0xDC, 0xFE]
  {
    StoreImm32ScaledForm(IMMED32); Immed32Bytes();
  }

  lemma StoreImm32Based(i: Instr)
    requires i == MovMI(SizeWord, BaseIndex(EDX, SCRATCH, 0, 0), IMMED32)
    ensures Encode(Mode64, i).Ok? && Encode(Mode64, i).value == [0x4A, 0xC7, 0x04, 0x1A] + [0x99, 0xBA, 0xDC, 0xFE]
  {
    StoreImm32BasedForm(IMMED32); Immed32Bytes();
  }

  lemma StoreImm32Folded(i: Instr)
    requires i == MovMI(SizeWord, BaseIndex(SCRATCH, ESI, 2, 0), IMMED32)
    ensures Encode(Mode64, i).Ok? && Encode(Mode64, i).value == [0x49, 0xC7, 0x04, 0xB3] + [0x99, 0xBA, 0xDC, 0xFE]
  {
    StoreImm32FoldedForm(IMMED32); Immed32Bytes();
  }

  lemma StoreRaxAbs(i: Instr)
    requires i == MovMR(SizeWord, BaseDisp(SCRATCH, 0), EAX)
    ensures Encode(Mode64, i).Ok? && Encode(Mode64, i).value == [0x49, 0x89, 0x03]
  {
  }

  lemma StoreRaxScaled(i: Instr)
    requires i == MovMR(SizeWord, BaseIndex(SCRATCH, EDX, 3, 0), EAX)
    ensures Encode(Mode64, i).Ok? && Encode(Mode64, i).value == [0x49, 0x89, 0x04, 0xD3]
  {
  }

  lemma StoreRdxBased(i: Instr)
    requires i == MovMR(SizeWord, BaseIndex(EAX, SCRATCH, 0, 0), EDX)
    ensures Encode(Mode64, i).Ok? && Encode(Mode64, i).value == [0x4A, 0x89, 0x14, 0x18]
  {
  }

  lemma StoreRcxFolded(i: Instr)
    requires i == MovMR(SizeWord, BaseIndex(SCRATCH, EAX, 2, 0), ECX)
    ensures Encode(Mode64, i).Ok? && Encode(Mode64, i).value == [0x49, 0x89, 0x0C, 0x83]
  {
  }

  lemma Mov16RegReg32(i: Instr)
    requires i == MovRR(Size16, ECX, EBX)
    ensures Encode(Mode32, i).Ok? && Encode(Mode32, i).value == [0x66, 0x89, 0xD9]
  {
    Reg16Form(Mode32, ECX, EBX);
  }

  lemma Mov16RegReg64(i: Instr)
    requires i == MovRR(Size16, ECX, EBX)
    ensures Encode(Mode64, i).Ok? && Encode(Mode64, i).value == [0x66, 0x89, 0xD9]
  {
    Reg16Form(Mode64, ECX, EBX);
  }

  lemma Cmp16RegReg32(i: Instr)
    requires i == CmpRR(Size16, ECX, EBX)
    ensures Encode(Mode32, i).Ok? && Encode(Mode32, i).value == [0x66, 0x39, 0xD9]
  {
    Reg16Form(Mode32, ECX, EBX);
  }

  lemma Cmp16RegReg64(i: Instr)
    requires i == CmpRR(Size16, ECX, EBX)
    ensures Encode(Mode64, i).Ok? && Encode(Mode64, i).value == [0x66, 0x39, 0xD9]
  {
    Reg16Form(Mode64, ECX, EBX);
  }

  lemma Mov16RegImm32(i: Instr)
    requires i == MovRI(Size16, ECX, 12345)
    ensures Encode(Mode32, i).Ok? && Encode(Mode32, i).value == [0x66, 0xB9, 0x39, 0x30]
  {
    Mov16ImmForms(ECX, 12345); Imm16Bytes();
  }

  lemma Mov16RegImm64(i: Instr)
    requires i == MovRI(Size16, ECX, 12345)
    ensures Encode(Mode64, i).Ok? && Encode(Mode64, i).value == [0x66, 0xC7, 0xC1, 0x39, 0x30]
  {
    Mov16ImmForms(ECX, 12345); Imm16Bytes();
  }

  lemma Cmp16RegImm32(i: Instr)
    requires i == CmpRI(Size16, ECX, 12345)
    ensures Encode(Mode32, i).Ok? && Encode(Mode32, i).value == [0x66, 0x81, 0xF9, 0x39, 0x30]
  {
    Cmp16WideForm(Mode32, ECX, 12345); Imm16Bytes();
  }

  lemma Cmp16RegImm64(i: Instr)
    requires i == CmpRI(Size16, ECX, 12345)
    ensures Encode(Mode64, i).Ok? && Encode(Mode64, i).value == [0x66, 0x81, 0xF9, 0x39, 0x30]
  {
    Cmp16WideForm(Mode64, ECX, 12345); Imm16Bytes();
  }

  lemma Mov16MemImm(i: Instr)
    requires i == MovMI(Size16, BaseDisp(R13, 0), 12345)
    ensures Encode(Mode64, i).Ok? && Encode(Mode64, i).value == [0x66, 0x41, 0xC7, 0x45, 0x00, 0x39, 0x30]
  {
    Imm16Bytes();
  }

  lemma Cmp16MemImm(i: Instr)
    requires i == CmpMI(Size16, BaseDisp(R13, 0), 12345)
    ensures Encode(Mode64, i).Ok? && Encode(Mode64, i).value == [0x66, 0x41, 0x81, 0x7D, 0x00, 0x39, 0x30]
  {
    Imm16Bytes();
  }

  // ---------------------------------------------------------------- cases

  lemma Mov16RegReg32Plan()
    ensures var p := SelectBinary(Mode32, Fresh(Mode32).session, MOV, Size16, OReg(ECX), OReg(EBX));
      p.Ok? && p.value.instrs == [MovRR(Size16, ECX, EBX)] && p.value.session == CLOSED
  {
  }

  /** MOV16 cx, bx in 32-bit mode. */
  lemma Mov16RegReg32Case()
    ensures var r := Mov16(Fresh(Mode32), RegLoc(ECX), RegLoc(EBX));
      r.Ok? && r.value.code == [0x66, 0x89, 0xD9]
  {
    Mov16RegReg32Plan();
    Mov16RegReg32(MovRR(Size16, ECX, EBX));
    EncodeSingle(Mode32, MovRR(Size16, ECX, EBX));
    BinaryEmits(Fresh(Mode32), MOV, Size16, RegLoc(ECX), RegLoc(EBX), [MovRR(Size16, ECX, EBX)], CLOSED);
  }

  lemma Mov16RegImm32Plan()
    ensures var p := SelectBinary(Mode32, Fresh(Mode32).session, MOV, Size16, OReg(ECX), OImm(12345));
      p.Ok? && p.value.instrs == [MovRI(Size16, ECX, 12345)] && p.value.session == CLOSED
  {
  }

  /** MOV16 cx, 12345 in 32-bit mode. */
  lemma Mov16RegImm32Case()
    ensures var r := Mov16(Fresh(Mode32), RegLoc(ECX), ImmedLoc(12345));
      r.Ok? && r.value.code == [0x66, 0xB9, 0x39, 0x30]
  {
    Mov16RegImm32Plan();
    Mov16RegImm32(MovRI(Size16, ECX, 12345));
    EncodeSingle(Mode32, MovRI(Size16, ECX, 12345));
    BinaryEmits(Fresh(Mode32), MOV, Size16, RegLoc(ECX), ImmedLoc(12345), [MovRI(Size16, ECX, 12345)], CLOSED);
  }

  lemma Mov16RegReg64Plan()
    ensures var p := SelectBinary(Mode64, Fresh(Mode64).session, MOV, Size16, OReg(ECX), OReg(EBX));
      p.Ok? && p.value.instrs == [MovRR(Size16, ECX, EBX)] && p.value.session == CLOSED
  {
  }

  /** MOV16 cx, bx in 64-bit mode. */
  lemma Mov16RegReg64Case()
    ensures var r := Mov16(Fresh(Mode64), RegLoc(ECX), RegLoc(EBX));
      r.Ok? && r.value.code == [0x66, 0x89, 0xD9]
  {
    Mov16RegReg64Plan();
    Mov16RegReg64(MovRR(Size16, ECX, EBX));
    EncodeSingle(Mode64, MovRR(Size16, ECX, EBX));
    BinaryEmits(Fresh(Mode64), MOV, Size16, RegLoc(ECX), RegLoc(EBX), [MovRR(Size16, ECX, EBX)], CLOSED);
  }

  lemma Mov16RegImm64Plan()
    ensures var p := SelectBinary(Mode64, Fresh(Mode64).session, MOV, Size16, OReg(ECX), OImm(12345));
      p.Ok? && p.value.instrs == [MovRI(Size16, ECX, 12345)] && p.value.session == CLOSED
  {
  }

  /** MOV16 cx, 12345 in 64-bit mode: the C7 /0 form. */
  lemma Mov16RegImm64Case()
    ensures var r := Mov16(Fresh(Mode64), RegLoc(ECX), ImmedLoc(12345));
      r.Ok? && r.value.code == [0x66, 0xC7, 0xC1, 0x39, 0x30]
  {
    Mov16RegImm64Plan();
    Mov16RegImm64(MovRI(Size16, ECX, 12345));
    EncodeSingle(Mode64, MovRI(Size16, ECX, 12345));
    BinaryEmits(Fresh(Mode64), MOV, Size16, RegLoc(ECX), ImmedLoc(12345), [MovRI(Size16, ECX, 12345)], CLOSED);
  }

  lemma Mov16MemImmPlan()
    ensures Classify(Mode64, AddressLoc(RegPart(R13), ImmPart(0), 0, 0)) == OMem(M(R13, 0))
    ensures var p := SelectBinary(Mode64, Fresh(Mode64).session, MOV, Size16, OMem(M(R13, 0)), OImm(12345));
      p.Ok? && p.value.instrs == [MovMI(Size16, BaseDisp(R13, 0), 12345)] && p.value.session == CLOSED
  {
  }

  /** MOV16 [r13], 12345: 66 before REX, and a zero disp8 for r13. */
  lemma Mov16MemImmCase()
    ensures var r := Mov16(Fresh(Mode64), AddressLoc(RegPart(R13), ImmPart(0), 0, 0), ImmedLoc(12345));
      r.Ok? && r.value.code == [0x66, 0x41, 0xC7, 0x45, 0x00, 0x39, 0x30]
  {
    Mov16MemImmPlan();
    Mov16MemImm(MovMI(Size16, BaseDisp(R13, 0), 12345));
    EncodeSingle(Mode64, MovMI(Size16, BaseDisp(R13, 0), 12345));
    BinaryEmits(Fresh(Mode64), MOV, Size16, AddressLoc(RegPart(R13), ImmPart(0), 0, 0), ImmedLoc(12345), [MovMI(Size16, BaseDisp(R13, 0), 12345)], CLOSED);
  }

  lemma Cmp16RegReg32Plan()
    ensures var p := SelectBinary(Mode32, Fresh(Mode32).session, CMP, Size16, OReg(ECX), OReg(EBX));
      p.Ok? && p.value.instrs == [CmpRR(Size16, ECX, EBX)] && p.value.session == CLOSED
  {
  }

  /** CMP16 cx, bx in 32-bit mode. */
  lemma Cmp16RegReg32Case()
    ensures var r := Cmp16(Fresh(Mode32), RegLoc(ECX), RegLoc(EBX));
      r.Ok? && r.value.code == [0x66, 0x39, 0xD9]
  {
    Cmp16RegReg32Plan();
    Cmp16RegReg32(CmpRR(Size16, ECX, EBX));
    EncodeSingle(Mode32, CmpRR(Size16, ECX, EBX));
    BinaryEmits(Fresh(Mode32), CMP, Size16, RegLoc(ECX), RegLoc(EBX), [CmpRR(Size16, ECX, EBX)], CLOSED);
  }

  lemma Cmp16RegImm32Plan()
    ensures var p := SelectBinary(Mode32, Fresh(Mode32).session, CMP, Size16, OReg(ECX), OImm(12345));
      p.Ok? && p.value.instrs == [CmpRI(Size16, ECX, 12345)] && p.value.session == CLOSED
  {
  }

  /** CMP16 cx, 12345 in 32-bit mode. */
  lemma Cmp16RegImm32Case()
    ensures var r := Cmp16(Fresh(Mode32), RegLoc(ECX), ImmedLoc(12345));
      r.Ok? && r.value.code == [0x66, 0x81, 0xF9, 0x39, 0x30]
  {
    Cmp16RegImm32Plan();
    Cmp16RegImm32(CmpRI(Size16, ECX, 12345));
    EncodeSingle(Mode32, CmpRI(Size16, ECX, 12345));
    BinaryEmits(Fresh(Mode32), CMP, Size16, RegLoc(ECX), ImmedLoc(12345), [CmpRI(Size16, ECX, 12345)], CLOSED);
  }

  lemma Cmp16RegReg64Plan()
    ensures var p := SelectBinary(Mode64, Fresh(Mode64).session, CMP, Size16, OReg(ECX), OReg(EBX));
      p.Ok? && p.value.instrs == [CmpRR(Size16, ECX, EBX)] && p.value.session == CLOSED
  {
  }

  /** CMP16 cx, bx in 64-bit mode. */
  lemma Cmp16RegReg64Case()
    ensures var r := Cmp16(Fresh(Mode64), RegLoc(ECX), RegLoc(EBX));
      r.Ok? && r.value.code == [0x66, 0x39, 0xD9]
  {
    Cmp16RegReg64Plan();
    Cmp16RegReg64(CmpRR(Size16, ECX, EBX));
    EncodeSingle(Mode64, CmpRR(Size16, ECX, EBX));
    BinaryEmits(Fresh(Mode64), CMP, Size16, RegLoc(ECX), RegLoc(EBX), [CmpRR(Size16, ECX, EBX)], CLOSED);
  }

  lemma Cmp16RegImm64Plan()
    ensures var p := SelectBinary(Mode64, Fresh(Mode64).session, CMP, Size16, OReg(ECX), OImm(12345));
      p.Ok? && p.value.instrs == [CmpRI(Size16, ECX, 12345)] && p.value.session == CLOSED
  {
  }

  /** CMP16 cx, 12345 in 64-bit mode. */
  lemma Cmp16RegImm64Case()
    ensures var r := Cmp16(Fresh(Mode64), RegLoc(ECX), ImmedLoc(12345));
      r.Ok? && r.value.code == [0x66, 0x81, 0xF9, 0x39, 0x30]
  {
    Cmp16RegImm64Plan();
    Cmp16RegImm64(CmpRI(Size16, ECX, 12345));
    EncodeSingle(Mode64, CmpRI(Size16, ECX, 12345));
    BinaryEmits(Fresh(Mode64), CMP, Size16, RegLoc(ECX), ImmedLoc(12345), [CmpRI(Size16, ECX, 12345)], CLOSED);
  }

  lemma Cmp16MemImmPlan()
    ensures Classify(Mode64, AddressLoc(RegPart(R13), ImmPart(0), 0, 0)) == OMem(M(R13, 0))
    ensures var p := SelectBinary(Mode64, Fresh(Mode64).session, CMP, Size16, OMem(M(R13, 0)), OImm(12345));
      p.Ok? && p.value.instrs == [CmpMI(Size16, BaseDisp(R13, 0), 12345)] && p.value.session == CLOSED
  {
  }

  /** CMP16 [r13], 12345. */
  lemma Cmp16MemImmCase()
    ensures var r := Cmp16(Fresh(Mode64), AddressLoc(RegPart(R13), ImmPart(0), 0, 0), ImmedLoc(12345));
      r.Ok? && r.value.code == [0x66, 0x41, 0x81, 0x7D, 0x00, 0x39, 0x30]
  {
    Cmp16MemImmPlan();
    Cmp16MemImm(CmpMI(Size16, BaseDisp(R13, 0), 12345));
    EncodeSingle(Mode64, CmpMI(Size16, BaseDisp(R13, 0), 12345));
    BinaryEmits(Fresh(Mode64), CMP, Size16, AddressLoc(RegPart(R13), ImmPart(0), 0, 0), ImmedLoc(12345), [CmpMI(Size16, BaseDisp(R13, 0), 12345)], CLOSED);
  }

  lemma Address1Plan()
    ensures Classify(Mode64, AddressLoc(ImmPart(0), ImmPart(0), 0, BASE_ADDR)) == OMem(J(BASE_WORD))
    ensures var p := SelectBinary(Mode64, Fresh(Mode64).session, CMP, SizeWord, OReg(ECX), OMem(J(BASE_WORD)));
      p.Ok? && p.value.instrs == [MovRI(SizeWord, SCRATCH, BASE_WORD), CmpRM(SizeWord, ECX, BaseDisp(SCRATCH, 0))] && p.value.session == CLOSED
  {
  }

  lemma Address1Bytes(i0: Instr, i1: Instr)
    requires i0 == MovRI(SizeWord, SCRATCH, BASE_WORD) && i1 == CmpRM(SizeWord, ECX, BaseDisp(SCRATCH, 0))
    ensures EncodeAll(Mode64, [i0, i1]).Ok?
    ensures EncodeAll(Mode64, [i0, i1]).value == LOAD_R11 + [0x49, 0x3B, 0x0B]
  {
    LoadScratch(i0);
    CmpRcxAbs(i1);
    EncodeSeq2(Mode64, i0, i1, LOAD_R11, [0x49, 0x3B, 0x0B]);
  }

  /** CMP rcx, [BASE_ADDR]: the address is loaded into r11. */
  lemma Address1Case()
    ensures var r := Cmp(Fresh(Mode64), RegLoc(ECX), AddressLoc(ImmPart(0), ImmPart(0), 0, BASE_ADDR));
      r.Ok? && r.value.code == LOAD_R11 + [0x49, 0x3B, 0x0B]
  {
    Address1Plan();
    Address1Bytes(MovRI(SizeWord, SCRATCH, BASE_WORD), CmpRM(SizeWord, ECX, BaseDisp(SCRATCH, 0)));
    BinaryEmits(Fresh(Mode64), CMP, SizeWord, RegLoc(ECX), AddressLoc(ImmPart(0), ImmPart(0), 0, BASE_ADDR), [MovRI(SizeWord, SCRATCH, BASE_WORD), CmpRM(SizeWord, ECX, BaseDisp(SCRATCH, 0))], CLOSED);
  }

  lemma Address2Plan()
    ensures Classify(Mode64, AddressLoc(ImmPart(0), RegPart(EDX), 3, BASE_ADDR)) == OMem(A(None, EDX, 3, BASE_WORD))
    ensures var p := SelectBinary(Mode64, Fresh(Mode64).session, MOV, SizeWord, OReg(ECX), OMem(A(None, EDX, 3, BASE_WORD)));
      p.Ok? && p.value.instrs == [MovRI(SizeWord, SCRATCH, BASE_WORD), MovRM(SizeWord, ECX, BaseIndex(SCRATCH, EDX, 3, 0))] && p.value.session == CLOSED
  {
  }

  lemma Address2Bytes(i0: Instr, i1: Instr)
    requires i0 == MovRI(SizeWord, SCRATCH, BASE_WORD) && i1 == MovRM(SizeWord, ECX, BaseIndex(SCRATCH, EDX, 3, 0))
    ensures EncodeAll(Mode64, [i0, i1]).Ok?
    ensures EncodeAll(Mode64, [i0, i1]).value == LOAD_R11 + [0x49, 0x8B, 0x0C, 0xD3]
  {
    LoadScratch(i0);
    MovRcxScaled(i1);
    EncodeSeq2(Mode64, i0, i1, LOAD_R11, [0x49, 0x8B, 0x0C, 0xD3]);
  }

  /** MOV rcx, [BASE_ADDR + rdx*8]: r11 becomes the base. */
  lemma Address2Case()
    ensures var r := Mov(Fresh(Mode64), RegLoc(ECX), AddressLoc(ImmPart(0), RegPart(EDX), 3, BASE_ADDR));
      r.Ok? && r.value.code == LOAD_R11 + [0x49, 0x8B, 0x0C, 0xD3]
  {
    Address2Plan();
    Address2Bytes(MovRI(SizeWord, SCRATCH, BASE_WORD), MovRM(SizeWord, ECX, BaseIndex(SCRATCH, EDX, 3, 0)));
    BinaryEmits(Fresh(Mode64), MOV, SizeWord, RegLoc(ECX), AddressLoc(ImmPart(0), RegPart(EDX), 3, BASE_ADDR), [MovRI(SizeWord, SCRATCH, BASE_WORD), MovRM(SizeWord, ECX, BaseIndex(SCRATCH, EDX, 3, 0))], CLOSED);
  }

  lemma Address3Plan()
    ensures Classify(Mode64, AddressLoc(RegPart(EDX), ImmPart(0), 0, BASE_ADDR)) == OMem(M(EDX, BASE_WORD))
    ensures var p := SelectBinary(Mode64, Fresh(Mode64).session, MOV, SizeWord, OReg(ECX), OMem(M(EDX, BASE_WORD)));
      p.Ok? && p.value.instrs == [MovRI(SizeWord, SCRATCH, BASE_WORD), MovRM(SizeWord, ECX, BaseIndex(EDX, SCRATCH, 0, 0))] && p.value.session == CLOSED
  {
  }

  lemma Address3Bytes(i0: Instr, i1: Instr)
    requires i0 == MovRI(SizeWord, SCRATCH, BASE_WORD) && i1 == MovRM(SizeWord, ECX, BaseIndex(EDX, SCRATCH, 0, 0))
    ensures EncodeAll(Mode64, [i0, i1]).Ok?
    ensures EncodeAll(Mode64, [i0, i1]).value == LOAD_R11 + [0x4A, 0x8B, 0x0C, 0x1A]
  {
    LoadScratch(i0);
    MovRcxBased(i1);
    EncodeSeq2(Mode64, i0, i1, LOAD_R11, [0x4A, 0x8B, 0x0C, 0x1A]);
  }

  /** MOV rcx, [rdx + BASE_ADDR]: r11 becomes the index. */
  lemma Address3Case()
    ensures var r := Mov(Fresh(Mode64), RegLoc(ECX), AddressLoc(RegPart(EDX), ImmPart(0), 0, BASE_ADDR));
      r.Ok? && r.value.code == LOAD_R11 + [0x4A, 0x8B, 0x0C, 0x1A]
  {
    Address3Plan();
    Address3Bytes(MovRI(SizeWord, SCRATCH, BASE_WORD), MovRM(SizeWord, ECX, BaseIndex(EDX, SCRATCH, 0, 0)));
    BinaryEmits(Fresh(Mode64), MOV, SizeWord, RegLoc(ECX), AddressLoc(RegPart(EDX), ImmPart(0), 0, BASE_ADDR), [MovRI(SizeWord, SCRATCH, BASE_WORD), MovRM(SizeWord, ECX, BaseIndex(EDX, SCRATCH, 0, 0))], CLOSED);
  }

  lemma Address4Plan()
    ensures Classify(Mode64, AddressLoc(RegPart(EDX), RegPart(ESI), 2, BASE_ADDR)) == OMem(A(Some(EDX), ESI, 2, BASE_WORD))
    ensures var p := SelectBinary(Mode64, BeginReuse(Fresh(Mode64)).session, MOV, SizeWord, OReg(ECX), OMem(A(Some(EDX), ESI, 2, BASE_WORD)));
      p.Ok? && p.value.instrs == [MovRI(SizeWord, SCRATCH, BASE_WORD), Lea(SCRATCH, BaseIndex(EDX, SCRATCH, 0, 0)), MovRM(SizeWord, ECX, BaseIndex(SCRATCH, ESI, 2, 0))] && p.value.session == Session(true, false, 0)
  {
  }

  lemma Address4Bytes(i0: Instr, i1: Instr, i2: Instr)
    requires i0 == MovRI(SizeWord, SCRATCH, BASE_WORD) && i1 == Lea(SCRATCH, BaseIndex(EDX, SCRATCH, 0, 0)) && i2 == MovRM(SizeWord, ECX, BaseIndex(SCRATCH, ESI, 2, 0))
    ensures EncodeAll(Mode64, [i0, i1, i2]).Ok?
    ensures EncodeAll(Mode64, [i0, i1, i2]).value == LOAD_R11 + ([0x4E, 0x8D, 0x1C, 0x1A] + [0x49, 0x8B, 0x0C, 0xB3])
  {
    LoadScratch(i0);
    LeaFold(i1);
    MovRcxFolded(i2);
    EncodeSeq3(Mode64, i0, i1, i2, LOAD_R11, [0x4E, 0x8D, 0x1C, 0x1A], [0x49, 0x8B, 0x0C, 0xB3]);
  }

  /** MOV rcx, [rdx + rsi*4 + BASE_ADDR] inside a reuse session: the base is folded into r11 with LEA, and r11 stays unknown. */
  lemma Address4Case()
    ensures var r := Mov(BeginReuse(Fresh(Mode64)), RegLoc(ECX), AddressLoc(RegPart(EDX), RegPart(ESI), 2, BASE_ADDR));
      r.Ok? && r.value.code == LOAD_R11 + ([0x4E, 0x8D, 0x1C, 0x1A] + [0x49, 0x8B, 0x0C, 0xB3]) &&
      r.value.session.reuse && !r.value.session.known
  {
    Address4Plan();
    Address4Bytes(MovRI(SizeWord, SCRATCH, BASE_WORD), Lea(SCRATCH, BaseIndex(EDX, SCRATCH, 0, 0)), MovRM(SizeWord, ECX, BaseIndex(SCRATCH, ESI, 2, 0)));
    BinaryEmits(BeginReuse(Fresh(Mode64)), MOV, SizeWord, RegLoc(ECX), AddressLoc(RegPart(EDX), RegPart(ESI), 2, BASE_ADDR), [MovRI(SizeWord, SCRATCH, BASE_WORD), Lea(SCRATCH, BaseIndex(EDX, SCRATCH, 0, 0)), MovRM(SizeWord, ECX, BaseIndex(SCRATCH, ESI, 2, 0))], Session(true, false, 0));
  }

  lemma Immed32Address1Plan()
    ensures Classify(Mode64, AddressLoc(ImmPart(0), ImmPart(0), 0, BASE_ADDR)) == OMem(J(BASE_WORD))
    ensures Classify(Mode64, ImmedLoc(IMMED32)) == OImm(IMMED32)
    ensures var p := SelectBinary(Mode64, Fresh(Mode64).session, MOV, SizeWord, OMem(J(BASE_WORD)), OImm(IMMED32));
      p.Ok? && p.value.instrs == [MovRI(SizeWord, SCRATCH, BASE_WORD), MovMI(SizeWord, BaseDisp(SCRATCH, 0), IMMED32)] && p.value.session == CLOSED
  {
  }

  lemma Immed32Address1Bytes(i0: Instr, i1: Instr)
    requires i0 == MovRI(SizeWord, SCRATCH, BASE_WORD) && i1 == MovMI(SizeWord, BaseDisp(SCRATCH, 0), IMMED32)
    ensures EncodeAll(Mode64, [i0, i1]).Ok?
    ensures EncodeAll(Mode64, [i0, i1]).value == LOAD_R11 + ([0x49, 0xC7, 0x03] + [0x99, 0xBA, 0xDC, 0xFE])
  {
    LoadScratch(i0);
    StoreImm32Abs(i1);
    EncodeSeq2(Mode64, i0, i1, LOAD_R11, [0x49, 0xC7, 0x03] + [0x99, 0xBA, 0xDC, 0xFE]);
  }

  /** MOV [BASE_ADDR], IMMED32. */
  lemma Immed32Address1Case()
    ensures var r := Mov(Fresh(Mode64), AddressLoc(ImmPart(0), ImmPart(0), 0, BASE_ADDR), ImmedLoc(IMMED32));
      r.Ok? && r.value.code == LOAD_R11 + ([0x49, 0xC7, 0x03] + [0x99, 0xBA, 0xDC, 0xFE])
  {
    Immed32Address1Plan();
    Immed32Address1Bytes(MovRI(SizeWord, SCRATCH, BASE_WORD), MovMI(SizeWord, BaseDisp(SCRATCH, 0), IMMED32));
    BinaryEmits(Fresh(Mode64), MOV, SizeWord, AddressLoc(ImmPart(0), ImmPart(0), 0, BASE_ADDR), ImmedLoc(IMMED32), [MovRI(SizeWord, SCRATCH, BASE_WORD), MovMI(SizeWord, BaseDisp(SCRATCH, 0), IMMED32)], CLOSED);
  }

  lemma Immed32Address2Plan()
    ensures Classify(Mode64, AddressLoc(ImmPart(0), RegPart(EDX), 3, BASE_ADDR)) == OMem(A(None, EDX, 3, BASE_WORD))
    ensures Classify(Mode64, ImmedLoc(IMMED32)) == OImm(IMMED32)
    ensures var p := SelectBinary(Mode64, Fresh(Mode64).session, MOV, SizeWord, OMem(A(None, EDX, 3, BASE_WORD)), OImm(IMMED32));
      p.Ok? && p.value.instrs == [MovRI(SizeWord, SCRATCH, BASE_WORD), MovMI(SizeWord, BaseIndex(SCRATCH, EDX, 3, 0), IMMED32)] && p.value.session == CLOSED
  {
  }

  lemma Immed32Address2Bytes(i0: Instr, i1: Instr)
    requires i0 == MovRI(SizeWord, SCRATCH, BASE_WORD) && i1 == MovMI(SizeWord, BaseIndex(SCRATCH, EDX, 3, 0), IMMED32)
    ensures EncodeAll(Mode64, [i0, i1]).Ok?
    ensures EncodeAll(Mode64, [i0, i1]).value == LOAD_R11 + ([0x49, 0xC7, 0x04, 0xD3] + [0x99, 0xBA, 0xDC, 0xFE])
  {
    LoadScratch(i0);
    StoreImm32Scaled(i1);
    EncodeSeq2(Mode64, i0, i1, LOAD_R11, [0x49, 0xC7, 0x04, 0xD3] + [0x99, 0xBA, 0xDC, 0xFE]);
  }

  /** MOV [BASE_ADDR + rdx*8], IMMED32. */
  lemma Immed32Address2Case()
    ensures var r := Mov(Fresh(Mode64), AddressLoc(ImmPart(0), RegPart(EDX), 3, BASE_ADDR), ImmedLoc(IMMED32));
      r.Ok? && r.value.code == LOAD_R11 + ([0x49, 0xC7, 0x04, 0xD3] + [0x99, 0xBA, 0xDC, 0xFE])
  {
    Immed32Address2Plan();
    Immed32Address2Bytes(MovRI(SizeWord, SCRATCH, BASE_WORD), MovMI(SizeWord, BaseIndex(SCRATCH, EDX, 3, 0), IMMED32));
    BinaryEmits(Fresh(Mode64), MOV, SizeWord, AddressLoc(ImmPart(0), RegPart(EDX), 3, BASE_ADDR), ImmedLoc(IMMED32), [MovRI(SizeWord, SCRATCH, BASE_WORD), MovMI(SizeWord, BaseIndex(SCRATCH, EDX, 3, 0), IMMED32)], CLOSED);
  }

  lemma Immed32Address3Plan()
    ensures Classify(Mode64, AddressLoc(RegPart(EDX), ImmPart(0), 0, BASE_ADDR)) == OMem(M(EDX, BASE_WORD))
    ensures Classify(Mode64, ImmedLoc(IMMED32)) == OImm(IMMED32)
    ensures var p := SelectBinary(Mode64, Fresh(Mode64).session, MOV, SizeWord, OMem(M(EDX, BASE_WORD)), OImm(IMMED32));
      p.Ok? && p.value.instrs == [MovRI(SizeWord, SCRATCH, BASE_WORD), MovMI(SizeWord, BaseIndex(EDX, SCRATCH, 0, 0), IMMED32)] && p.value.session == CLOSED
  {
  }

  lemma Immed32Address3Bytes(i0: Instr, i1: Instr)
    requires i0 == MovRI(SizeWord, SCRATCH, BASE_WORD) && i1 == MovMI(SizeWord, BaseIndex(EDX, SCRATCH, 0, 0), IMMED32)
    ensures EncodeAll(Mode64, [i0, i1]).Ok?
    ensures EncodeAll(Mode64, [i0, i1]).value == LOAD_R11 + ([0x4A, 0xC7, 0x04, 0x1A] + [0x99, 0xBA, 0xDC, 0xFE])
  {
    LoadScratch(i0);
    StoreImm32Based(i1);
    EncodeSeq2(Mode64, i0, i1, LOAD_R11, [0x4A, 0xC7, 0x04, 0x1A] + [0x99, 0xBA, 0xDC, 0xFE]);
  }

  /** MOV [rdx + BASE_ADDR], IMMED32. */
  lemma Immed32Address3Case()
    ensures var r := Mov(Fresh(Mode64), AddressLoc(RegPart(EDX), ImmPart(0), 0, BASE_ADDR), ImmedLoc(IMMED32));
      r.Ok? && r.value.code == LOAD_R11 + ([0x4A, 0xC7, 0x04, 0x1A] + [0x99, 0xBA, 0xDC, 0xFE])
  {
    Immed32Address3Plan();
    Immed32Address3Bytes(MovRI(SizeWord, SCRATCH, BASE_WORD), MovMI(SizeWord, BaseIndex(EDX, SCRATCH, 0, 0), IMMED32));
    BinaryEmits(Fresh(Mode64), MOV, SizeWord, AddressLoc(RegPart(EDX), ImmPart(0), 0, BASE_ADDR), ImmedLoc(IMMED32), [MovRI(SizeWord, SCRATCH, BASE_WORD), MovMI(SizeWord, BaseIndex(EDX, SCRATCH, 0, 0), IMMED32)], CLOSED);
  }

  lemma Immed32Address4Plan()
    ensures Classify(Mode64, AddressLoc(RegPart(EDX), RegPart(ESI), 2, BASE_ADDR)) == OMem(A(Some(EDX), ESI, 2, BASE_WORD))
    ensures Classify(Mode64, ImmedLoc(IMMED32)) == OImm(IMMED32)
    ensures var p := SelectBinary(Mode64, Fresh(Mode64).session, MOV, SizeWord, OMem(A(Some(EDX), ESI, 2, BASE_WORD)), OImm(IMMED32));
      p.Ok? && p.value.instrs == [MovRI(SizeWord, SCRATCH, BASE_WORD), Lea(SCRATCH, BaseIndex(EDX, SCRATCH, 0, 0)), MovMI(SizeWord, BaseIndex(SCRATCH, ESI, 2, 0), IMMED32)] && p.value.session == CLOSED
  {
  }

  lemma Immed32Address4Bytes(i0: Instr, i1: Instr, i2: Instr)
    requires i0 == MovRI(SizeWord, SCRATCH, BASE_WORD) && i1 == Lea(SCRATCH, BaseIndex(EDX, SCRATCH, 0, 0)) && i2 == MovMI(SizeWord, BaseIndex(SCRATCH, ESI, 2, 0), IMMED32)
    ensures EncodeAll(Mode64, [i0, i1, i2]).Ok?
    ensures EncodeAll(Mode64, [i0, i1, i2]).value == LOAD_R11 + ([0x4E, 0x8D, 0x1C, 0x1A] + ([0x49, 0xC7, 0x04, 0xB3] + [0x99, 0xBA, 0xDC, 0xFE]))
  {
    LoadScratch(i0);
    LeaFold(i1);
    StoreImm32Folded(i2);
    EncodeSeq3(Mode64, i0, i1, i2, LOAD_R11, [0x4E, 0x8D, 0x1C, 0x1A], [0x49, 0xC7, 0x04, 0xB3] + [0x99, 0xBA, 0xDC, 0xFE]);
  }

  /** MOV [rdx + rsi*4 + BASE_ADDR], IMMED32. */
  lemma Immed32Address4Case()
    ensures var r := Mov(Fresh(Mode64), AddressLoc(RegPart(EDX), RegPart(ESI), 2, BASE_ADDR), ImmedLoc(IMMED32));
      r.Ok? && r.value.code == LOAD_R11 + ([0x4E, 0x8D, 0x1C, 0x1A] + ([0x49, 0xC7, 0x04, 0xB3] + [0x99, 0xBA, 0xDC, 0xFE]))
  {
    Immed32Address4Plan();
    Immed32Address4Bytes(MovRI(SizeWord, SCRATCH, BASE_WORD), Lea(SCRATCH, BaseIndex(EDX, SCRATCH, 0, 0)), MovMI(SizeWord, BaseIndex(SCRATCH, ESI, 2, 0), IMMED32));
    BinaryEmits(Fresh(Mode64), MOV, SizeWord, AddressLoc(RegPart(EDX), RegPart(ESI), 2, BASE_ADDR), ImmedLoc(IMMED32), [MovRI(SizeWord, SCRATCH, BASE_WORD), Lea(SCRATCH, BaseIndex(EDX, SCRATCH, 0, 0)), MovMI(SizeWord, BaseIndex(SCRATCH, ESI, 2, 0), IMMED32)], CLOSED);
  }

  lemma Immed64Address1Plan()
    ensures Classify(Mode64, AddressLoc(ImmPart(0), ImmPart(0), 0, BASE_ADDR)) == OMem(J(BASE_WORD))
    ensures Classify(Mode64, ImmedLoc(IMMED64)) == OImm(IMMED64)
    ensures var p := SelectBinary(Mode64, Fresh(Mode64).session, MOV, SizeWord, OMem(J(BASE_WORD)), OImm(IMMED64));
      p.Ok? && p.value.instrs == [Push(EAX), MovRI(SizeWord, EAX, IMMED64), MovRI(SizeWord, SCRATCH, BASE_WORD), MovMR(SizeWord, BaseDisp(SCRATCH, 0), EAX), Pop(EAX)] && p.value.session == CLOSED
  {
  }

  lemma Immed64Address1Bytes(i0: Instr, i1: Instr, i2: Instr, i3: Instr, i4: Instr)
    requires i0 == Push(EAX) && i1 == MovRI(SizeWord, EAX, IMMED64) && i2 == MovRI(SizeWord, SCRATCH, BASE_WORD) && i3 == MovMR(SizeWord, BaseDisp(SCRATCH, 0), EAX) && i4 == Pop(EAX)
    ensures EncodeAll(Mode64, [i0, i1, i2, i3, i4]).Ok?
    ensures EncodeAll(Mode64, [i0, i1, i2, i3, i4]).value == [0x50] + (([0x48, 0xB8] + [0xEF, 0xCD, 0xAB, 0x89, 0x67, 0x45, 0x23, 0x01]) + (LOAD_R11 + ([0x49, 0x89, 0x03] + [0x58])))
  {
    PushEAX(i0);
    LoadEAX(i1);
    LoadScratch(i2);
    StoreRaxAbs(i3);
    PopEAX(i4);
    EncodeSeq5(Mode64, i0, i1, i2, i3, i4, [0x50], [0x48, 0xB8] + [0xEF, 0xCD, 0xAB, 0x89, 0x67, 0x45, 0x23, 0x01], LOAD_R11, [0x49, 0x89, 0x03], [0x58]);
  }

  /** MOV [BASE_ADDR], IMMED64: the value goes through a saved rax. */
  lemma Immed64Address1Case()
    ensures var r := Mov(Fresh(Mode64), AddressLoc(ImmPart(0), ImmPart(0), 0, BASE_ADDR), ImmedLoc(IMMED64));
      r.Ok? && r.value.code == [0x50] + (([0x48, 0xB8] + [0xEF, 0xCD, 0xAB, 0x89, 0x67, 0x45, 0x23, 0x01]) + (LOAD_R11 + ([0x49, 0x89, 0x03] + [0x58])))
  {
    Immed64Address1Plan();
    Immed64Address1Bytes(Push(EAX), MovRI(SizeWord, EAX, IMMED64), MovRI(SizeWord, SCRATCH, BASE_WORD), MovMR(SizeWord, BaseDisp(SCRATCH, 0), EAX), Pop(EAX));
    BinaryEmits(Fresh(Mode64), MOV, SizeWord, AddressLoc(ImmPart(0), ImmPart(0), 0, BASE_ADDR), ImmedLoc(IMMED64), [Push(EAX), MovRI(SizeWord, EAX, IMMED64), MovRI(SizeWord, SCRATCH, BASE_WORD), MovMR(SizeWord, BaseDisp(SCRATCH, 0), EAX), Pop(EAX)], CLOSED);
  }

  lemma Immed64Address2Plan()
    ensures Classify(Mode64, AddressLoc(ImmPart(0), RegPart(EDX), 3, BASE_ADDR)) == OMem(A(None, EDX, 3, BASE_WORD))
    ensures Classify(Mode64, ImmedLoc(IMMED64)) == OImm(IMMED64)
    ensures var p := SelectBinary(Mode64, Fresh(Mode64).session, MOV, SizeWord, OMem(A(None, EDX, 3, BASE_WORD)), OImm(IMMED64));
      p.Ok? && p.value.instrs == [Push(EAX), MovRI(SizeWord, EAX, IMMED64), MovRI(SizeWord, SCRATCH, BASE_WORD), MovMR(SizeWord, BaseIndex(SCRATCH, EDX, 3, 0), EAX), Pop(EAX)] && p.value.session == CLOSED
  {
  }

  lemma Immed64Address2Bytes(i0: Instr, i1: Instr, i2: Instr, i3: Instr, i4: Instr)
    requires i0 == Push(EAX) && i1 == MovRI(SizeWord, EAX, IMMED64) && i2 == MovRI(SizeWord, SCRATCH, BASE_WORD) && i3 == MovMR(SizeWord, BaseIndex(SCRATCH, EDX, 3, 0), EAX) && i4 == Pop(EAX)
    ensures EncodeAll(Mode64, [i0, i1, i2, i3, i4]).Ok?
    ensures EncodeAll(Mode64, [i0, i1, i2, i3, i4]).value == [0x50] + (([0x48, 0xB8] + [0xEF, 0xCD, 0xAB, 0x89, 0x67, 0x45, 0x23, 0x01]) + (LOAD_R11 + ([0x49, 0x89, 0x04, 0xD3] + [0x58])))
  {
    PushEAX(i0);
    LoadEAX(i1);
    LoadScratch(i2);
    StoreRaxScaled(i3);
    PopEAX(i4);
    EncodeSeq5(Mode64, i0, i1, i2, i3, i4, [0x50], [0x48, 0xB8] + [0xEF, 0xCD, 0xAB, 0x89, 0x67, 0x45, 0x23, 0x01], LOAD_R11, [0x49, 0x89, 0x04, 0xD3], [0x58]);
  }

  /** MOV [BASE_ADDR + rdx*8], IMMED64: rax is still free. */
  lemma Immed64Address2Case()
    ensures var r := Mov(Fresh(Mode64), AddressLoc(ImmPart(0), RegPart(EDX), 3, BASE_ADDR), ImmedLoc(IMMED64));
      r.Ok? && r.value.code == [0x50] + (([0x48, 0xB8] + [0xEF, 0xCD, 0xAB, 0x89, 0x67, 0x45, 0x23, 0x01]) + (LOAD_R11 + ([0x49, 0x89, 0x04, 0xD3] + [0x58])))
  {
    Immed64Address2Plan();
    Immed64Address2Bytes(Push(EAX), MovRI(SizeWord, EAX, IMMED64), MovRI(SizeWord, SCRATCH, BASE_WORD), MovMR(SizeWord, BaseIndex(SCRATCH, EDX, 3, 0), EAX), Pop(EAX));
    BinaryEmits(Fresh(Mode64), MOV, SizeWord, AddressLoc(ImmPart(0), RegPart(EDX), 3, BASE_ADDR), ImmedLoc(IMMED64), [Push(EAX), MovRI(SizeWord, EAX, IMMED64), MovRI(SizeWord, SCRATCH, BASE_WORD), MovMR(SizeWord, BaseIndex(SCRATCH, EDX, 3, 0), EAX), Pop(EAX)], CLOSED);
  }

  lemma Immed64Address3Plan()
    ensures Classify(Mode64, AddressLoc(RegPart(EAX), ImmPart(0), 0, BASE_ADDR)) == OMem(M(EAX, BASE_WORD))
    ensures Classify(Mode64, ImmedLoc(IMMED64)) == OImm(IMMED64)
    ensures var p := SelectBinary(Mode64, Fresh(Mode64).session, MOV, SizeWord, OMem(M(EAX, BASE_WORD)), OImm(IMMED64));
      p.Ok? && p.value.instrs == [Push(EDX), MovRI(SizeWord, EDX, IMMED64), MovRI(SizeWord, SCRATCH, BASE_WORD), MovMR(SizeWord, BaseIndex(EAX, SCRATCH, 0, 0), EDX), Pop(EDX)] && p.value.session == CLOSED
  {
  }

  lemma Immed64Address3Bytes(i0: Instr, i1: Instr, i2: Instr, i3: Instr, i4: Instr)
    requires i0 == Push(EDX) && i1 == MovRI(SizeWord, EDX, IMMED64) && i2 == MovRI(SizeWord, SCRATCH, BASE_WORD) && i3 == MovMR(SizeWord, BaseIndex(EAX, SCRATCH, 0, 0), EDX) && i4 == Pop(EDX)
    ensures EncodeAll(Mode64, [i0, i1, i2, i3, i4]).Ok?
    ensures EncodeAll(Mode64, [i0, i1, i2, i3, i4]).value == [0x52] + (([0x48, 0xBA] + [0xEF, 0xCD, 0xAB, 0x89, 0x67, 0x45, 0x23, 0x01]) + (LOAD_R11 + ([0x4A, 0x89, 0x14, 0x18] + [0x5A])))
  {
    PushEDX(i0);
    LoadEDX(i1);
    LoadScratch(i2);
    StoreRdxBased(i3);
    PopEDX(i4);
    EncodeSeq5(Mode64, i0, i1, i2, i3, i4, [0x52], [0x48, 0xBA] + [0xEF, 0xCD, 0xAB, 0x89, 0x67, 0x45, 0x23, 0x01], LOAD_R11, [0x4A, 0x89, 0x14, 0x18], [0x5A]);
  }

  /** MOV [rax + BASE_ADDR], IMMED64: the address uses rax, so rdx is the temporary. */
  lemma Immed64Address3Case()
    ensures var r := Mov(Fresh(Mode64), AddressLoc(RegPart(EAX), ImmPart(0), 0, BASE_ADDR), ImmedLoc(IMMED64));
      r.Ok? && r.value.code == [0x52] + (([0x48, 0xBA] + [0xEF, 0xCD, 0xAB, 0x89, 0x67, 0x45, 0x23, 0x01]) + (LOAD_R11 + ([0x4A, 0x89, 0x14, 0x18] + [0x5A])))
  {
    Immed64Address3Plan();
    Immed64Address3Bytes(Push(EDX), MovRI(SizeWord, EDX, IMMED64), MovRI(SizeWord, SCRATCH, BASE_WORD), MovMR(SizeWord, BaseIndex(EAX, SCRATCH, 0, 0), EDX), Pop(EDX));
    BinaryEmits(Fresh(Mode64), MOV, SizeWord, AddressLoc(RegPart(EAX), ImmPart(0), 0, BASE_ADDR), ImmedLoc(IMMED64), [Push(EDX), MovRI(SizeWord, EDX, IMMED64), MovRI(SizeWord, SCRATCH, BASE_WORD), MovMR(SizeWord, BaseIndex(EAX, SCRATCH, 0, 0), EDX), Pop(EDX)], CLOSED);
  }

  lemma Immed64Address4Plan()
    ensures Classify(Mode64, AddressLoc(RegPart(EDX), RegPart(EAX), 2, BASE_ADDR)) == OMem(A(Some(EDX), EAX, 2, BASE_WORD))
    ensures Classify(Mode64, ImmedLoc(IMMED64)) == OImm(IMMED64)
    ensures var p := SelectBinary(Mode64, Fresh(Mode64).session, MOV, SizeWord, OMem(A(Some(EDX), EAX, 2, BASE_WORD)), OImm(IMMED64));
      p.Ok? && p.value.instrs == [Push(ECX), MovRI(SizeWord, ECX, IMMED64), MovRI(SizeWord, SCRATCH, BASE_WORD), Lea(SCRATCH, BaseIndex(EDX, SCRATCH, 0, 0)), MovMR(SizeWord, BaseIndex(SCRATCH, EAX, 2, 0), ECX), Pop(ECX)] && p.value.session == CLOSED
  {
  }

  lemma Immed64Address4Bytes(i0: Instr, i1: Instr, i2: Instr, i3: Instr, i4: Instr, i5: Instr)
    requires i0 == Push(ECX) && i1 == MovRI(SizeWord, ECX, IMMED64) && i2 == MovRI(SizeWord, SCRATCH, BASE_WORD) && i3 == Lea(SCRATCH, BaseIndex(EDX, SCRATCH, 0, 0)) && i4 == MovMR(SizeWord, BaseIndex(SCRATCH, EAX, 2, 0), ECX) && i5 == Pop(ECX)
    ensures EncodeAll(Mode64, [i0, i1, i2, i3, i4, i5]).Ok?
    ensures EncodeAll(Mode64, [i0, i1, i2, i3, i4, i5]).value == [0x51] + (([0x48, 0xB9] + [0xEF, 0xCD, 0xAB, 0x89, 0x67, 0x45, 0x23, 0x01]) + (LOAD_R11 + ([0x4E, 0x8D, 0x1C, 0x1A] + ([0x49, 0x89, 0x0C, 0x83] + [0x59]))))
  {
    PushECX(i0);
    LoadECX(i1);
    LoadScratch(i2);
    LeaFold(i3);
    StoreRcxFolded(i4);
    PopECX(i5);
    EncodeSeq6(Mode64, i0, i1, i2, i3, i4, i5, [0x51], [0x48, 0xB9] + [0xEF, 0xCD, 0xAB, 0x89, 0x67, 0x45, 0x23, 0x01], LOAD_R11, [0x4E, 0x8D, 0x1C, 0x1A], [0x49, 0x89, 0x0C, 0x83], [0x59]);
  }

  /** MOV [rdx + rax*4 + BASE_ADDR], IMMED64: rax and rdx are taken, so rcx is the temporary. */
  lemma Immed64Address4Case()
    ensures var r := Mov(Fresh(Mode64), AddressLoc(RegPart(EDX), RegPart(EAX), 2, BASE_ADDR), ImmedLoc(IMMED64));
      r.Ok? && r.value.code == [0x51] + (([0x48, 0xB9] + [0xEF, 0xCD, 0xAB, 0x89, 0x67, 0x45, 0x23, 0x01]) + (LOAD_R11 + ([0x4E, 0x8D, 0x1C, 0x1A] + ([0x49, 0x89, 0x0C, 0x83] + [0x59]))))
  {
    Immed64Address4Plan();
    Immed64Address4Bytes(Push(ECX), MovRI(SizeWord, ECX, IMMED64), MovRI(SizeWord, SCRATCH, BASE_WORD), Lea(SCRATCH, BaseIndex(EDX, SCRATCH, 0, 0)), MovMR(SizeWord, BaseIndex(SCRATCH, EAX, 2, 0), ECX), Pop(ECX));
    BinaryEmits(Fresh(Mode64), MOV, SizeWord, AddressLoc(RegPart(EDX), RegPart(EAX), 2, BASE_ADDR), ImmedLoc(IMMED64), [Push(ECX), MovRI(SizeWord, ECX, IMMED64), MovRI(SizeWord, SCRATCH, BASE_WORD), Lea(SCRATCH, BaseIndex(EDX, SCRATCH, 0, 0)), MovMR(SizeWord, BaseIndex(SCRATCH, EAX, 2, 0), ECX), Pop(ECX)], CLOSED);
  }

  // ---------------------------------------------------------------- reuse session

  lemma ReuseFirstPlan()
    ensures Classify(Mode64, Heap(BASE_ADDR)) == OMem(J(BASE_WORD))
    ensures var p := SelectBinary(Mode64, BeginReuse(Fresh(Mode64)).session, MOV, SizeWord, OReg(ECX), OMem(J(BASE_WORD)));
      p.Ok? && p.value.instrs == [MovRI(SizeWord, SCRATCH, BASE_WORD), MovRM(SizeWord, ECX, BaseDisp(SCRATCH, 0))] &&
      p.value.session == Session(true, true, BASE_WORD)
  {
  }

  lemma ReuseSecondPlan()
    ensures Classify(Mode64, Heap(BASE_ADDR + 8)) == OMem(J(BASE_WORD + 8))
    ensures var p := SelectBinary(Mode64, Session(true, true, BASE_WORD), MOV, SizeWord, OReg(ECX), OMem(J(BASE_WORD + 8)));
      p.Ok? && p.value.instrs == [MovRM(SizeWord, ECX, BaseDisp(SCRATCH, 8))] && p.value.session == Session(true, true, BASE_WORD)
  {
  }

  lemma ReuseFirstBytes(i0: Instr, i1: Instr)
    requires i0 == MovRI(SizeWord, SCRATCH, BASE_WORD) && i1 == MovRM(SizeWord, ECX, BaseDisp(SCRATCH, 0))
    ensures EncodeAll(Mode64, [i0, i1]).Ok?
    ensures EncodeAll(Mode64, [i0, i1]).value == LOAD_R11 + [0x49, 0x8B, 0x0B]
  {
    LoadScratch(i0);
    MovRcxAbs(i1);
    EncodeSingle(Mode64, i1);
    EncodeCons(Mode64, i0, [i1]);
    assert [i0] + [i1] == [i0, i1];
  }

  /**
   * Two loads from BASE_ADDR and BASE_ADDR + 8 inside one reuse session: r11
   * is loaded once, and the second access is [r11 + 8].
   */
  lemma ReuseScratchCase()
    ensures var r1 := Mov(BeginReuse(Fresh(Mode64)), RegLoc(ECX), Heap(BASE_ADDR));
      r1.Ok? &&
      var r2 := Mov(r1.value, RegLoc(ECX), Heap(BASE_ADDR + 8));
      r2.Ok? && EndReuse(r2.value).code == LOAD_R11 + [0x49, 0x8B, 0x0B] + [0x49, 0x8B, 0x4B, 0x08]
  {
    var b0 := BeginReuse(Fresh(Mode64));
    ReuseFirstPlan();
    ReuseFirstBytes(MovRI(SizeWord, SCRATCH, BASE_WORD), MovRM(SizeWord, ECX, BaseDisp(SCRATCH, 0)));
    BinaryEmits(b0, MOV, SizeWord, RegLoc(ECX), Heap(BASE_ADDR), [MovRI(SizeWord, SCRATCH, BASE_WORD), MovRM(SizeWord, ECX, BaseDisp(SCRATCH, 0))], Session(true, true, BASE_WORD));
    var b1 := Mov(b0, RegLoc(ECX), Heap(BASE_ADDR)).value;
    assert b1.mode == Mode64 && b1.session == Session(true, true, BASE_WORD);
    ReuseSecondPlan();
    MovRcxAbs8(MovRM(SizeWord, ECX, BaseDisp(SCRATCH, 8)));
    EncodeSingle(Mode64, MovRM(SizeWord, ECX, BaseDisp(SCRATCH, 8)));
    BinaryEmits(b1, MOV, SizeWord, RegLoc(ECX), Heap(BASE_ADDR + 8), [MovRM(SizeWord, ECX, BaseDisp(SCRATCH, 8))], Session(true, true, BASE_WORD));
  }

  // ---------------------------------------------------------------- JMP wrap-around

  /** The two 32-bit addresses of the wrap-around example, 0x7FFFFF00 and 0x800000BB as a signed word. */
  const POS_ADDR: int := 0x7FFF_FF00
  const NEG_ADDR: int := -0x7FFF_FF45

  lemma JmpBytes(mode: Mode, off: int)
    requires Fits32(off)
    ensures Encode(mode, JmpRel(off)).Ok? && Encode(mode, JmpRel(off)).value == [0xE9] + LE(off, 4)
  {
  }

  /** A JMP from a "positive" to a "negative" 32-bit address takes the displacement modulo 2^32. */
  lemma JmpForwardWrapCase()
    ensures var r := Jmp(Builder(Mode32, POS_ADDR, [], CLOSED), ImmedLoc(NEG_ADDR));
      r.Ok? && r.value.code == [0xE9, 0xB6, 0x01, 0x00, 0x00]
  {
    var b := Builder(Mode32, POS_ADDR, [], CLOSED);
    assert JmpOffset(b, NEG_ADDR) == 0x1B6;
    JmpBytes(Mode32, 0x1B6);
    assert LE(0x1B6, 4) == [0xB6, 0x01, 0x00, 0x00];
  }

  /** A JMP from a "negative" to a "positive" 32-bit address: a backward displacement. */
  lemma JmpBackwardWrapCase()
    ensures var r := Jmp(Builder(Mode32, NEG_ADDR, [], CLOSED), ImmedLoc(POS_ADDR));
      r.Ok? && r.value.code == [0xE9, 0x40, 0xFE, 0xFF, 0xFF]
  {
    var b := Builder(Mode32, NEG_ADDR, [], CLOSED);
    assert JmpOffset(b, POS_ADDR) == -0x1C0;
    JmpBytes(Mode32, -0x1C0);
    assert LE(-0x1C0, 4) == [0x40, 0xFE, 0xFF, 0xFF];
  }
}

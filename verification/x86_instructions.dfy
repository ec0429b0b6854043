/**
 * Concrete machine instructions of the subset the location layer emits, and
 * their byte encodings: operand-size prefix, REX prefix, opcode, ModRM group,
 * immediate.  Each instruction either encodes completely or fails.
 */
module Instructions {
  import opened Bytes
  import opened Registers
  import opened Wrappers
  import opened Encoding

  const OPERAND_SIZE_PREFIX: byte := 0x66

  /** The REX prefix: present in 64-bit mode exactly when one of its four bits is needed. */
  function Rex(mode: Mode, w: bool, r: bool, x: bool, b: bool): (p: seq<byte>)
    ensures |p| <= 1
    ensures mode == Mode32 ==> p == []
  {
    if mode == Mode64 && (w || r || x || b) then
      [0x40 + (if w then 8 else 0) + (if r then 4 else 0) + (if x then 2 else 0) + (if b then 1 else 0)]
    else []
  }

  function SizePrefix(size: Size): seq<byte>
  {
    if size == Size16 then [OPERAND_SIZE_PREFIX] else []
  }

  /**
   * An instruction with a ModRM group: 66 (16-bit operands) first, then REX,
   * then the opcode, ModRM/SIB/displacement and the immediate bytes.  REX.W
   * is asked for by word-sized operands and dropped for 16-bit ones.
   */
  function EncodeOp(mode: Mode, size: Size, opcode: byte, reg: Reg, rm: Rm, imm: seq<byte>): Result<seq<byte>, EncodeError>
  {
    if !RegAllowed(mode, reg) || !RmValid(mode, rm) then Err(UnsupportedOperand)
    else
      var e := EncodeRm(mode, reg, rm);
      Ok(SizePrefix(size) + Rex(mode, size == SizeWord, Extended(reg), e.rexX, e.rexB) + [opcode] + e.bytes + imm)
  }

  /** An instruction whose register is added to the opcode byte (B8+r, 50+r, 58+r); REX.B extends it. */
  function EncodeOpReg(mode: Mode, size: Size, w: bool, opcode: byte, r: Reg, imm: seq<byte>): Result<seq<byte>, EncodeError>
    requires opcode % 8 == 0
  {
    if !RegAllowed(mode, r) then Err(UnsupportedOperand)
    else Ok(SizePrefix(size) + Rex(mode, w, false, false, Extended(r)) + [opcode + Low3(r)] + imm)
  }

  /** An "iw"/"id" immediate: two bytes for 16-bit operands, else four (sign-extended in 64-bit mode). */
  function ImmBytes(size: Size, v: int): (r: Result<seq<byte>, EncodeError>)
    ensures r.Ok? <==> (if size == Size16 then Fits16Bits(v) else Fits32(v))
    ensures r.Ok? ==> |r.value| == (if size == Size16 then 2 else 4)
  {
    if size == Size16 then (if Fits16Bits(v) then Ok(LE(v, 2)) else Err(ImmediateOutOfRange))
    else if Fits32(v) then Ok(LE(v, 4)) else Err(ImmediateOutOfRange)
  }

  /** The machine instructions the location layer produces. */
  datatype Instr =
    | MovRR(size: Size, dst: Reg, src: Reg)
    | MovRM(size: Size, dst: Reg, mem: MemOperand)
    | MovMR(size: Size, mem: MemOperand, src: Reg)
    | MovRI(size: Size, dst: Reg, imm: int)
    | MovMI(size: Size, mem: MemOperand, imm: int)
    | CmpRR(size: Size, a: Reg, b: Reg)
    | CmpRM(size: Size, a: Reg, mem: MemOperand)
    | CmpMR(size: Size, mem: MemOperand, b: Reg)
    | CmpRI(size: Size, a: Reg, imm: int)
    | CmpMI(size: Size, mem: MemOperand, imm: int)
    | Lea(dst: Reg, mem: MemOperand)
    | Push(reg: Reg)
    | Pop(reg: Reg)
    | JmpRel(offset: int)

  /** CMP r/m, imm: 83 /7 ib when the value fits a signed byte, else 81 /7 iw/id. */
  function EncodeCmpImm(mode: Mode, size: Size, rm: Rm, v: int): Result<seq<byte>, EncodeError>
  {
    if Fits8(v) then EncodeOp(mode, size, 0x83, 7, rm, LE(v, 1))
    else
      var imm :- ImmBytes(size, v);
      EncodeOp(mode, size, 0x81, 7, rm, imm)
  }

  /**
   * MOV r, imm: B8+r in 32-bit mode; in 64-bit mode C7 /0 with a sign-extended
   * 32-bit immediate when the value allows it, else REX.W B8+r with 8 bytes.
   */
  function EncodeMovImm(mode: Mode, size: Size, d: Reg, v: int): Result<seq<byte>, EncodeError>
  {
    if mode == Mode32 then
      var imm :- ImmBytes(size, v);
      EncodeOpReg(mode, size, false, 0xB8, d, imm)
    else if size == SizeWord && !Fits32(v) then
      if Fits64Bits(v) then EncodeOpReg(mode, size, true, 0xB8, d, LE(v, 8)) else Err(ImmediateOutOfRange)
    else
      var imm :- ImmBytes(size, v);
      EncodeOp(mode, size, 0xC7, 0, Direct(d), imm)
  }

  function Encode(mode: Mode, i: Instr): Result<seq<byte>, EncodeError>
  {
    match i
    case MovRR(size, d, s) => EncodeOp(mode, size, 0x89, s, Direct(d), [])
    case MovRM(size, d, m) => EncodeOp(mode, size, 0x8B, d, Memory(m), [])
    case MovMR(size, m, s) => EncodeOp(mode, size, 0x89, s, Memory(m), [])
    case MovRI(size, d, v) => EncodeMovImm(mode, size, d, v)
    case MovMI(size, m, v) =>
      var imm :- ImmBytes(size, v);
      EncodeOp(mode, size, 0xC7, 0, Memory(m), imm)
    case CmpRR(size, a, b) => EncodeOp(mode, size, 0x39, b, Direct(a), [])
    case CmpRM(size, a, m) => EncodeOp(mode, size, 0x3B, a, Memory(m), [])
    case CmpMR(size, m, b) => EncodeOp(mode, size, 0x39, b, Memory(m), [])
    case CmpRI(size, a, v) => EncodeCmpImm(mode, size, Direct(a), v)
    case CmpMI(size, m, v) => EncodeCmpImm(mode, size, Memory(m), v)
    case Lea(d, m) => EncodeOp(mode, SizeWord, 0x8D, d, Memory(m), [])
    case Push(r) => EncodeOpReg(mode, SizeWord, false, 0x50, r, [])
    case Pop(r) => EncodeOpReg(mode, SizeWord, false, 0x58, r, [])
    case JmpRel(off) => if Fits32(off) then Ok([0xE9] + LE(off, 4)) else Err(ImmediateOutOfRange)
  }

  /** The per-instruction encodings of a sequence, in order. */
  function EncodeEach(mode: Mode, ins: seq<Instr>): (rs: seq<Result<seq<byte>, EncodeError>>)
    ensures |rs| == |ins|
  {
    if |ins| == 0 then [] else [Encode(mode, ins[0])] + EncodeEach(mode, ins[1..])
  }

  /** Concatenates successful encodings; the first failure wins. */
  function Join(rs: seq<Result<seq<byte>, EncodeError>>): Result<seq<byte>, EncodeError>
  {
    if |rs| == 0 then Ok([])
    else
      match rs[0]
      case Err(e) => Err(e)
      case Ok(b) =>
        match Join(rs[1..])
        case Err(e) => Err(e)
        case Ok(rest) => Ok(b + rest)
  }

  /** Encodes a sequence of instructions back to back; fails as a whole if one fails. */
  function EncodeAll(mode: Mode, ins: seq<Instr>): Result<seq<byte>, EncodeError>
  {
    Join(EncodeEach(mode, ins))
  }

  lemma {:induction false} EncodeEachIndex(mode: Mode, ins: seq<Instr>)
    ensures forall k :: 0 <= k < |ins| ==> EncodeEach(mode, ins)[k] == Encode(mode, ins[k])
  {
    if |ins| > 0 {
      EncodeEachIndex(mode, ins[1..]);
      assert forall k :: 1 <= k < |ins| ==> ins[1..][k - 1] == ins[k];
    }
  }

  lemma {:induction false} EncodeEachAppend(mode: Mode, a: seq<Instr>, b: seq<Instr>)
    ensures EncodeEach(mode, a + b) == EncodeEach(mode, a) + EncodeEach(mode, b)
  {
    if |a| > 0 {
      assert (a + b)[0] == a[0];
      assert (a + b)[1..] == a[1..] + b;
      EncodeEachAppend(mode, a[1..], b);
    } else {
      assert a + b == b;
    }
  }

  lemma {:induction false} JoinOk(rs: seq<Result<seq<byte>, EncodeError>>)
    ensures Join(rs).Ok? <==> forall k :: 0 <= k < |rs| ==> rs[k].Ok?
  {
    if |rs| > 0 {
      JoinOk(rs[1..]);
      assert forall k :: 1 <= k < |rs| ==> rs[1..][k - 1] == rs[k];
    }
  }

  lemma {:induction false} JoinAppend(a: seq<Result<seq<byte>, EncodeError>>, b: seq<Result<seq<byte>, EncodeError>>)
    requires Join(a).Ok? && Join(b).Ok?
    ensures Join(a + b) == Ok(Join(a).value + Join(b).value)
  {
    if |a| > 0 {
      assert (a + b)[0] == a[0];
      assert (a + b)[1..] == a[1..] + b;
      assert a[0].Ok? && Join(a[1..]).Ok?;
      JoinAppend(a[1..], b);
      assert Join(a).value == a[0].value + Join(a[1..]).value;
      assert Join(a + b).value == a[0].value + Join(a[1..] + b).value;
      assert a[0].value + (Join(a[1..]).value + Join(b).value) == (a[0].value + Join(a[1..]).value) + Join(b).value;
    } else {
      assert a + b == b;
      assert Join(a).value + Join(b).value == Join(b).value;
    }
  }

  /** The sequence encodes exactly when every instruction in it does. */
  lemma EncodeAllOk(mode: Mode, ins: seq<Instr>)
    ensures EncodeAll(mode, ins).Ok? <==> forall k :: 0 <= k < |ins| ==> Encode(mode, ins[k]).Ok?
  {
    EncodeEachIndex(mode, ins);
    JoinOk(EncodeEach(mode, ins));
  }

  /** Encoding distributes over concatenation of instruction sequences. */
  lemma EncodeAllAppend(mode: Mode, a: seq<Instr>, b: seq<Instr>)
    requires EncodeAll(mode, a).Ok? && EncodeAll(mode, b).Ok?
    ensures EncodeAll(mode, a + b) == Ok(EncodeAll(mode, a).value + EncodeAll(mode, b).value)
  {
    EncodeEachAppend(mode, a, b);
    JoinAppend(EncodeEach(mode, a), EncodeEach(mode, b));
  }

  /** A one-instruction sequence encodes to that instruction's bytes. */
  lemma EncodeSingle(mode: Mode, i: Instr)
    requires Encode(mode, i).Ok?
    ensures EncodeAll(mode, [i]).Ok? && EncodeAll(mode, [i]).value == Encode(mode, i).value
  {
    var one := [Encode(mode, i)];
    assert EncodeEach(mode, [i]) == one;
    assert one[1..] == [];
    assert Join(one[1..]) == Ok([]);
    assert Encode(mode, i).value + [] == Encode(mode, i).value;
  }

  /** Encoding an instruction in front of a sequence puts its bytes in front. */
  lemma EncodeCons(mode: Mode, i: Instr, rest: seq<Instr>)
    requires Encode(mode, i).Ok? && EncodeAll(mode, rest).Ok?
    ensures EncodeAll(mode, [i] + rest).Ok?
    ensures EncodeAll(mode, [i] + rest).value == Encode(mode, i).value + EncodeAll(mode, rest).value
  {
    EncodeSingle(mode, i);
    EncodeAllAppend(mode, [i], rest);
  }

  // ---------------------------------------------------------------- decoding

  /** The fields of a ModRM-group instruction as read back from bytes. */
  datatype OpFields = OpFields(size: Size, rexW: bool, opcode: byte, reg: Reg, rm: Rm, imm: seq<byte>, length: nat)

  predicate IsRexByte(b: byte) { 0x40 <= b < 0x50 }

  /** What follows the prefixes: opcode, ModRM group, immLen immediate bytes. */
  datatype Body = Body(opcode: byte, reg: Reg, rm: Rm, imm: seq<byte>, length: nat)

  function DecodeBody(mode: Mode, rex: int, u: seq<byte>, immLen: nat): Option<Body>
  {
    if |u| == 0 then None
    else
      match DecodeRm(mode, (rex / 4) % 2 == 1, (rex / 2) % 2 == 1, rex % 2 == 1, u[1..])
      case None => None
      case Some((reg, rm, n)) =>
        if |u| < 1 + n + immLen then None
        else Some(Body(u[0], reg, rm, u[1 + n .. 1 + n + immLen], 1 + n + immLen))
  }

  /** The operand size, the REX bits (0 when absent) and the bytes after the prefixes. */
  datatype Prefixes = Prefixes(size: Size, rex: int, body: seq<byte>)

  /** Strips an optional 66, then an optional REX byte (64-bit mode only). */
  function ReadPrefixes(mode: Mode, s: seq<byte>): (p: Prefixes)
    ensures |p.body| <= |s|
  {
    var size := if |s| > 0 && s[0] == OPERAND_SIZE_PREFIX then Size16 else SizeWord;
    var t := if size == Size16 then s[1..] else s;
    var hasRex := mode == Mode64 && |t| > 0 && IsRexByte(t[0]);
    Prefixes(size, if hasRex then t[0] - 0x40 else 0, if hasRex then t[1..] else t)
  }

  /** Reads the prefixes, then the body. */
  function DecodeOp(mode: Mode, s: seq<byte>, immLen: nat): Option<OpFields>
  {
    var p := ReadPrefixes(mode, s);
    match DecodeBody(mode, p.rex, p.body, immLen)
    case None => None
    case Some(b) => Some(OpFields(p.size, p.rex / 8 == 1, b.opcode, b.reg, b.rm, b.imm, |s| - |p.body| + b.length))
  }

  lemma RexFields(w: bool, r: bool, x: bool, b: bool)
    ensures var v := (if w then 8 else 0) + (if r then 4 else 0) + (if x then 2 else 0) + (if b then 1 else 0);
      v / 8 == (if w then 1 else 0) && ((v / 4) % 2 == 1 <==> r) && ((v / 2) % 2 == 1 <==> x) && (v % 2 == 1 <==> b)
  {
  }

  /** The body reads back once its ModRM group does. */
  lemma BodyRoundTrip(mode: Mode, rex: int, opcode: byte, e: RmBytes, reg: Reg, rm: Rm, imm: seq<byte>, rest: seq<byte>)
    requires DecodeRm(mode, (rex / 4) % 2 == 1, (rex / 2) % 2 == 1, rex % 2 == 1, e.bytes + (imm + rest))
          == Some((reg, rm, |e.bytes|))
    ensures DecodeBody(mode, rex, [opcode] + e.bytes + imm + rest, |imm|)
         == Some(Body(opcode, reg, rm, imm, 1 + |e.bytes| + |imm|))
  {
    var u := [opcode] + e.bytes + imm + rest;
    assert u[1..] == e.bytes + (imm + rest);
    assert u[1 + |e.bytes| .. 1 + |e.bytes| + |imm|] == imm;
  }

  /** The prefixes EncodeOp writes are the ones ReadPrefixes strips. */
  lemma ReadPrefixesOf(mode: Mode, size: Size, rexp: seq<byte>, rexv: int, body: seq<byte>)
    requires |body| > 0 && body[0] != OPERAND_SIZE_PREFIX && !IsRexByte(body[0])
    requires |rexp| <= 1
    requires |rexp| == 1 ==> mode == Mode64 && rexp[0] == 0x40 + rexv && 0 <= rexv < 16
    requires |rexp| == 0 ==> rexv == 0
    ensures ReadPrefixes(mode, SizePrefix(size) + rexp + body) == Prefixes(size, rexv, body)
  {
    var s := SizePrefix(size) + rexp + body;
    var t := rexp + body;
    if size == Size16 {
      assert s[0] == OPERAND_SIZE_PREFIX && s[1..] == t;
    } else {
      assert s == t;
      assert s[0] != OPERAND_SIZE_PREFIX;
    }
    if |rexp| == 1 {
      assert t[0] == rexp[0] && t[1..] == body;
    } else {
      assert t == body;
    }
  }

  /** Once the prefixes are stripped as written, the operation reads back as its body does. */
  lemma OpRoundTripCore(mode: Mode, size: Size, rexp: seq<byte>, rexv: int, body: seq<byte>, n: nat, b: Body, s: seq<byte>)
    requires |body| > 0 && body[0] != OPERAND_SIZE_PREFIX && !IsRexByte(body[0])
    requires |rexp| <= 1
    requires |rexp| == 1 ==> mode == Mode64 && rexp[0] == 0x40 + rexv && 0 <= rexv < 16
    requires |rexp| == 0 ==> rexv == 0
    requires DecodeBody(mode, rexv, body, n) == Some(b)
    requires s == SizePrefix(size) + rexp + body
    ensures DecodeOp(mode, s, n)
         == Some(OpFields(size, rexv / 8 == 1, b.opcode, b.reg, b.rm, b.imm, |SizePrefix(size)| + |rexp| + b.length))
  {
    ReadPrefixesOf(mode, size, rexp, rexv, body);
  }

  lemma Regroup<T>(p: seq<T>, x: seq<T>, o: seq<T>, m: seq<T>, i: seq<T>, rest: seq<T>)
    ensures (p + x + o + m + i) + rest == p + x + (o + m + i + rest)
    ensures |p + x + o + m + i| == |p| + |x| + |o| + |m| + |i|
  {
  }

  /**
   * Decoding what EncodeOp produced recovers the operand size, the REX.W bit
   * (set exactly for word-sized operands in 64-bit mode), opcode, register
   * field, operand and immediate.
   */
  lemma EncodeOpRoundTrip(mode: Mode, size: Size, opcode: byte, reg: Reg, rm: Rm, imm: seq<byte>, rest: seq<byte>)
    requires opcode != OPERAND_SIZE_PREFIX && !IsRexByte(opcode)
    requires EncodeOp(mode, size, opcode, reg, rm, imm).Ok?
    ensures var bytes := EncodeOp(mode, size, opcode, reg, rm, imm).value;
      DecodeOp(mode, bytes + rest, |imm|)
        == Some(OpFields(size, mode == Mode64 && size == SizeWord, opcode, reg, rm, imm, |bytes|))
  {
    assert RegAllowed(mode, reg) && RmValid(mode, rm);
    var e := EncodeRm(mode, reg, rm);
    var w := mode == Mode64 && size == SizeWord;
    var rexv := Bit8(w) + (if Extended(reg) then 4 else 0) + (if e.rexX then 2 else 0) + (if e.rexB then 1 else 0);
    var rexp := Rex(mode, size == SizeWord, Extended(reg), e.rexX, e.rexB);
    var bytes := EncodeOp(mode, size, opcode, reg, rm, imm).value;
    var body := [opcode] + e.bytes + imm + rest;
    RexFields(w, Extended(reg), e.rexX, e.rexB);
    if |rexp| == 1 {
      assert rexp[0] == 0x40 + rexv;
    } else {
      assert rexv == 0;
    }
    EncodeRmRoundTrip(mode, reg, rm, imm + rest);
    BodyRoundTrip(mode, rexv, opcode, e, reg, rm, imm, rest);
    assert bytes == SizePrefix(size) + rexp + [opcode] + e.bytes + imm;
    Regroup(SizePrefix(size), rexp, [opcode], e.bytes, imm, rest);
    assert (rexv / 8 == 1) == w;
    assert |SizePrefix(size)| + |rexp| + (1 + |e.bytes| + |imm|) == |bytes|;
    var bd := Body(opcode, reg, rm, imm, 1 + |e.bytes| + |imm|);
    OpRoundTripCore(mode, size, rexp, rexv, body, |imm|, bd, bytes + rest);
    var got := DecodeOp(mode, bytes + rest, |imm|).value;
    assert got.size == size && got.rexW == w && got.opcode == opcode && got.reg == reg;
    assert got.rm == rm && got.imm == imm && got.length == |bytes|;
  }

  /** In 16-bit form the 66 prefix comes first and any REX prefix right after it, never with W. */
  lemma PrefixOrder(mode: Mode, opcode: byte, reg: Reg, rm: Rm, imm: seq<byte>)
    requires !IsRexByte(opcode)
    requires EncodeOp(mode, Size16, opcode, reg, rm, imm).Ok?
    ensures var bytes := EncodeOp(mode, Size16, opcode, reg, rm, imm).value;
      bytes[0] == OPERAND_SIZE_PREFIX
      && (mode == Mode64 && (Extended(reg) || EncodeRm(mode, reg, rm).rexX || EncodeRm(mode, reg, rm).rexB)
          <==> IsRexByte(bytes[1]))
      && (IsRexByte(bytes[1]) ==> bytes[1] < 0x48)
  {
    var e := EncodeRm(mode, reg, rm);
    var rexp := Rex(mode, false, Extended(reg), e.rexX, e.rexB);
    var bytes := [OPERAND_SIZE_PREFIX] + rexp + [opcode] + e.bytes + imm;
    assert EncodeOp(mode, Size16, opcode, reg, rm, imm).value == bytes;
    if |rexp| == 1 {
      assert bytes[1] == rexp[0];
    } else {
      assert bytes[1] == opcode;
    }
  }

  /** Register-to-register MOV16 and CMP16 of legacy registers: 66, opcode, ModRM 11|src|dst, the same in both modes. */
  lemma Reg16Form(mode: Mode, d: Reg, s: Reg)
    requires d < 8 && s < 8
    ensures Encode(mode, MovRR(Size16, d, s)) == Ok([0x66, 0x89, 0xC0 + 8 * s + d])
    ensures Encode(mode, CmpRR(Size16, d, s)) == Ok([0x66, 0x39, 0xC0 + 8 * s + d])
  {
    assert Pack(3, s, d) == 0xC0 + 8 * s + d;
    assert EncodeRm(mode, s, Direct(d)).bytes == [0xC0 + 8 * s + d];
    assert Rex(mode, false, false, false, false) == [];
    assert RegAllowed(mode, s) && RmValid(mode, Direct(d));
    var x := EncodeOp(mode, Size16, 0x89, s, Direct(d), []);
    assert x.value == [0x66] + [] + [0x89] + [0xC0 + 8 * s + d] + [];
    assert x.value == [0x66, 0x89, 0xC0 + 8 * s + d];
    var y := EncodeOp(mode, Size16, 0x39, s, Direct(d), []);
    assert y.value == [0x66] + [] + [0x39] + [0xC0 + 8 * s + d] + [];
    assert y.value == [0x66, 0x39, 0xC0 + 8 * s + d];
  }

  /**
   * MOV16 of an immediate sends it as two little-endian bytes: B8+r in 32-bit
   * mode, C7 /0 in 64-bit mode.
   */
  lemma Mov16ImmForms(d: Reg, v: int)
    requires d < 8 && Fits16Bits(v)
    ensures Encode(Mode32, MovRI(Size16, d, v)) == Ok([0x66, 0xB8 + d] + LE(v, 2))
    ensures Encode(Mode64, MovRI(Size16, d, v)) == Ok([0x66, 0xC7, 0xC0 + d] + LE(v, 2))
  {
    var imm := LE(v, 2);
    assert ImmBytes(Size16, v) == Ok(imm);
    assert Low3(d) == d;
    assert Pack(3, 0, d) == 0xC0 + d;
    assert EncodeRm(Mode64, 0, Direct(d)).bytes == [0xC0 + d];
    assert Rex(Mode64, false, false, false, false) == [];
    assert Rex(Mode32, false, false, false, false) == [];
    assert RmValid(Mode64, Direct(d));
    assert EncodeOpReg(Mode32, Size16, false, 0xB8, d, imm).value == [0x66] + [] + [0xB8 + d] + imm;
    assert EncodeOpReg(Mode32, Size16, false, 0xB8, d, imm).value == [0x66, 0xB8 + d] + imm;
    assert EncodeOp(Mode64, Size16, 0xC7, 0, Direct(d), imm).value == [0x66] + [] + [0xC7] + [0xC0 + d] + imm;
    assert EncodeOp(Mode64, Size16, 0xC7, 0, Direct(d), imm).value == [0x66, 0xC7, 0xC0 + d] + imm;
  }

  /** CMP16 with a value outside a signed byte: 66 81 /7 and two little-endian bytes, the same in both modes. */
  lemma Cmp16WideForm(mode: Mode, d: Reg, v: int)
    requires d < 8 && Fits16Bits(v) && !Fits8(v)
    ensures Encode(mode, CmpRI(Size16, d, v)) == Ok([0x66, 0x81, 0xF8 + d] + LE(v, 2))
  {
    var imm := LE(v, 2);
    assert ImmBytes(Size16, v) == Ok(imm);
    assert Low3(d) == d;
    assert Pack(3, 7, d) == 0xF8 + d;
    assert EncodeRm(mode, 7, Direct(d)).bytes == [0xF8 + d];
    assert Rex(mode, false, false, false, false) == [];
    assert RmValid(mode, Direct(d));
    assert EncodeOp(mode, Size16, 0x81, 7, Direct(d), imm).value == [0x66] + [] + [0x81] + [0xF8 + d] + imm;
    assert EncodeOp(mode, Size16, 0x81, 7, Direct(d), imm).value == [0x66, 0x81, 0xF8 + d] + imm;
  }

  /** CMP16 with a value that fits a signed byte takes the short form 66 83 /7 ib in both modes. */
  lemma Cmp16ByteForm(mode: Mode, d: Reg, v: int)
    requires d < 8 && Fits8(v)
    ensures Encode(mode, CmpRI(Size16, d, v)) == Ok([0x66, 0x83, 0xF8 + d] + LE(v, 1))
  {
    var imm := LE(v, 1);
    assert Low3(d) == d;
    assert Pack(3, 7, d) == 0xF8 + d;
    assert EncodeRm(mode, 7, Direct(d)).bytes == [0xF8 + d];
    assert Rex(mode, false, false, false, false) == [];
    assert RmValid(mode, Direct(d));
    assert EncodeOp(mode, Size16, 0x83, 7, Direct(d), imm).value == [0x66] + [] + [0x83] + [0xF8 + d] + imm;
    assert EncodeOp(mode, Size16, 0x83, 7, Direct(d), imm).value == [0x66, 0x83, 0xF8 + d] + imm;
  }

  /** A 64-bit MOV of an immediate that needs all 64 bits is REX.W B8+r with 8 little-endian bytes. */
  lemma MovImm64Form(d: Reg, v: int)
    requires Fits64Bits(v) && !Fits32(v)
    ensures Encode(Mode64, MovRI(SizeWord, d, v))
         == Ok([0x48 + (if Extended(d) then 1 else 0), 0xB8 + Low3(d)] + LE(v, 8))
  {
    var rex := [0x48 + (if Extended(d) then 1 else 0)];
    assert Rex(Mode64, true, false, false, Extended(d)) == rex;
    assert EncodeOpReg(Mode64, SizeWord, true, 0xB8, d, LE(v, 8)).value == [] + rex + [0xB8 + Low3(d)] + LE(v, 8);
    assert [] + rex + [0xB8 + Low3(d)] == [0x48 + (if Extended(d) then 1 else 0), 0xB8 + Low3(d)];
  }

  /**
   * MOV of a 32-bit immediate to a word in memory is REX, C7, the ModRM group
   * with /0, and four little-endian immediate bytes (no 66 prefix).
   */
  lemma MovMIWordForm(mode: Mode, m: MemOperand, v: int, e: RmBytes, head: seq<byte>)
    requires RmValid(mode, Memory(m)) && Fits32(v)
    requires e == EncodeRm(mode, 0, Memory(m)) && head == Rex(mode, true, false, e.rexX, e.rexB) + [0xC7] + e.bytes
    ensures Encode(mode, MovMI(SizeWord, m, v)).Ok?
    ensures Encode(mode, MovMI(SizeWord, m, v)).value == head + LE(v, 4)
  {
    var imm := LE(v, 4);
    var rex := Rex(mode, true, false, e.rexX, e.rexB);
    MovMIOp(mode, m, v, imm);
    OpWordForm(mode, 0xC7, 0, Memory(m), imm, rex, e);
    var r := Encode(mode, MovMI(SizeWord, m, v));
    assert r == EncodeOp(mode, SizeWord, 0xC7, 0, Memory(m), imm);
    assert r.value == rex + [0xC7] + e.bytes + imm;
  }

  /** With a 32-bit immediate, MOV to word memory is the C7 /0 ModRM instruction with four immediate bytes. */
  lemma MovMIOp(mode: Mode, m: MemOperand, v: int, imm: seq<byte>)
    requires Fits32(v) && imm == LE(v, 4)
    ensures Encode(mode, MovMI(SizeWord, m, v)) == EncodeOp(mode, SizeWord, 0xC7, 0, Memory(m), imm)
  {
    var r := ImmBytes(SizeWord, v);
    assert r.Ok? && r.value == imm;
  }

  /** A word-sized ModRM instruction has no 66 prefix: REX (if any), the opcode, the ModRM bytes, the immediate. */
  lemma OpWordForm(mode: Mode, opcode: byte, reg: Reg, rm: Rm, imm: seq<byte>, rex: seq<byte>, e: RmBytes)
    requires RmValid(mode, rm) && RegAllowed(mode, reg)
    requires e == EncodeRm(mode, reg, rm) && rex == Rex(mode, true, Extended(reg), e.rexX, e.rexB)
    ensures EncodeOp(mode, SizeWord, opcode, reg, rm, imm).Ok?
    ensures EncodeOp(mode, SizeWord, opcode, reg, rm, imm).value == rex + [opcode] + e.bytes + imm
  {
    var p := SizePrefix(SizeWord);
    assert p == [];
    assert p + rex == rex;
    assert EncodeOp(mode, SizeWord, opcode, reg, rm, imm).value == p + rex + [opcode] + e.bytes + imm;
  }

  /** Nothing with an extended register, and no REX prefix at all, exists in 32-bit mode. */
  lemma NoRexIn32(opcode: byte, size: Size, reg: Reg, rm: Rm, imm: seq<byte>)
    ensures var r := EncodeOp(Mode32, size, opcode, reg, rm, imm);
      r.Ok? ==> r.value == SizePrefix(size) + [opcode] + EncodeRm(Mode32, reg, rm).bytes + imm
    ensures reg >= 8 ==> EncodeOp(Mode32, size, opcode, reg, rm, imm) == Err(UnsupportedOperand)
  {
    if RegAllowed(Mode32, reg) && RmValid(Mode32, rm) {
      var e := EncodeRm(Mode32, reg, rm);
      assert !e.rexX && !e.rexB && !Extended(reg);
      assert Rex(Mode32, size == SizeWord, false, false, false) == [];
      assert SizePrefix(size) + [] == SizePrefix(size);
    }
  }
}

/**
 * The primitive opcode emitter: ModRM, SIB, displacement and REX construction
 * following sections 2.1 and 2.2.1 of the Intel 64 and IA-32 Architectures
 * Software Developer's Manual, Volume 2A, together with a decoder for the same
 * forms that serves as the encoder's inverse.
 */
module Encoding {
  import opened Bytes
  import opened Registers
  import opened Wrappers

  /** A memory operand in one of the canonical forms the encoder can emit directly. */
  datatype MemOperand =
    | Absolute(addr: int)                                   // [disp32]
    | BaseDisp(base: Reg, disp: int)                        // [base + disp]
    | BaseIndex(base: Reg, index: Reg, scale: Scale, disp: int) // [base + index*2^scale + disp]
    | IndexOnly(index: Reg, scale: Scale, disp: int)        // [index*2^scale + disp32]

  /** The r/m operand of a ModRM instruction: a register or memory. */
  datatype Rm = Direct(reg: Reg) | Memory(mem: MemOperand)

  /** ESP can never be an index: SIB index field 100 without REX.X means "no index". */
  predicate IndexAllowed(mode: Mode, i: Reg)
  {
    RegAllowed(mode, i) && i != ESP
  }

  /** The operands that have an encoding: registers exist in the mode, displacements fit in 32 bits. */
  predicate RmValid(mode: Mode, rm: Rm)
  {
    match rm
    case Direct(r) => RegAllowed(mode, r)
    case Memory(m) =>
      match m
      case Absolute(a) => Fits32(a)
      case BaseDisp(b, d) => RegAllowed(mode, b) && Fits32(d)
      case BaseIndex(b, i, _, d) => RegAllowed(mode, b) && IndexAllowed(mode, i) && Fits32(d)
      case IndexOnly(i, _, d) => IndexAllowed(mode, i) && Fits32(d)
  }

  /** A ModRM or SIB byte from its three fields. */
  function Pack(hi: int, mid: int, lo: int): byte
    requires 0 <= hi < 4 && 0 <= mid < 8 && 0 <= lo < 8
  {
    hi * 64 + mid * 8 + lo
  }

  lemma PackFields(hi: int, mid: int, lo: int)
    requires 0 <= hi < 4 && 0 <= mid < 8 && 0 <= lo < 8
    ensures Pack(hi, mid, lo) / 64 == hi
    ensures (Pack(hi, mid, lo) / 8) % 8 == mid
    ensures Pack(hi, mid, lo) % 8 == lo
  {
    var p := Pack(hi, mid, lo);
    ModUnique(p, 64, hi, mid * 8 + lo);
    ModUnique(p, 8, hi * 8 + mid, lo);
    ModUnique(hi * 8 + mid, 8, hi, mid);
  }

  /** The mod field and displacement bytes for a based address. */
  datatype DispChoice = DispChoice(md: int, bytes: seq<byte>)

  /**
   * No displacement when it is zero, unless the base's low bits are 101 (EBP,
   * R13), where mod=00 means "no base"; else disp8 when it fits; else disp32.
   */
  function ChooseDisp(base: Reg, disp: int): (c: DispChoice)
    requires Fits32(disp)
    ensures 0 <= c.md < 3
    ensures c.md == 0 <==> disp == 0 && Low3(base) != 5
    ensures c.md == 1 <==> (disp != 0 || Low3(base) == 5) && Fits8(disp)
    ensures |c.bytes| == [0, 1, 4][c.md]
  {
    if disp == 0 && Low3(base) != 5 then DispChoice(0, [])
    else if Fits8(disp) then DispChoice(1, LE(disp, 1))
    else DispChoice(2, LE(disp, 4))
  }

  /** The ModRM-and-after bytes plus the REX.X and REX.B bits they need. */
  datatype RmBytes = RmBytes(rexX: bool, rexB: bool, bytes: seq<byte>)

  function EncodeRm(mode: Mode, reg: Reg, rm: Rm): (e: RmBytes)
    requires RmValid(mode, rm)
    ensures |e.bytes| >= 1
    ensures mode == Mode32 ==> !e.rexX && !e.rexB
  {
    var r := Low3(reg);
    match rm
    case Direct(x) =>
      RmBytes(false, Extended(x), [Pack(3, r, Low3(x))])
    case Memory(m) =>
      match m
      case Absolute(a) =>
        if mode == Mode32 then RmBytes(false, false, [Pack(0, r, 5)] + LE(a, 4))
        // in 64-bit mode mod=00 rm=101 is RIP-relative: go through a SIB with no base and no index
        else RmBytes(false, false, [Pack(0, r, 4), Pack(0, 4, 5)] + LE(a, 4))
      case BaseDisp(b, d) =>
        var c := ChooseDisp(b, d);
        if Low3(b) == 4 then RmBytes(false, Extended(b), [Pack(c.md, r, 4), Pack(0, 4, 4)] + c.bytes)
        else RmBytes(false, Extended(b), [Pack(c.md, r, Low3(b))] + c.bytes)
      case BaseIndex(b, i, s, d) =>
        var c := ChooseDisp(b, d);
        RmBytes(Extended(i), Extended(b), [Pack(c.md, r, 4), Pack(s, Low3(i), Low3(b))] + c.bytes)
      case IndexOnly(i, s, d) =>
        RmBytes(Extended(i), false, [Pack(0, r, 4), Pack(s, Low3(i), 5)] + LE(d, 4))
  }

  // ---------------------------------------------------------------- decoding

  /** A displacement read back from the bytes after ModRM (and SIB), with the bytes it used. */
  function DecodeDisp(md: int, s: seq<byte>): Option<(int, nat)>
  {
    if md == 0 then Some((0, 0))
    else if md == 1 then (if |s| < 1 then None else Some((Signed(s[0], 1), 1)))
    else if |s| < 4 then None else Some((Signed(FromLE(s[..4]), 4), 4))
  }

  function Bit8(b: bool): int { if b then 8 else 0 }

  /**
   * Reads a ModRM (and SIB, displacement) back into the register field and
   * the operand, given the REX bits; also returns how many bytes it used.
   */
  function DecodeRm(mode: Mode, rexR: bool, rexX: bool, rexB: bool, s: seq<byte>): Option<(Reg, Rm, nat)>
  {
    if |s| == 0 then None
    else
      var md := s[0] / 64;
      var reg: Reg := (s[0] / 8) % 8 + Bit8(rexR);
      var rmf := s[0] % 8;
      if md == 3 then Some((reg, Direct(rmf + Bit8(rexB)), 1))
      else if rmf == 4 then DecodeSib(md, reg, rexX, rexB, s)
      else if md == 0 && rmf == 5 then
        // RIP-relative in 64-bit mode, which the builder never emits
        if mode == Mode64 || |s| < 5 then None
        else Some((reg, Memory(Absolute(Signed(FromLE(s[1..5]), 4))), 5))
      else
        match DecodeDisp(md, s[1..])
        case None => None
        case Some((d, n)) => Some((reg, Memory(BaseDisp(rmf + Bit8(rexB), d)), 1 + n))
  }

  /** The memory forms whose ModRM says "a SIB byte follows" (s[0] is the ModRM byte). */
  function DecodeSib(md: int, reg: Reg, rexX: bool, rexB: bool, s: seq<byte>): Option<(Reg, Rm, nat)>
    requires |s| >= 1
  {
    if |s| < 2 then None
    else
      var ss: Scale := s[1] / 64;
      var idx: Reg := (s[1] / 8) % 8 + Bit8(rexX);
      var bf := s[1] % 8;
      if md == 0 && bf == 5 then
        if |s| < 6 then None
        else
          var d := Signed(FromLE(s[2..6]), 4);
          if idx == 4 then Some((reg, Memory(Absolute(d)), 6))
          else Some((reg, Memory(IndexOnly(idx, ss, d)), 6))
      else
        var base: Reg := bf + Bit8(rexB);
        match DecodeDisp(md, s[2..])
        case None => None
        case Some((d, n)) =>
          if idx == 4 then Some((reg, Memory(BaseDisp(base, d)), 2 + n))
          else Some((reg, Memory(BaseIndex(base, idx, ss, d)), 2 + n))
  }

  lemma Disp8RoundTrip(d: int, rest: seq<byte>)
    requires Fits8(d)
    ensures DecodeDisp(1, LE(d, 1) + rest) == Some((d, 1))
  {
    Pow256Values();
    SignedRoundTrip(d, 1);
    assert FromLE(LE(d, 1)) == (LE(d, 1) + rest)[0];
  }

  lemma Disp32RoundTrip(d: int, rest: seq<byte>)
    requires Fits32(d)
    ensures DecodeDisp(2, LE(d, 4) + rest) == Some((d, 4))
  {
    Pow256Values();
    SignedRoundTrip(d, 4);
    assert (LE(d, 4) + rest)[..4] == LE(d, 4);
  }

  lemma ChosenDispRoundTrip(b: Reg, d: int, rest: seq<byte>)
    requires Fits32(d)
    ensures DecodeDisp(ChooseDisp(b, d).md, ChooseDisp(b, d).bytes + rest)
         == Some((d, |ChooseDisp(b, d).bytes|))
  {
    var c := ChooseDisp(b, d);
    if c.md == 1 {
      Disp8RoundTrip(d, rest);
    } else if c.md == 2 {
      Disp32RoundTrip(d, rest);
    }
  }

  /** Decoding what EncodeRm produced gives back the register field and the operand. */
  lemma EncodeRmRoundTrip(mode: Mode, reg: Reg, rm: Rm, rest: seq<byte>)
    requires RmValid(mode, rm)
    ensures var e := EncodeRm(mode, reg, rm);
      DecodeRm(mode, Extended(reg), e.rexX, e.rexB, e.bytes + rest) == Some((reg, rm, |e.bytes|))
  {
    match rm
    case Direct(x) => DirectRoundTrip(mode, reg, x, rest);
    case Memory(m) =>
      match m
      case Absolute(a) => AbsoluteRoundTrip(mode, reg, a, rest);
      case BaseDisp(b, d) => BaseDispRoundTrip(mode, reg, b, d, rest);
      case BaseIndex(b, i, sc, d) => BaseIndexRoundTrip(mode, reg, b, i, sc, d, rest);
      case IndexOnly(i, sc, d) => IndexOnlyRoundTrip(mode, reg, i, sc, d, rest);
  }

  lemma DirectRoundTrip(mode: Mode, reg: Reg, x: Reg, rest: seq<byte>)
    requires RegAllowed(mode, x)
    ensures var e := EncodeRm(mode, reg, Direct(x));
      DecodeRm(mode, Extended(reg), e.rexX, e.rexB, e.bytes + rest) == Some((reg, Direct(x), 1))
  {
    RegSplit(reg);
    RegSplit(x);
    PackFields(3, Low3(reg), Low3(x));
  }

  /** Decoding a ModRM byte with a base in r/m (no SIB) and the displacement after it. */
  lemma DecodePlainBase(mode: Mode, rexR: bool, rexX: bool, rexB: bool, s: seq<byte>, md: int, r3: int, b3: int, d: int, n: nat)
    requires 0 <= md < 3 && 0 <= r3 < 8 && 0 <= b3 < 8 && b3 != 4 && !(md == 0 && b3 == 5)
    requires |s| >= 1 && s[0] / 64 == md && (s[0] / 8) % 8 == r3 && s[0] % 8 == b3
    requires DecodeDisp(md, s[1..]) == Some((d, n))
    ensures DecodeRm(mode, rexR, rexX, rexB, s) == Some((r3 + Bit8(rexR), Memory(BaseDisp(b3 + Bit8(rexB), d)), 1 + n))
  {
  }

  /** Decoding a ModRM byte that escapes to a SIB byte with a base, and the displacement after them. */
  lemma DecodeSibBase(mode: Mode, rexR: bool, rexX: bool, rexB: bool, s: seq<byte>, md: int, r3: int, sc: Scale, i3: int, b3: int, d: int, n: nat)
    requires 0 <= md < 3 && 0 <= r3 < 8 && 0 <= i3 < 8 && 0 <= b3 < 8 && !(md == 0 && b3 == 5)
    requires |s| >= 2 && s[0] / 64 == md && (s[0] / 8) % 8 == r3 && s[0] % 8 == 4
    requires s[1] / 64 == sc && (s[1] / 8) % 8 == i3 && s[1] % 8 == b3
    requires DecodeDisp(md, s[2..]) == Some((d, n))
    ensures var base := b3 + Bit8(rexB);
      var idx := i3 + Bit8(rexX);
      DecodeRm(mode, rexR, rexX, rexB, s)
        == Some((r3 + Bit8(rexR), Memory(if idx == 4 then BaseDisp(base, d) else BaseIndex(base, idx, sc, d)), 2 + n))
  {
    assert DecodeRm(mode, rexR, rexX, rexB, s) == DecodeSib(md, r3 + Bit8(rexR), rexX, rexB, s);
  }

  /** Decoding a ModRM byte that escapes to a SIB byte with no base: a disp32 follows. */
  lemma DecodeSibNoBase(mode: Mode, rexR: bool, rexX: bool, rexB: bool, s: seq<byte>, r3: int, sc: Scale, i3: int)
    requires 0 <= r3 < 8 && 0 <= i3 < 8
    requires |s| >= 6 && s[0] / 64 == 0 && (s[0] / 8) % 8 == r3 && s[0] % 8 == 4
    requires s[1] / 64 == sc && (s[1] / 8) % 8 == i3 && s[1] % 8 == 5
    ensures var idx := i3 + Bit8(rexX);
      var d := Signed(FromLE(s[2..6]), 4);
      DecodeRm(mode, rexR, rexX, rexB, s)
        == Some((r3 + Bit8(rexR), Memory(if idx == 4 then Absolute(d) else IndexOnly(idx, sc, d)), 6))
  {
    assert DecodeRm(mode, rexR, rexX, rexB, s) == DecodeSib(0, r3 + Bit8(rexR), rexX, rexB, s);
  }

  lemma AbsoluteRoundTrip(mode: Mode, reg: Reg, a: int, rest: seq<byte>)
    requires Fits32(a)
    ensures var e := EncodeRm(mode, reg, Memory(Absolute(a)));
      DecodeRm(mode, Extended(reg), e.rexX, e.rexB, e.bytes + rest) == Some((reg, Memory(Absolute(a)), |e.bytes|))
  {
    var e := EncodeRm(mode, reg, Memory(Absolute(a)));
    var s := e.bytes + rest;
    var r := Low3(reg);
    RegSplit(reg);
    Pow256Values();
    SignedRoundTrip(a, 4);
    if mode == Mode32 {
      PackFields(0, r, 5);
      assert s[1..5] == LE(a, 4);
      assert s[0] / 64 == 0 && s[0] % 8 == 5;
    } else {
      PackFields(0, r, 4);
      PackFields(0, 4, 5);
      assert s[2..6] == LE(a, 4);
      DecodeSibNoBase(mode, Extended(reg), false, false, s, r, 0, 4);
    }
  }

  lemma BaseDispRoundTrip(mode: Mode, reg: Reg, b: Reg, d: int, rest: seq<byte>)
    requires RegAllowed(mode, b) && Fits32(d)
    ensures var e := EncodeRm(mode, reg, Memory(BaseDisp(b, d)));
      DecodeRm(mode, Extended(reg), e.rexX, e.rexB, e.bytes + rest) == Some((reg, Memory(BaseDisp(b, d)), |e.bytes|))
  {
    if Low3(b) == 4 {
      StackLikeBaseRoundTrip(mode, reg, b, d, rest);
    } else {
      PlainBaseRoundTrip(mode, reg, b, d, rest);
    }
  }

  /** ESP and R12 as a base need the SIB escape 0x24. */
  lemma StackLikeBaseRoundTrip(mode: Mode, reg: Reg, b: Reg, d: int, rest: seq<byte>)
    requires RegAllowed(mode, b) && Fits32(d) && Low3(b) == 4
    ensures var e := EncodeRm(mode, reg, Memory(BaseDisp(b, d)));
      DecodeRm(mode, Extended(reg), e.rexX, e.rexB, e.bytes + rest) == Some((reg, Memory(BaseDisp(b, d)), |e.bytes|))
  {
    var e := EncodeRm(mode, reg, Memory(BaseDisp(b, d)));
    var s := e.bytes + rest;
    RegSplit(reg);
    RegSplit(b);
    var c := ChooseDisp(b, d);
    ChosenDispRoundTrip(b, d, rest);
    assert e.bytes == [Pack(c.md, Low3(reg), 4), Pack(0, 4, 4)] + c.bytes;
    assert s[2..] == c.bytes + rest;
    PackFields(c.md, Low3(reg), 4);
    PackFields(0, 4, 4);
    DecodeSibBase(mode, Extended(reg), false, Extended(b), s, c.md, Low3(reg), 0, 4, 4, d, |c.bytes|);
  }

  lemma PlainBaseRoundTrip(mode: Mode, reg: Reg, b: Reg, d: int, rest: seq<byte>)
    requires RegAllowed(mode, b) && Fits32(d) && Low3(b) != 4
    ensures var e := EncodeRm(mode, reg, Memory(BaseDisp(b, d)));
      DecodeRm(mode, Extended(reg), e.rexX, e.rexB, e.bytes + rest) == Some((reg, Memory(BaseDisp(b, d)), |e.bytes|))
  {
    var e := EncodeRm(mode, reg, Memory(BaseDisp(b, d)));
    var s := e.bytes + rest;
    RegSplit(reg);
    RegSplit(b);
    var c := ChooseDisp(b, d);
    ChosenDispRoundTrip(b, d, rest);
    assert e.bytes == [Pack(c.md, Low3(reg), Low3(b))] + c.bytes;
    assert s[1..] == c.bytes + rest;
    PackFields(c.md, Low3(reg), Low3(b));
    DecodePlainBase(mode, Extended(reg), false, Extended(b), s, c.md, Low3(reg), Low3(b), d, |c.bytes|);
  }

  lemma BaseIndexRoundTrip(mode: Mode, reg: Reg, b: Reg, i: Reg, sc: Scale, d: int, rest: seq<byte>)
    requires RegAllowed(mode, b) && IndexAllowed(mode, i) && Fits32(d)
    ensures var e := EncodeRm(mode, reg, Memory(BaseIndex(b, i, sc, d)));
      DecodeRm(mode, Extended(reg), e.rexX, e.rexB, e.bytes + rest)
        == Some((reg, Memory(BaseIndex(b, i, sc, d)), |e.bytes|))
  {
    var e := EncodeRm(mode, reg, Memory(BaseIndex(b, i, sc, d)));
    var s := e.bytes + rest;
    RegSplit(reg);
    RegSplit(b);
    RegSplit(i);
    var c := ChooseDisp(b, d);
    ChosenDispRoundTrip(b, d, rest);
    assert e.bytes == [Pack(c.md, Low3(reg), 4), Pack(sc, Low3(i), Low3(b))] + c.bytes;
    assert s[2..] == c.bytes + rest;
    PackFields(c.md, Low3(reg), 4);
    PackFields(sc, Low3(i), Low3(b));
    DecodeSibBase(mode, Extended(reg), Extended(i), Extended(b), s, c.md, Low3(reg), sc, Low3(i), Low3(b), d, |c.bytes|);
    assert Low3(reg) + Bit8(Extended(reg)) == reg && Low3(b) + Bit8(Extended(b)) == b;
    assert Low3(i) + Bit8(Extended(i)) == i != 4;
    assert |e.bytes| == 2 + |c.bytes|;
  }

  lemma IndexOnlyRoundTrip(mode: Mode, reg: Reg, i: Reg, sc: Scale, d: int, rest: seq<byte>)
    requires IndexAllowed(mode, i) && Fits32(d)
    ensures var e := EncodeRm(mode, reg, Memory(IndexOnly(i, sc, d)));
      DecodeRm(mode, Extended(reg), e.rexX, e.rexB, e.bytes + rest)
        == Some((reg, Memory(IndexOnly(i, sc, d)), |e.bytes|))
  {
    var e := EncodeRm(mode, reg, Memory(IndexOnly(i, sc, d)));
    var s := e.bytes + rest;
    RegSplit(reg);
    RegSplit(i);
    Pow256Values();
    SignedRoundTrip(d, 4);
    assert e.bytes == [Pack(0, Low3(reg), 4), Pack(sc, Low3(i), 5)] + LE(d, 4);
    assert s[2..6] == LE(d, 4);
    PackFields(0, Low3(reg), 4);
    PackFields(sc, Low3(i), 5);
    DecodeSibNoBase(mode, Extended(reg), Extended(i), false, s, Low3(reg), sc, Low3(i));
  }

  /** An EBP or R13 base with zero displacement still takes mod=01 and a 00 disp8. */
  lemma EbpLikeBaseForcesDisp8(mode: Mode, reg: Reg, b: Reg)
    requires Low3(b) == 5 && RegAllowed(mode, b)
    ensures var e := EncodeRm(mode, reg, Memory(BaseDisp(b, 0)));
      e.bytes == [Pack(1, Low3(reg), 5), 0] && e.bytes[0] / 64 == 1
  {
    PackFields(1, Low3(reg), 5);
  }
}

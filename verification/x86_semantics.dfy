/**
 * What the location layer's instruction sequences mean: a 64-bit register
 * file and a stack, enough to run the materialisation preludes (MOV r, imm;
 * LEA; PUSH; POP) and to evaluate effective addresses.  The lemmas show that
 * rewriting an address through r11 keeps the address, touches no register but
 * r11, and keeps the session's knowledge of r11 truthful.
 */
module Semantics {
  import opened Bytes
  import opened Registers
  import opened Wrappers
  import opened Encoding
  import opened Instructions
  import opened Locations

  /** Registers hold 64-bit values, stored unsigned; the stack grows at the front. */
  datatype Machine = Machine(regs: seq<int>, stack: seq<int>)

  predicate WellFormed(m: Machine)
  {
    |m.regs| == 16 && forall r :: 0 <= r < 16 ==> 0 <= m.regs[r] < TWO_64
  }

  /** The address a canonical memory operand denotes, modulo 2^64. */
  function EA(mem: MemOperand, regs: seq<int>): int
    requires |regs| == 16
  {
    match mem
    case Absolute(a) => a % TWO_64
    case BaseDisp(b, d) => (regs[b] + d) % TWO_64
    case BaseIndex(b, i, sc, d) => (regs[b] + regs[i] * Pow2(sc) + d) % TWO_64
    case IndexOnly(i, sc, d) => (regs[i] * Pow2(sc) + d) % TWO_64
  }

  /** The address a classified operand denotes: the reference the rewriting must preserve. */
  function AddrEA(a: Addr, regs: seq<int>): int
    requires |regs| == 16
  {
    match a
    case J(addr) => addr % TWO_64
    case M(b, ofs) => (regs[b] + ofs) % TWO_64
    case A(None, i, sc, ofs) => (regs[i] * Pow2(sc) + ofs) % TWO_64
    case A(Some(b), i, sc, ofs) => (regs[b] + regs[i] * Pow2(sc) + ofs) % TWO_64
  }

  function PartValue(p: Part, regs: seq<int>): int
    requires |regs| == 16
  {
    match p
    case RegPart(r) => regs[r]
    case ImmPart(v) => v
  }

  /** The address a location denotes, straight from its definition. */
  function LocEA(l: Loc, regs: seq<int>): int
    requires |regs| == 16
  {
    match l
    case StackLoc(ofs) => (regs[EBP] + ofs) % TWO_64
    case AddressLoc(b, s, sc, ofs) => (PartValue(b, regs) + PartValue(s, regs) * Pow2(sc) + ofs) % TWO_64
    case _ => 0
  }

  /**
   * One instruction's effect on registers and stack.  PUSH and POP move rsp
   * by 8 (POP rsp keeps the popped value).  Instructions that only read
   * registers (stores, compares) leave them alone; loads from memory are not
   * modelled, and neither is a POP from an empty stack.
   */
  function Step(m: Machine, i: Instr): Option<Machine>
    requires WellFormed(m)
  {
    match i
    case MovRI(SizeWord, d, v) => Some(m.(regs := m.regs[d := v % TWO_64]))
    case MovRR(SizeWord, d, s) => Some(m.(regs := m.regs[d := m.regs[s]]))
    case Lea(d, mem) => Some(m.(regs := m.regs[d := EA(mem, m.regs)]))
    case Push(r) => Some(Machine(m.regs[ESP := (m.regs[ESP] - 8) % TWO_64], [m.regs[r]] + m.stack))
    case Pop(r) =>
      if |m.stack| == 0 || !(0 <= m.stack[0] < TWO_64) then None
      else Some(Machine(m.regs[ESP := (m.regs[ESP] + 8) % TWO_64][r := m.stack[0]], m.stack[1..]))
    case MovMR(_, _, _) => Some(m)
    case MovMI(_, _, _) => Some(m)
    case CmpRR(_, _, _) => Some(m)
    case CmpRI(_, _, _) => Some(m)
    case CmpRM(_, _, _) => Some(m)
    case CmpMR(_, _, _) => Some(m)
    case CmpMI(_, _, _) => Some(m)
    case _ => None
  }

  lemma StepWellFormed(m: Machine, i: Instr)
    requires WellFormed(m) && Step(m, i).Some?
    ensures WellFormed(Step(m, i).value)
  {
  }

  function Run(m: Machine, ins: seq<Instr>): (r: Option<Machine>)
    requires WellFormed(m)
    ensures r.Some? ==> WellFormed(r.value)
    decreases |ins|
  {
    if |ins| == 0 then Some(m)
    else
      match Step(m, ins[0])
      case None => None
      case Some(m1) =>
        StepWellFormed(m, ins[0]);
        Run(m1, ins[1..])
  }

  lemma {:induction false} RunAppend(m: Machine, a: seq<Instr>, b: seq<Instr>)
    requires WellFormed(m) && Run(m, a).Some?
    ensures Run(m, a + b) == Run(Run(m, a).value, b)
    decreases |a|
  {
    if |a| == 0 {
      assert a + b == b;
    } else {
      assert (a + b)[0] == a[0];
      assert (a + b)[1..] == a[1..] + b;
      RunAppend(Step(m, a[0]).value, a[1..], b);
    }
  }

  /** The session's claim about r11 is true of the machine. */
  predicate Tracks(s: Session, m: Machine)
    requires WellFormed(m)
  {
    s.known ==> m.regs[SCRATCH] == s.value % TWO_64
  }

  /** Two register files that agree except possibly on r11. */
  predicate SameExceptScratch(a: seq<int>, b: seq<int>)
    requires |a| == 16 && |b| == 16
  {
    forall r :: 0 <= r < 16 && r != SCRATCH ==> a[r] == b[r]
  }

  // ---------------------------------------------------------------- arithmetic

  lemma ModCongruent(a: int, b: int)
    requires (a - b) % TWO_64 == 0
    ensures a % TWO_64 == b % TWO_64
  {
    var k := (a - b) / TWO_64;
    assert a - b == k * TWO_64;
    ModUnique(a, TWO_64, b / TWO_64 + k, b % TWO_64);
  }

  /** Reducing one summand modulo 2^64 does not change the sum modulo 2^64. */
  lemma ModAddReduce(x: int, y: int)
    ensures (x % TWO_64 + y) % TWO_64 == (x + y) % TWO_64
  {
    assert (x % TWO_64 + y) - (x + y) == -(x / TWO_64) * TWO_64;
    ModCongruent(x % TWO_64 + y, x + y);
  }

  /** A word-wrapped value stands for the same residue modulo 2^64 in either mode. */
  lemma WordCongruent(mode: Mode, x: int, y: int)
    requires mode == Mode64
    ensures (x + Word(mode, y)) % TWO_64 == (x + y) % TWO_64
  {
    var w := Wrap64(y);
    var k := (w - y) / TWO_64;
    assert w - y == k * TWO_64;
    assert (x + w) - (x + y) == k * TWO_64;
    ModCongruent(x + w, x + y);
  }

  // ---------------------------------------------------------------- classification

  /**
   * In 64-bit mode classification keeps the address: the classified operand
   * denotes the same location as the location it came from.
   */
  lemma ClassifyAddress(l: Loc, regs: seq<int>)
    requires |regs| == 16
    requires l.StackLoc? || l.AddressLoc?
    ensures Classify(Mode64, l).OMem?
    ensures AddrEA(Classify(Mode64, l).addr, regs) == LocEA(l, regs)
  {
    match l
    case StackLoc(ofs) =>
      WordCongruent(Mode64, regs[EBP], ofs);
    case AddressLoc(ImmPart(b), ImmPart(s), sc, ofs) =>
      WordCongruent(Mode64, 0, b + s * Pow2(sc) + ofs);
    case AddressLoc(ImmPart(b), RegPart(i), sc, ofs) =>
      WordCongruent(Mode64, regs[i] * Pow2(sc), b + ofs);
    case AddressLoc(RegPart(b), ImmPart(s), sc, ofs) =>
      WordCongruent(Mode64, regs[b], s * Pow2(sc) + ofs);
    case AddressLoc(RegPart(b), RegPart(i), sc, ofs) =>
      WordCongruent(Mode64, regs[b] + regs[i] * Pow2(sc), ofs);
  }

  // ---------------------------------------------------------------- address rewriting

  /** The facts a correct 64-bit rewrite of `a` establishes about running its prelude on `m`. */
  predicate RewriteSound(s: Session, a: Addr, m: Machine)
    requires WellFormed(m)
  {
    var r := Resolve(Mode64, s, a);
    Run(m, r.prelude).Some? &&
    var m' := Run(m, r.prelude).value;
    m'.stack == m.stack && SameExceptScratch(m'.regs, m.regs) &&
    EA(r.mem, m'.regs) == AddrEA(a, m.regs) &&
    Tracks(r.session, m')
  }

  /**
   * Running the prelude of a 64-bit address rewrite: it succeeds, leaves the
   * stack and every register but r11 alone, makes the rewritten operand
   * denote the original address, and leaves the session truthful about r11.
   */
  lemma ResolveSound(s: Session, a: Addr, m: Machine)
    requires WellFormed(m) && Coherent(s) && Tracks(s, m)
    requires SCRATCH !in AddrRegs(a)
    ensures RewriteSound(s, a, m)
  {
    match a
    case J(_) => ResolveAbsoluteSound(s, a, m);
    case M(_, _) => ResolveBasedSound(s, a, m);
    case A(_, _, _, _) => ResolveIndexedSound(s, a, m);
  }

  lemma ResolveAbsoluteSound(s: Session, a: Addr, m: Machine)
    requires WellFormed(m) && Coherent(s) && Tracks(s, m)
    requires a.J?
    ensures RewriteSound(s, a, m)
  {
    var r := Resolve(Mode64, s, a);
    var addr := a.addr;
    if Fits32(addr) {
    } else if s.known && Fits32(addr - s.value) {
      ModAddReduce(s.value, addr - s.value);
    } else {
      var m1 := m.(regs := m.regs[SCRATCH := addr % TWO_64]);
      assert Run(m, r.prelude) == Some(m1);
      ModAddReduce(addr, 0);
    }
  }

  lemma ResolveBasedSound(s: Session, a: Addr, m: Machine)
    requires WellFormed(m) && Coherent(s) && Tracks(s, m)
    requires a.M? && a.base != SCRATCH
    ensures RewriteSound(s, a, m)
  {
    var r := Resolve(Mode64, s, a);
    if !Fits32(a.ofs) {
      var m1 := m.(regs := m.regs[SCRATCH := a.ofs % TWO_64]);
      assert Run(m, r.prelude) == Some(m1);
      ModAddReduce(a.ofs, m.regs[a.base]);
    }
  }

  lemma ResolveIndexedSound(s: Session, a: Addr, m: Machine)
    requires WellFormed(m) && Coherent(s) && Tracks(s, m)
    requires a.A? && SCRATCH !in AddrRegs(a)
    ensures RewriteSound(s, a, m)
  {
    var r := Resolve(Mode64, s, a);
    var ofs := a.ofs;
    if !Fits32(ofs) {
      var p := m.regs[a.index] * Pow2(a.scale);
      if a.abase.Some? {
        var b := a.abase.value;
        var v := (ofs % TWO_64 + m.regs[b]) % TWO_64;
        FoldBaseRun(m, b, ofs);
        var m2 := m.(regs := m.regs[SCRATCH := v]);
        assert Run(m, r.prelude) == Some(m2);
        assert EA(r.mem, m2.regs) == (v + p + 0) % TWO_64;
        IndexedSum(m.regs[b], p, ofs);
      } else {
        var m1 := m.(regs := m.regs[SCRATCH := ofs % TWO_64]);
        assert Run(m, r.prelude) == Some(m1);
        assert EA(r.mem, m1.regs) == (ofs % TWO_64 + p + 0) % TWO_64;
        ModAddReduce(ofs, p);
      }
    }
  }

  /** Folding the offset into the base first and then adding the scaled index gives the same address. */
  lemma IndexedSum(x: int, p: int, ofs: int)
    ensures ((ofs % TWO_64 + x) % TWO_64 + p + 0) % TWO_64 == (x + p + ofs) % TWO_64
  {
    ModAddReduce(ofs, x);
    ModAddReduce(ofs + x, p);
  }

  /** Loading an offset into r11 and folding a base into it with LEA leaves base + offset in r11. */
  lemma FoldBaseRun(m: Machine, b: Reg, ofs: int)
    requires WellFormed(m) && b != SCRATCH
    ensures Run(m, [MovRI(SizeWord, SCRATCH, ofs), Lea(SCRATCH, BaseIndex(b, SCRATCH, 0, 0))])
         == Some(m.(regs := m.regs[SCRATCH := (ofs % TWO_64 + m.regs[b]) % TWO_64]))
  {
    FoldBaseSteps(m, b, ofs);
    ScratchTwice(m, ofs % TWO_64, (ofs % TWO_64 + m.regs[b]) % TWO_64);
  }

  lemma FoldBaseSteps(m: Machine, b: Reg, ofs: int)
    requires WellFormed(m) && b != SCRATCH
    ensures Run(m, [MovRI(SizeWord, SCRATCH, ofs), Lea(SCRATCH, BaseIndex(b, SCRATCH, 0, 0))])
         == Some(m.(regs := m.regs[SCRATCH := ofs % TWO_64]).(regs := m.regs[SCRATCH := ofs % TWO_64][SCRATCH := (ofs % TWO_64 + m.regs[b]) % TWO_64]))
  {
    var i0 := MovRI(SizeWord, SCRATCH, ofs);
    var i1 := Lea(SCRATCH, BaseIndex(b, SCRATCH, 0, 0));
    var m1 := m.(regs := m.regs[SCRATCH := ofs % TWO_64]);
    assert Step(m, i0) == Some(m1);
    RunTwo(m, i0, i1);
    assert m1.regs[b] == m.regs[b];
    LeaFoldStep(m1, b, ofs % TWO_64);
  }

  /** Writing r11 twice keeps only the second value. */
  lemma ScratchTwice(m: Machine, x: int, v: int)
    requires WellFormed(m) && 0 <= x < TWO_64 && 0 <= v < TWO_64
    ensures m.(regs := m.regs[SCRATCH := x]).(regs := m.regs[SCRATCH := x][SCRATCH := v]) == m.(regs := m.regs[SCRATCH := v])
  {
    assert m.regs[SCRATCH := x][SCRATCH := v] == m.regs[SCRATCH := v];
  }

  lemma LeaFoldStep(m1: Machine, b: Reg, w: int)
    requires WellFormed(m1) && b != SCRATCH && m1.regs[SCRATCH] == w
    ensures Step(m1, Lea(SCRATCH, BaseIndex(b, SCRATCH, 0, 0))) == Some(m1.(regs := m1.regs[SCRATCH := (w + m1.regs[b]) % TWO_64]))
  {
    assert Pow2(0) == 1;
    assert w * Pow2(0) == w;
    assert EA(BaseIndex(b, SCRATCH, 0, 0), m1.regs) == (m1.regs[b] + w) % TWO_64;
  }

  /** Running two instructions is stepping twice. */
  lemma RunTwo(m: Machine, i0: Instr, i1: Instr)
    requires WellFormed(m) && Step(m, i0).Some?
    ensures WellFormed(Step(m, i0).value)
    ensures Run(m, [i0, i1]) == Step(Step(m, i0).value, i1)
  {
    StepWellFormed(m, i0);
    var m1 := Step(m, i0).value;
    var ins := [i0, i1];
    assert ins[1..] == [i1];
    assert Run(m, ins) == Run(m1, [i1]);
    if Step(m1, i1).Some? {
      assert [i1][1..] == [];
      assert Run(m1, [i1]) == Run(Step(m1, i1).value, []);
    }
  }

  /** An address only depends on the registers it names. */
  lemma AddrEAFrame(a: Addr, x: seq<int>, y: seq<int>)
    requires |x| == 16 && |y| == 16
    requires forall r :: r in AddrRegs(a) ==> x[r] == y[r]
    ensures AddrEA(a, x) == AddrEA(a, y)
  {
  }

  // ---------------------------------------------------------------- wide immediates

  /**
   * A 64-bit immediate stored to (or compared with) an address that itself
   * needs r11: the temporary is saved, loaded with the value, the address is
   * rewritten, the temporary is used and then restored.  At the access the
   * temporary holds the value and the operand denotes the original address,
   * rsp-based ones included although PUSH has moved rsp; afterwards only r11
   * differs and the stack is as before.
   */
  lemma {:induction false} WideImmThroughTemp(s: Session, op: BinOp, a: Addr, v: int, m: Machine)
    requires WellFormed(m) && Coherent(s) && Tracks(s, m)
    requires SCRATCH !in AddrRegs(a)
    requires WideImm(Mode64, SizeWord, v) && !Fits32(AddrOffset(a))
    ensures var t := TempReg(a);
      var p := Resolve(Mode64, s, AfterPush(a));
      var pre := [Push(t), MovRI(SizeWord, t, v)] + p.prelude;
      SelectBinary(Mode64, s, op, SizeWord, OMem(a), OImm(v)) == Ok(Plan(pre + [OpMR(op, SizeWord, p.mem, t), Pop(t)], p.session)) &&
      Run(m, pre).Some? &&
      var m1 := Run(m, pre).value;
      m1.regs[t] == v % TWO_64 && EA(p.mem, m1.regs) == AddrEA(a, m.regs) &&
      Run(m1, [OpMR(op, SizeWord, p.mem, t), Pop(t)]).Some? &&
      var m2 := Run(m1, [OpMR(op, SizeWord, p.mem, t), Pop(t)]).value;
      m2.stack == m.stack && SameExceptScratch(m2.regs, m.regs) && Tracks(p.session, m2)
  {
    WideImmTempPlan(s, op, a, v);
    var t := TempReg(a);
    var a' := AfterPush(a);
    AfterPushRegs(a);
    var p := Resolve(Mode64, s, a');
    var save := [Push(t), MovRI(SizeWord, t, v)];
    var mb := SaveAndLoad(m, t, v);
    assert Tracks(s, mb);
    ResolveSound(s, a', mb);
    PushShiftEA(a, m.regs, mb.regs);
    RunAppend(m, save, p.prelude);
    var m1 := Run(mb, p.prelude).value;
    TempRestored(m1, op, p.mem, t);
    RestoredState(m, mb, m1, t, v);
  }

  /** PUSH of the temporary followed by loading it: rsp lowered by 8, the old value on the stack. */
  lemma SaveAndLoad(m: Machine, t: Reg, v: int) returns (mb: Machine)
    requires WellFormed(m) && t != ESP
    ensures mb == Machine(m.regs[ESP := (m.regs[ESP] - 8) % TWO_64][t := v % TWO_64], [m.regs[t]] + m.stack)
    ensures WellFormed(mb) && Run(m, [Push(t), MovRI(SizeWord, t, v)]) == Some(mb)
  {
    var save := [Push(t), MovRI(SizeWord, t, v)];
    var ma := Machine(m.regs[ESP := (m.regs[ESP] - 8) % TWO_64], [m.regs[t]] + m.stack);
    mb := ma.(regs := ma.regs[t := v % TWO_64]);
    assert Step(m, save[0]) == Some(ma);
    assert Run(mb, save[1..][1..]) == Some(mb);
  }

  /** Popping the temporary back after a prelude that touched only r11 leaves only r11 changed. */
  lemma RestoredState(m: Machine, mb: Machine, m1: Machine, t: Reg, v: int)
    requires WellFormed(m) && WellFormed(m1) && t != ESP && t != SCRATCH
    requires mb == Machine(m.regs[ESP := (m.regs[ESP] - 8) % TWO_64][t := v % TWO_64], [m.regs[t]] + m.stack)
    requires m1.stack == mb.stack && SameExceptScratch(m1.regs, mb.regs)
    ensures m1.stack[1..] == m.stack && 0 <= m1.stack[0] < TWO_64
    ensures var regs := m1.regs[ESP := (m1.regs[ESP] + 8) % TWO_64][t := m1.stack[0]];
      |regs| == 16 && SameExceptScratch(regs, m.regs) && regs[SCRATCH] == m1.regs[SCRATCH]
  {
    assert m1.stack[1..] == m.stack;
    assert m1.regs[ESP] == (m.regs[ESP] - 8) % TWO_64;
    PopRestoresRsp(m.regs[ESP]);
  }

  /** The plan for a 64-bit immediate whose address needs r11: save a temporary, load it, access, restore. */
  lemma WideImmTempPlan(s: Session, op: BinOp, a: Addr, v: int)
    requires Coherent(s) && SCRATCH !in AddrRegs(a)
    requires WideImm(Mode64, SizeWord, v) && !Fits32(AddrOffset(a))
    ensures var t := TempReg(a);
      var p := Resolve(Mode64, s, AfterPush(a));
      SelectBinary(Mode64, s, op, SizeWord, OMem(a), OImm(v))
        == Ok(Plan([Push(t), MovRI(SizeWord, t, v)] + p.prelude + [OpMR(op, SizeWord, p.mem, t), Pop(t)], p.session))
  {
  }

  /** Using the temporary and popping it back restores it from the stack and gives rsp its 8 bytes back. */
  lemma TempRestored(m1: Machine, op: BinOp, mem: MemOperand, t: Reg)
    requires WellFormed(m1) && |m1.stack| >= 1 && 0 <= m1.stack[0] < TWO_64
    ensures Run(m1, [OpMR(op, SizeWord, mem, t), Pop(t)]).Some?
    ensures var m2 := Run(m1, [OpMR(op, SizeWord, mem, t), Pop(t)]).value;
      m2.stack == m1.stack[1..] && m2.regs == m1.regs[ESP := (m1.regs[ESP] + 8) % TWO_64][t := m1.stack[0]]
  {
    var tail := [OpMR(op, SizeWord, mem, t), Pop(t)];
    var m2 := Machine(m1.regs[ESP := (m1.regs[ESP] + 8) % TWO_64][t := m1.stack[0]], m1.stack[1..]);
    assert Step(m1, tail[0]) == Some(m1);
    assert Step(m1, tail[1]) == Some(m2);
    assert Run(m1, tail[1..]) == Some(m2) by {
      assert tail[1..][1..] == [];
    }
  }

  /** A PUSH and the matching POP leave rsp where it was. */
  lemma PopRestoresRsp(rsp: int)
    requires 0 <= rsp < TWO_64
    ensures ((rsp - 8) % TWO_64 + 8) % TWO_64 == rsp
  {
    ModAddReduce(rsp - 8, 8);
  }


  /** A value and its residue modulo 2^64 differ by a multiple of 2^64. */
  lemma ModDiff(z: int)
    ensures (z % TWO_64 - z) % TWO_64 == 0
  {
    assert z % TWO_64 - z == -(z / TWO_64) * TWO_64;
  }

  /**
   * Lowering a base by c and an index by d (modulo 2^64) and adding c plus d
   * times the scale back to the offset keeps the sum modulo 2^64.
   */
  lemma ShiftSum(x: int, x': int, y: int, y': int, k: int, ofs: int, c: int, d: int, shift: int)
    requires (x' - x + c) % TWO_64 == 0 && (y' - y + d) % TWO_64 == 0 && shift == c + d * k
    ensures (x' + y' * k + Wrap64(ofs + shift)) % TWO_64 == (x + y * k + ofs) % TWO_64
  {
    var p := (x' - x + c) / TWO_64;
    var q := (y' - y + d) / TWO_64;
    var w := Wrap64(ofs + shift);
    var r := (w - (ofs + shift)) / TWO_64;
    assert x' == x - c + p * TWO_64;
    assert y' == y - d + q * TWO_64;
    assert w == ofs + shift + r * TWO_64;
    assert y' * k == y * k - d * k + (q * k) * TWO_64;
    assert (x' + y' * k + w) - (x + y * k + ofs) == (p + q * k + r) * TWO_64;
    ModCongruent(x' + y' * k + w, x + y * k + ofs);
  }

  /**
   * After a PUSH has lowered rsp by 8 (and changed no register the address
   * names besides rsp), the shifted address denotes the original location.
   */
  lemma PushShiftEA(a: Addr, regs: seq<int>, regs': seq<int>)
    requires |regs| == 16 && |regs'| == 16
    requires regs'[ESP] == (regs[ESP] - 8) % TWO_64
    requires forall r :: r in AddrRegs(a) && r != ESP ==> regs'[r] == regs[r]
    ensures AddrEA(AfterPush(a), regs') == AddrEA(a, regs)
  {
    ModDiff(regs[ESP] - 8);
    match a
    case J(_) =>
    case M(b, ofs) =>
      if b == ESP {
        ShiftSum(regs[b], regs'[b], 0, 0, 0, ofs, 8, 0, 8);
      }
    case A(base, i, sc, ofs) =>
      PushShiftIndexed(a, regs, regs');
  }

  lemma PushShiftIndexed(a: Addr, regs: seq<int>, regs': seq<int>)
    requires |regs| == 16 && |regs'| == 16 && a.A?
    requires (regs'[ESP] - regs[ESP] + 8) % TWO_64 == 0
    requires forall r :: r in AddrRegs(a) && r != ESP ==> regs'[r] == regs[r]
    ensures AddrEA(AfterPush(a), regs') == AddrEA(a, regs)
  {
    var k := Pow2(a.scale);
    var i := a.index;
    var shift := (if a.abase == Some(ESP) then 8 else 0) + (if i == ESP then 8 * k else 0);
    var d := if i == ESP then 8 else 0;
    assert (regs'[i] - regs[i] + d) % TWO_64 == 0;
    assert AfterPush(a) == A(a.abase, i, a.scale, Wrap64(a.ofs + shift));
    match a.abase
    case None =>
      ShiftSum(0, 0, regs[i], regs'[i], k, a.ofs, 0, d, shift);
    case Some(b) =>
      var c := if b == ESP then 8 else 0;
      assert (regs'[b] - regs[b] + c) % TWO_64 == 0;
      ShiftSum(regs[b], regs'[b], regs[i], regs'[i], k, a.ofs, c, d, shift);
  }

  /**
   * A 64-bit immediate stored to an address that needs no r11: the value
   * goes through r11, which the session then forgets.
   */
  lemma WideImmThroughScratch(s: Session, op: BinOp, a: Addr, v: int, m: Machine)
    requires WellFormed(m)
    requires SCRATCH !in AddrRegs(a)
    requires WideImm(Mode64, SizeWord, v) && Fits32(AddrOffset(a))
    ensures var p := Resolve(Mode64, s.(known := false), a);
      SelectBinary(Mode64, s, op, SizeWord, OMem(a), OImm(v)) == Ok(Plan([MovRI(SizeWord, SCRATCH, v), OpMR(op, SizeWord, p.mem, SCRATCH)], p.session)) &&
      var m1 := m.(regs := m.regs[SCRATCH := v % TWO_64]);
      Run(m, [MovRI(SizeWord, SCRATCH, v)]) == Some(m1) &&
      EA(p.mem, m1.regs) == AddrEA(a, m.regs) &&
      !p.session.known
  {
    var s' := s.(known := false);
    var p := Resolve(Mode64, s', a);
    var m1 := m.(regs := m.regs[SCRATCH := v % TWO_64]);
    assert p.prelude == [];
    assert [MovRI(SizeWord, SCRATCH, v)] + p.prelude + [OpMR(op, SizeWord, p.mem, SCRATCH)] == [MovRI(SizeWord, SCRATCH, v), OpMR(op, SizeWord, p.mem, SCRATCH)];
    ResolveSound(s', a, m1);
    AddrEAFrame(a, m1.regs, m.regs);
    assert Run(m, [MovRI(SizeWord, SCRATCH, v)]) == Some(m1) by {
      assert [MovRI(SizeWord, SCRATCH, v)][1..] == [];
    }
  }

  /** CMP of a register with a 64-bit immediate: the immediate is loaded into r11 first. */
  lemma WideCompare(s: Session, d: Reg, v: int, m: Machine)
    requires WellFormed(m)
    requires d != SCRATCH && WideImm(Mode64, SizeWord, v)
    ensures SelectBinary(Mode64, s, CMP, SizeWord, OReg(d), OImm(v)) == Ok(Plan([MovRI(SizeWord, SCRATCH, v), CmpRR(SizeWord, d, SCRATCH)], s.(known := false)))
    ensures var m1 := m.(regs := m.regs[SCRATCH := v % TWO_64]);
      Run(m, [MovRI(SizeWord, SCRATCH, v)]) == Some(m1) && m1.regs[d] == m.regs[d]
  {
    var m1 := m.(regs := m.regs[SCRATCH := v % TWO_64]);
    assert Run(m, [MovRI(SizeWord, SCRATCH, v)]) == Some(m1) by {
      assert [MovRI(SizeWord, SCRATCH, v)][1..] == [];
    }
  }
}

/**
 * The location layer of the x86 JIT backend: operands are registers,
 * immediates and addresses [base + scaled << scale + offset]; a code builder
 * turns MOV, CMP, MOV16, CMP16 and JMP on such locations into machine
 * instructions and bytes.  In 64-bit mode an address or immediate that does
 * not fit a sign-extended 32-bit field is first materialised in the scratch
 * register r11 (and, for a 64-bit immediate stored to such an address, in a
 * pushed temporary).  A reuse session lets consecutive absolute accesses share
 * one load of r11.
 */
module Locations {
  import opened Bytes
  import opened Registers
  import opened Wrappers
  import opened Encoding
  import opened Instructions

  // ---------------------------------------------------------------- locations

  /** The base and scaled parts of an address are each a register or a constant. */
  datatype Part = RegPart(reg: Reg) | ImmPart(value: int)

  datatype Loc =
    | RegLoc(reg: Reg)
    | ImmedLoc(value: int)
    | StackLoc(offset: int)                                      // [ebp + offset]
    | AddressLoc(base: Part, scaled: Part, scale: Scale, offset: int)

  /** An absolute address as a location. */
  function Heap(addr: int): Loc
  {
    AddressLoc(ImmPart(addr), ImmPart(0), 0, 0)
  }

  function Pow2(scale: Scale): int
  {
    [1, 2, 4, 8][scale]
  }

  /** Values are machine words: 32 bits in 32-bit mode, 64 bits in 64-bit mode. */
  function Word(mode: Mode, v: int): int
  {
    if mode == Mode32 then Wrap32(v) else Wrap64(v)
  }

  predicate FitsWord(mode: Mode, v: int)
  {
    if mode == Mode32 then Fits32(v) else Fits64(v)
  }

  /** The location codes: absolute ('j'), base + offset ('m'), base-or-none + index ('a'). */
  datatype Addr =
    | J(addr: int)
    | M(base: Reg, ofs: int)
    | A(abase: Option<Reg>, index: Reg, scale: Scale, ofs: int)

  datatype Operand = OReg(reg: Reg) | OImm(value: int) | OMem(addr: Addr)

  /** Folds an address location's constant parts into one offset, as a machine word. */
  function Classify(mode: Mode, l: Loc): (o: Operand)
    ensures o.OImm? ==> FitsWord(mode, o.value)
    ensures o.OMem? && o.addr.J? ==> FitsWord(mode, o.addr.addr)
    ensures o.OMem? && !o.addr.J? ==> FitsWord(mode, o.addr.ofs)
  {
    match l
    case RegLoc(r) => OReg(r)
    case ImmedLoc(v) => OImm(Word(mode, v))
    case StackLoc(ofs) => OMem(M(EBP, Word(mode, ofs)))
    case AddressLoc(ImmPart(b), ImmPart(s), sc, ofs) => OMem(J(Word(mode, b + s * Pow2(sc) + ofs)))
    case AddressLoc(ImmPart(b), RegPart(i), sc, ofs) => OMem(A(None, i, sc, Word(mode, b + ofs)))
    case AddressLoc(RegPart(b), ImmPart(s), sc, ofs) => OMem(M(b, Word(mode, s * Pow2(sc) + ofs)))
    case AddressLoc(RegPart(b), RegPart(i), sc, ofs) => OMem(A(Some(b), i, sc, Word(mode, ofs)))
  }

  /** The registers an address reads. */
  function AddrRegs(a: Addr): set<Reg>
  {
    match a
    case J(_) => {}
    case M(b, _) => {b}
    case A(None, i, _, _) => {i}
    case A(Some(b), i, _, _) => {b, i}
  }

  function OperandRegs(o: Operand): set<Reg>
  {
    match o
    case OReg(r) => {r}
    case OImm(_) => {}
    case OMem(a) => AddrRegs(a)
  }

  // ---------------------------------------------------------------- scratch session

  /**
   * The reuse session: whether it is open, and whether r11 is known to hold
   * `value` from an earlier absolute-address load inside it.
   */
  datatype Session = Session(reuse: bool, known: bool, value: int)

  const CLOSED: Session := Session(false, false, 0)

  /** Outside a session nothing is known about r11. */
  predicate Coherent(s: Session)
  {
    s.reuse || !s.known
  }

  /** An address rewritten into an encodable memory operand, with the instructions that prepare it. */
  datatype Resolved = Resolved(prelude: seq<Instr>, mem: MemOperand, session: Session)

  /**
   * A 32-bit-mode address is always directly encodable.  In 64-bit mode an
   * absolute address beyond a 32-bit displacement is reached through r11
   * (reusing a known r11 when the distance fits), and a too-large offset of
   * a based address is loaded into r11 and used as an index, after folding
   * the base in with LEA when there is also a real index.
   */
  function Resolve(mode: Mode, s: Session, a: Addr): (r: Resolved)
    ensures mode == Mode32 ==> r.prelude == [] && r.session == s
    ensures r.session.reuse == s.reuse
    ensures Coherent(s) ==> Coherent(r.session)
    ensures mode == Mode64 && a.J? && !Fits32(a.addr) ==> (r.prelude == [] <==> s.known && Fits32(a.addr - s.value))
    ensures mode == Mode64 && a.J? && !Fits32(a.addr) && s.reuse ==>
      r.session.known && Fits32(a.addr - r.session.value) && r.mem == BaseDisp(SCRATCH, a.addr - r.session.value)
  {
    match a
    case J(addr) =>
      if mode == Mode32 || Fits32(addr) then Resolved([], Absolute(addr), s)
      else if s.known && Fits32(addr - s.value) then Resolved([], BaseDisp(SCRATCH, addr - s.value), s)
      else
        var s' := if s.reuse then Session(true, true, addr) else s;
        Resolved([MovRI(SizeWord, SCRATCH, addr)], BaseDisp(SCRATCH, 0), s')
    case M(b, ofs) =>
      if mode == Mode32 || Fits32(ofs) then Resolved([], BaseDisp(b, ofs), s)
      else Resolved([MovRI(SizeWord, SCRATCH, ofs)], BaseIndex(b, SCRATCH, 0, 0), s.(known := false))
    case A(base, i, sc, ofs) =>
      if mode == Mode32 || Fits32(ofs) then
        Resolved([], if base.Some? then BaseIndex(base.value, i, sc, ofs) else IndexOnly(i, sc, ofs), s)
      else
        var fold := if base.Some? then [Lea(SCRATCH, BaseIndex(base.value, SCRATCH, 0, 0))] else [];
        Resolved([MovRI(SizeWord, SCRATCH, ofs)] + fold, BaseIndex(SCRATCH, i, sc, 0), s.(known := false))
  }

  /** The constant part of an address: what decides whether it fits a 32-bit field. */
  function AddrOffset(a: Addr): int
  {
    match a
    case J(addr) => addr
    case M(_, ofs) => ofs
    case A(_, _, _, ofs) => ofs
  }

  /** The temporary for a 64-bit immediate stored to a 64-bit address: rax, else rdx, else rcx. */
  function TempReg(a: Addr): (t: Reg)
    ensures t !in AddrRegs(a)
    ensures t == EAX || t == EDX || t == ECX
    ensures t == EDX ==> EAX in AddrRegs(a)
    ensures t == ECX ==> EAX in AddrRegs(a) && EDX in AddrRegs(a)
  {
    if EAX !in AddrRegs(a) then EAX
    else if EDX !in AddrRegs(a) then EDX
    else ECX
  }

  // ---------------------------------------------------------------- instruction selection

  datatype BinOp = MOV | CMP

  function OpRR(op: BinOp, size: Size, a: Reg, b: Reg): Instr
  {
    if op == MOV then MovRR(size, a, b) else CmpRR(size, a, b)
  }

  function OpRM(op: BinOp, size: Size, a: Reg, m: MemOperand): Instr
  {
    if op == MOV then MovRM(size, a, m) else CmpRM(size, a, m)
  }

  function OpMR(op: BinOp, size: Size, m: MemOperand, b: Reg): Instr
  {
    if op == MOV then MovMR(size, m, b) else CmpMR(size, m, b)
  }

  function OpRI(op: BinOp, size: Size, a: Reg, v: int): Instr
  {
    if op == MOV then MovRI(size, a, v) else CmpRI(size, a, v)
  }

  function OpMI(op: BinOp, size: Size, m: MemOperand, v: int): Instr
  {
    if op == MOV then MovMI(size, m, v) else CmpMI(size, m, v)
  }

  /** The instructions for one operation and the session after it. */
  datatype Plan = Plan(instrs: seq<Instr>, session: Session)

  /** In 64-bit mode, a word-sized immediate that a 32-bit field cannot carry. */
  predicate WideImm(mode: Mode, size: Size, v: int)
  {
    mode == Mode64 && size == SizeWord && !Fits32(v)
  }

  /**
   * Whether the plan for an operation loads r11 before the access: an
   * address operand that needs it (an absolute address a known r11 cannot
   * reach, an offset beyond 32 bits), or a 64-bit immediate that goes
   * through it (every memory destination; a register only for CMP).
   */
  predicate LoadsScratch(mode: Mode, s: Session, op: BinOp, size: Size, dst: Operand, src: Operand)
  {
    mode == Mode64 &&
    ((dst.OMem? && NeedsLoad(s, dst.addr)) ||
     (src.OMem? && NeedsLoad(s, src.addr)) ||
     (src.OImm? && WideImm(mode, size, src.value) && (dst.OMem? || op == CMP)))
  }

  /** A 64-bit-mode address whose rewrite loads r11. */
  predicate NeedsLoad(s: Session, a: Addr)
  {
    !Fits32(AddrOffset(a)) && !(a.J? && s.known && Fits32(a.addr - s.value))
  }

  /** Loading r11 while an operand names it would destroy that operand. */
  predicate ScratchConflict(mode: Mode, s: Session, op: BinOp, size: Size, dst: Operand, src: Operand)
  {
    LoadsScratch(mode, s, op, size, dst, src) && SCRATCH in OperandRegs(dst) + OperandRegs(src)
  }

  /** A MOV into r11 itself makes whatever the session knew about r11 stale. */
  function AfterWrite(s: Session, op: BinOp, d: Reg): (s': Session)
    ensures s'.reuse == s.reuse && (s'.known ==> s.known)
    ensures op == MOV && d == SCRATCH ==> !s'.known
  {
    if op == MOV && d == SCRATCH then s.(known := false) else s
  }

  /**
   * PUSH lowers rsp by 8, so an address computed through rsp after a PUSH
   * has to add 8 for every use of rsp to reach the same location.
   */
  function AfterPush(a: Addr): Addr
  {
    match a
    case J(_) => a
    case M(b, ofs) => if b == ESP then M(b, Wrap64(ofs + 8)) else a
    case A(base, i, sc, ofs) =>
      var shift := (if base == Some(ESP) then 8 else 0) + (if i == ESP then 8 * Pow2(sc) else 0);
      A(base, i, sc, Wrap64(ofs + shift))
  }

  /**
   * MOV or CMP of two operands.  Register/register, register/memory,
   * memory/register, register/immediate and memory/immediate are the shapes
   * that exist; a plan that would load r11 while an operand names r11 is
   * refused.
   */
  function SelectBinary(mode: Mode, s: Session, op: BinOp, size: Size, dst: Operand, src: Operand): (r: Result<Plan, EncodeError>)
    ensures r.Ok? ==> r.value.session.reuse == s.reuse
    ensures r.Ok? && Coherent(s) ==> Coherent(r.value.session)
    ensures r == Err(InvalidScratchUse) <==> ScratchConflict(mode, s, op, size, dst, src)
    ensures r.Ok? && op == MOV && dst == OReg(SCRATCH) ==> !r.value.session.known
  {
    if ScratchConflict(mode, s, op, size, dst, src) then Err(InvalidScratchUse)
    else
      match (dst, src)
      case (OReg(d), OReg(x)) => Ok(Plan([OpRR(op, size, d, x)], AfterWrite(s, op, d)))
      case (OReg(d), OMem(a)) =>
        var p := Resolve(mode, s, a);
        Ok(Plan(p.prelude + [OpRM(op, size, d, p.mem)], AfterWrite(p.session, op, d)))
      case (OMem(a), OReg(x)) =>
        var p := Resolve(mode, s, a);
        Ok(Plan(p.prelude + [OpMR(op, size, p.mem, x)], p.session))
      case (OReg(d), OImm(v)) =>
        if WideImm(mode, size, v) && op == CMP then
          Ok(Plan([MovRI(SizeWord, SCRATCH, v), CmpRR(SizeWord, d, SCRATCH)], s.(known := false)))
        else Ok(Plan([OpRI(op, size, d, v)], AfterWrite(s, op, d)))
      case (OMem(a), OImm(v)) =>
        if WideImm(mode, size, v) then
          if Fits32(AddrOffset(a)) then
            // the address needs no r11: the immediate goes through r11 instead
            var p := Resolve(mode, s.(known := false), a);
            Ok(Plan([MovRI(SizeWord, SCRATCH, v)] + p.prelude + [OpMR(op, size, p.mem, SCRATCH)], p.session))
          else
            // the access happens after PUSH, so an rsp-based address is shifted back
            var t := TempReg(a);
            var p := Resolve(mode, s, AfterPush(a));
            Ok(Plan([Push(t), MovRI(SizeWord, t, v)] + p.prelude + [OpMR(op, size, p.mem, t), Pop(t)], p.session))
        else
          var p := Resolve(mode, s, a);
          Ok(Plan(p.prelude + [OpMI(op, size, p.mem, v)], p.session))
      case _ => Err(UnsupportedOperandCombination)
  }

  // ---------------------------------------------------------------- the code builder

  /** The builder: its mode, the address its code will live at, the bytes so far, the session. */
  datatype Builder = Builder(mode: Mode, baseAddress: int, code: seq<byte>, session: Session)

  function NewBuilder(mode: Mode, baseAddress: int): (b: Builder)
    ensures b.code == [] && b.session == CLOSED && Coherent(b.session)
  {
    Builder(mode, baseAddress, [], CLOSED)
  }

  /** Encodes a plan and appends it; an instruction that cannot be encoded appends nothing. */
  function Emit(b: Builder, p: Plan): (r: Result<Builder, EncodeError>)
    ensures r.Ok? <==> EncodeAll(b.mode, p.instrs).Ok?
    ensures r.Ok? ==> r.value == b.(code := b.code + EncodeAll(b.mode, p.instrs).value, session := p.session)
  {
    var bytes :- EncodeAll(b.mode, p.instrs);
    Ok(b.(code := b.code + bytes, session := p.session))
  }

  function Binary(b: Builder, op: BinOp, size: Size, dst: Loc, src: Loc): (r: Result<Builder, EncodeError>)
    ensures r.Ok? ==> r.value.mode == b.mode && r.value.baseAddress == b.baseAddress
    ensures r.Ok? ==> |r.value.code| > |b.code| && r.value.code[..|b.code|] == b.code
    ensures r.Ok? ==> r.value.session.reuse == b.session.reuse
    ensures r.Ok? && Coherent(b.session) ==> Coherent(r.value.session)
  {
    var p :- SelectBinary(b.mode, b.session, op, size, Classify(b.mode, dst), Classify(b.mode, src));
    var r := Emit(b, p);
    if r.Ok? then
      EncodeAllNonEmpty(b.mode, p.instrs);
      r
    else r
  }

  function Mov(b: Builder, dst: Loc, src: Loc): Result<Builder, EncodeError> { Binary(b, MOV, SizeWord, dst, src) }
  function Cmp(b: Builder, dst: Loc, src: Loc): Result<Builder, EncodeError> { Binary(b, CMP, SizeWord, dst, src) }
  function Mov16(b: Builder, dst: Loc, src: Loc): Result<Builder, EncodeError> { Binary(b, MOV, Size16, dst, src) }
  function Cmp16(b: Builder, dst: Loc, src: Loc): Result<Builder, EncodeError> { Binary(b, CMP, Size16, dst, src) }

  /** The rel32 of a 5-byte JMP at the current position to an absolute target. */
  function JmpOffset(b: Builder, target: int): int
  {
    var next := b.baseAddress + |b.code| + 5;
    if b.mode == Mode32 then Wrap32(target - next) else target - next
  }

  /**
   * JMP to an immediate target: E9 rel32, relative to the end of the
   * instruction.  In 32-bit mode the displacement is taken modulo 2^32, so
   * every target is reachable; in 64-bit mode it has to fit.
   */
  function Jmp(b: Builder, target: Loc): (r: Result<Builder, EncodeError>)
    ensures r.Ok? ==> r.value.mode == b.mode && r.value.baseAddress == b.baseAddress && r.value.session == b.session
    ensures r.Ok? <==> target.ImmedLoc? && (b.mode == Mode32 || Fits32(JmpOffset(b, target.value)))
    ensures r.Ok? ==> r.value.code == b.code + [0xE9] + LE(JmpOffset(b, target.value), 4)
  {
    match target
    case ImmedLoc(t) =>
      var bytes :- Encode(b.mode, JmpRel(JmpOffset(b, t)));
      Ok(b.(code := b.code + bytes))
    case _ => Err(UnsupportedOperandCombination)
  }

  /** Opens a reuse session: r11 is not known yet.  Sessions do not nest. */
  function BeginReuse(b: Builder): (r: Builder)
    requires !b.session.reuse
    ensures r.session.reuse && !r.session.known
    ensures r.code == b.code && r.mode == b.mode
    ensures forall x :: !Fits32(x) ==> Resolve(Mode64, r.session, J(x)).prelude == [MovRI(SizeWord, SCRATCH, x)]
  {
    b.(session := Session(true, false, b.session.value))
  }

  /** Closes the session and forgets r11. */
  function EndReuse(b: Builder): (r: Builder)
    requires b.session.reuse
    ensures !r.session.reuse && !r.session.known
    ensures r.code == b.code && r.mode == b.mode
    ensures forall x :: !Fits32(x) ==> Resolve(Mode64, r.session, J(x)) == Resolved([MovRI(SizeWord, SCRATCH, x)], BaseDisp(SCRATCH, 0), r.session)
  {
    b.(session := Session(false, false, b.session.value))
  }

  // ---------------------------------------------------------------- lemmas

  /**
   * Inside a session, a far absolute address loads r11 once; a second far
   * address within 32 bits of it is reached from that r11 with no new load.
   */
  lemma ReuseNoReload(s: Session, x: int, y: int)
    requires s.reuse && !Fits32(x) && !Fits32(y) && Fits32(y - x)
    requires !(s.known && Fits32(x - s.value))
    ensures var r1 := Resolve(Mode64, s, J(x));
      var r2 := Resolve(Mode64, r1.session, J(y));
      r1.prelude == [MovRI(SizeWord, SCRATCH, x)] && r1.session == Session(true, true, x) &&
      r2.prelude == [] && r2.mem == BaseDisp(SCRATCH, y - x) && r2.session == r1.session
  {
  }

  /** Shifting an address for a PUSH keeps the registers it names. */
  lemma AfterPushRegs(a: Addr)
    ensures AddrRegs(AfterPush(a)) == AddrRegs(a)
  {
  }

  /** Every instruction encodes to at least one byte. */
  lemma EncodeNonEmpty(mode: Mode, i: Instr)
    requires Encode(mode, i).Ok?
    ensures |Encode(mode, i).value| >= 1
  {
  }

  /** An encodable non-empty instruction sequence yields at least one byte. */
  lemma EncodeAllNonEmpty(mode: Mode, ins: seq<Instr>)
    requires |ins| >= 1 && EncodeAll(mode, ins).Ok?
    ensures |EncodeAll(mode, ins).value| >= 1
  {
    EncodeAllOk(mode, ins);
    EncodeAllOk(mode, ins[1..]);
    assert forall k :: 0 <= k < |ins[1..]| ==> ins[1..][k] == ins[k + 1];
    assert ins == [ins[0]] + ins[1..];
    EncodeCons(mode, ins[0], ins[1..]);
    EncodeNonEmpty(mode, ins[0]);
  }

  /**
   * The emitted JMP lands on its target: the end of the instruction plus the
   * sign-extended rel32 is the target, modulo 2^32 in 32-bit mode and exactly
   * in 64-bit mode.
   */
  lemma JmpReaches(b: Builder, t: int)
    requires Jmp(b, ImmedLoc(t)).Ok?
    ensures var code := Jmp(b, ImmedLoc(t)).value.code;
      var next := b.baseAddress + |code|;
      var rel := Signed(FromLE(code[|code| - 4..]), 4);
      |code| == |b.code| + 5 &&
      (if b.mode == Mode32 then (next + rel - t) % TWO_32 == 0 else next + rel == t)
  {
    var code := Jmp(b, ImmedLoc(t)).value.code;
    var off := JmpOffset(b, t);
    assert code[|code| - 4..] == LE(off, 4);
    Pow256Values();
    SignedRoundTrip(off, 4);
  }
}

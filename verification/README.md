# Five cores of PyPy, modelled in Dafny

This project models five independent pieces of the PyPy repository as pure
Dafny functions over immutable data, and proves what their tests and code
promise about them.

- **The x86 location code builder of the JIT backend** (modules `Bytes`,
  `Registers`, `Encoding`, `Instructions`, `Locations`, `Semantics`,
  `X86Vectors`).
  - Operands are registers, immediates and addresses `[base + index << scale + offset]`.
  - The builder turns MOV, CMP, MOV16, CMP16 and JMP on them into x86 machine
    code for 32-bit and 64-bit mode.
  - The byte forms (ModRM, SIB, displacement, REX, operand-size prefix)
    follow sections 2.1 and 2.2.1 of the Intel 64 and IA-32 Architectures
    Software Developer's Manual, Volume 2A.
  - In 64-bit mode, an address or immediate that does not fit a sign-extended
    32-bit field is first loaded into the scratch register r11. A 64-bit
    immediate stored to such an address goes through a pushed temporary
    instead. A reuse session lets consecutive absolute accesses share one load
    of r11.
  - `Encoding` and `Instructions` carry a decoder. It is the partner of the
    encoder: every form round-trips.
  - `Semantics` is a small machine: registers, a stack, and MOV/LEA/PUSH/POP.
    It shows that every rewrite through r11 keeps the effective address, and
    that the session's record of r11 stays true.
  - `X86Vectors` proves the exact bytes of every example in the tests.
- **The CLI backend's file layer** (`CliFile`), from `ll_os.cs`.
  - The open-flag decoding.
  - CRLF text files and binary files.
  - The descriptor table: 0, 1 and 2 are preregistered, and a counter is
    never reused.
  - `read`, `write`, `close` and `lseek`.
- **The `_collections.deque` with an optional maxlen** (`Deque`), from its
  tests. It is a sequence plus a bound plus a mutation counter.
- **The translation driver's task engine** (`TaskEngine`), from its tests.
  It covers planning over mandatory and suggested (`?X`) dependencies, the
  dependents of a task and their closure, and execution with pre/post events.
- **The pure helpers of the exception-introspection script**
  (`EnumExceptions`):
  - attribute lookup;
  - the bases-first class ordering;
  - `getAttributes` and `cartesian`;
  - probe objects and their refresh;
  - the argument-count guard of a generated `__init__`.

`Wrappers` holds the shared `Option` and `Result` types.

## Model

| member | source | states |
|---|---|---|
| Bytes.Wrap32 | pypy/jit/backend/x86/test/test_regloc.py:44-45 | intmask on a 32-bit host: the result is a signed 32-bit value congruent to the input modulo 2^32 |
| Bytes.Wrap64 | pypy/jit/backend/x86/test/test_regloc.py:69 | the same for the 64-bit machine word: 0xFEDCBA9876543210 is held as the signed word with the same 64 bits |
| Bytes.LE | pypy/jit/backend/x86/test/test_regloc.py:52 | the n-byte little-endian field of a value (struct.pack "<i") has exactly n bytes |
| Bytes.FromLE | pypy/jit/backend/x86/test/test_regloc.py:52 | reading an n-byte little-endian field gives a value below 256^n |
| Bytes.FromLEOfLE | pypy/jit/backend/x86/test/test_regloc.py:52 | reading back an n-byte field gives the value modulo 256^n |
| Bytes.LECongruent | pypy/jit/backend/x86/test/test_regloc.py:51-52 | values congruent modulo 256^n have the same n-byte field, which is why the jump displacement may be taken modulo 2^32 |
| Bytes.LEInjective | pypy/jit/backend/x86/test/test_regloc.py:52 | two fields of one length that read back equal are equal |
| Bytes.SignedRoundTrip | pypy/jit/backend/x86/test/test_regloc.py:52 | a signed value that fits n bytes is recovered from its field by the signed reading |
| Registers.RegSplit | pypy/jit/backend/x86/test/test_regloc.py:28 | a register number is its low 3 bits plus 8 for the registers that need a REX extension bit (r13 = 5 + 8) |
| Encoding.PackFields | pypy/jit/backend/x86/test/test_regloc.py:20 | a ModRM/SIB byte packs 2+3+3 bits, and each field is recovered from it (0xD9 = 11 011 001) |
| Encoding.ChooseDisp | pypy/jit/backend/x86/test/test_regloc.py:28 | mod=00, with no displacement bytes, exactly for a zero displacement off a base whose low bits are not 101; mod=01, with one byte, exactly when the displacement fits a signed byte and is not that case; otherwise mod=10 with 4 bytes |
| Encoding.EncodeRm | pypy/jit/backend/x86/test/test_regloc.py:112-126 | the ModRM group is at least one byte, and in 32-bit mode needs no REX.X or REX.B |
| Encoding.Disp8RoundTrip | pypy/jit/backend/x86/test/test_regloc.py:82 | a disp8 reads back as the signed displacement it encodes |
| Encoding.Disp32RoundTrip | pypy/jit/backend/x86/test/test_regloc.py:52 | a disp32 reads back as the signed displacement it encodes |
| Encoding.ChosenDispRoundTrip | pypy/jit/backend/x86/test/test_regloc.py:28 | whichever displacement form is chosen, decoding it returns the displacement and its length (also line 82) |
| Encoding.EncodeRmRoundTrip | pypy/jit/backend/x86/test/test_regloc.py:80 | decoding the ModRM group of any valid register or memory operand gives back the register field, the operand and the length consumed (also lines 98, 112, 126) |
| Encoding.DirectRoundTrip | pypy/jit/backend/x86/test/test_regloc.py:20 | the register-direct form (mod=11) round-trips |
| Encoding.DecodePlainBase | pypy/jit/backend/x86/test/test_regloc.py:80 | a ModRM byte with a plain base register and no SIB decodes to [base + disp] |
| Encoding.DecodeSibBase | pypy/jit/backend/x86/test/test_regloc.py:112-126 | a SIB byte decodes to [base + index << scale + disp], and index 100 without REX.X means no index |
| Encoding.DecodeSibNoBase | pypy/jit/backend/x86/test/test_regloc.py:112 | a SIB byte with base 101 and mod=00 decodes to [index << scale + disp32], or to an absolute disp32 when there is no index |
| Encoding.AbsoluteRoundTrip | pypy/jit/backend/x86/test/test_regloc.py:157-167 | an absolute 32-bit address (SIB with no base and no index) round-trips |
| Encoding.BaseDispRoundTrip | pypy/jit/backend/x86/test/test_regloc.py:28 | [base + disp] round-trips for every base register, rsp/r12 and rbp/r13 included (also lines 80, 82) |
| Encoding.StackLikeBaseRoundTrip | pypy/jit/backend/x86/test/test_regloc.py:80 | a base whose low bits are 100 (rsp, r12) always gets a SIB byte, and round-trips |
| Encoding.PlainBaseRoundTrip | pypy/jit/backend/x86/test/test_regloc.py:28 | any other base needs no SIB byte, and round-trips (also line 80) |
| Encoding.BaseIndexRoundTrip | pypy/jit/backend/x86/test/test_regloc.py:112-126 | [base + index << scale + disp] round-trips |
| Encoding.IndexOnlyRoundTrip | pypy/jit/backend/x86/test/test_regloc.py:105 | [index << scale + disp32] with no base round-trips |
| Encoding.EbpLikeBaseForcesDisp8 | pypy/jit/backend/x86/test/test_regloc.py:28-38 | a zero displacement off rbp or r13 is still encoded as mod=01 with a 00 disp8 |
| Instructions.Rex | pypy/jit/backend/x86/test/test_regloc.py:24-28 | at most one REX byte, and none in 32-bit mode |
| Instructions.ImmBytes | pypy/jit/backend/x86/test/test_regloc.py:21 | a 16-bit immediate slot takes the signed or unsigned 16-bit reading and is 2 bytes; the other slots take a signed 32-bit value in 4 bytes; anything else is an error (also lines 27, 159) |
| Instructions.EncodeEachIndex | pypy/jit/backend/x86/test/test_regloc.py:76-84 | encoding a sequence encodes each instruction at its own position |
| Instructions.EncodeEachAppend | pypy/jit/backend/x86/test/test_regloc.py:76-84 | the encodings of a concatenation are the concatenation of the encodings |
| Instructions.JoinOk | pypy/jit/backend/x86/test/test_regloc.py:76-84 | joining the encodings succeeds exactly when every one of them succeeds |
| Instructions.JoinAppend | pypy/jit/backend/x86/test/test_regloc.py:76-84 | the joined bytes of a concatenation are the joined bytes of its parts, in order |
| Instructions.EncodeAllOk | pypy/jit/backend/x86/test/test_regloc.py:76-84 | a sequence of instructions encodes exactly when each instruction does |
| Instructions.EncodeAllAppend | pypy/jit/backend/x86/test/test_regloc.py:76-84 | a sequence of instructions encodes to the concatenation of the encodings of its parts |
| Instructions.EncodeSingle | pypy/jit/backend/x86/test/test_regloc.py:20 | a one-instruction sequence encodes to that instruction's bytes |
| Instructions.EncodeCons | pypy/jit/backend/x86/test/test_regloc.py:94-99 | an instruction followed by a sequence encodes to its bytes followed by the sequence's bytes |
| Instructions.ReadPrefixes | pypy/jit/backend/x86/test/test_regloc.py:28 | the prefix reader never consumes more than it is given |
| Instructions.RexFields | pypy/jit/backend/x86/test/test_regloc.py:78 | the W, R, X and B bits of a REX byte are each recovered from it (0x4A has W and X) (also line 126) |
| Instructions.BodyRoundTrip | pypy/jit/backend/x86/test/test_regloc.py:98 | opcode, ModRM group and immediate decode back to their fields and length |
| Instructions.ReadPrefixesOf | pypy/jit/backend/x86/test/test_regloc.py:28-38 | the operand-size prefix and then the REX byte are read back in that order |
| Instructions.OpRoundTripCore | pypy/jit/backend/x86/test/test_regloc.py:28 | prefixes followed by a body decode to the fields of both |
| Instructions.EncodeOpRoundTrip | pypy/jit/backend/x86/test/test_regloc.py:20-38 | every instruction the encoder accepts decodes back to its size, REX.W, opcode, register, operand and immediate, with its exact length (also lines 80-128) |
| Instructions.PrefixOrder | pypy/jit/backend/x86/test/test_regloc.py:28-38 | a 16-bit instruction starts with 66; a REX byte follows it exactly when 64-bit mode needs an extension bit, and it never has W set |
| Instructions.Reg16Form | pypy/jit/backend/x86/test/test_regloc.py:20-36 | MOV16 and CMP16 between legacy registers are 66 89 or 66 39 and ModRM 11/src/dst, the same in both modes and with no REX |
| Instructions.Mov16ImmForms | pypy/jit/backend/x86/test/test_regloc.py:21-27 | for every 16-bit immediate, MOV16 reg, imm is 66 B8+r in 32-bit mode and 66 C7 /0 in 64-bit mode, followed by 2 little-endian bytes |
| Instructions.Cmp16WideForm | pypy/jit/backend/x86/test/test_regloc.py:33-37 | CMP16 reg, imm is 66 81 /7 and 2 little-endian bytes in both modes for an immediate outside a signed byte |
| Instructions.Cmp16ByteForm | pypy/jit/backend/x86/test/test_regloc.py:33-37 | an immediate that fits a signed byte uses 66 83 /7 and one byte |
| Instructions.MovImm64Form | pypy/jit/backend/x86/test/test_regloc.py:77-78 | MOV reg, imm64 is REX.W(+B) B8+r and 8 little-endian bytes (49 BB for r11) |
| Instructions.MovMIWordForm | pypy/jit/backend/x86/test/test_regloc.py:153-216 | MOV qword [m], imm32 is REX.W C7 /0, the ModRM group and 4 little-endian bytes |
| Instructions.MovMIOp | pypy/jit/backend/x86/test/test_regloc.py:153-167 | that store is the generic operation form with opcode C7 and register field 0 |
| Instructions.OpWordForm | pypy/jit/backend/x86/test/test_regloc.py:98-126 | a word-sized operation is REX.W with R, X and B from the operands, then opcode, ModRM group and immediate |
| Instructions.NoRexIn32 | pypy/jit/backend/x86/test/test_regloc.py:20-33 | in 32-bit mode an operation is prefix, opcode, ModRM group and immediate, and an extended register is refused |
| Locations.Classify | pypy/jit/backend/x86/test/test_regloc.py:91 | an immediate, an absolute address and an address offset all end up within the machine word (also lines 105, 119, 136) |
| Locations.Resolve | pypy/jit/backend/x86/test/test_regloc.py:68-84 | in 32-bit mode there is no prelude and the session is unchanged; the reuse flag is kept and the session stays coherent; a wide absolute address needs no prelude exactly when r11 is known to lie within 32 bits of it; inside a session r11 is then known near the address and the access is [r11 + (addr - r11's value)] (also lines 88-149) |
| Locations.TempReg | pypy/jit/backend/x86/test/test_regloc.py:220-307 | the temporary is rax, else rdx, else rcx, and never a register of the address |
| Locations.AfterWrite | pypy/jit/backend/x86/test/test_regloc.py:68-84 | a MOV into r11 forgets what the session knew about r11 |
| Locations.SelectBinary | pypy/jit/backend/x86/test/test_regloc.py:88-149 | InvalidScratchUse exactly when the plan loads r11 while an operand names r11; otherwise the plan keeps the session's reuse flag and its record of r11 coherent (also lines 153-307) |
| Locations.NewBuilder | pypy/jit/backend/x86/test/test_regloc.py:70-90 | a new builder has no code and a closed session |
| Locations.Emit | pypy/jit/backend/x86/test/test_regloc.py:84 | emitting a plan succeeds exactly when its instructions encode, and appends their bytes |
| Locations.Binary | pypy/jit/backend/x86/test/test_regloc.py:72-73 | a successful operation appends at least one byte and keeps the code already written |
| Locations.Jmp | pypy/jit/backend/x86/test/test_regloc.py:40-59 | JMP to an immediate emits E9 and the little-endian 32-bit field of target - (address after the jump); it fails in 64-bit mode when that does not fit 32 bits |
| Locations.BeginReuse | pypy/jit/backend/x86/test/test_regloc.py:71 | a session opens with reuse set and r11 unknown, so the next wide absolute access loads r11 (also lines 133-135) |
| Locations.EndReuse | pypy/jit/backend/x86/test/test_regloc.py:74 | the session closes, and every later wide absolute access loads r11 afresh |
| Locations.ReuseNoReload | pypy/jit/backend/x86/test/test_regloc.py:68-84 | in a session, the first wide access loads r11, and a second one within 32 bits of it emits no reload and uses [r11 + delta] |
| Locations.AfterPushRegs | pypy/jit/backend/x86/test/test_regloc.py:220-307 | shifting an address for a push leaves its registers alone |
| Locations.EncodeNonEmpty | pypy/jit/backend/x86/test/test_regloc.py:20 | every instruction encodes to at least one byte |
| Locations.EncodeAllNonEmpty | pypy/jit/backend/x86/test/test_regloc.py:76-84 | every nonempty sequence of instructions encodes to at least one byte |
| Locations.JmpReaches | pypy/jit/backend/x86/test/test_regloc.py:40-59 | the jump is 5 bytes; in 32-bit mode its displacement, added to the next address, reaches the target modulo 2^32, and in 64-bit mode it reaches the target exactly |
| Semantics.StepWellFormed | pypy/jit/backend/x86/test/test_regloc.py:220-307 | one instruction keeps the machine well formed: 16 registers of 64 bits |
| Semantics.Run | pypy/jit/backend/x86/test/test_regloc.py:220-307 | running a sequence keeps the machine well formed |
| Semantics.RunAppend | pypy/jit/backend/x86/test/test_regloc.py:220-307 | running a concatenation runs its parts in turn |
| Semantics.WordCongruent | pypy/jit/backend/x86/test/test_regloc.py:69-91 | reducing an offset to the machine word does not change an address modulo 2^64 |
| Semantics.ClassifyAddress | pypy/jit/backend/x86/test/test_regloc.py:91 | the canonical address computed from a location denotes the same effective address (also lines 105, 119, 136) |
| Semantics.ResolveSound | pypy/jit/backend/x86/test/test_regloc.py:88-149 | after the prelude the rewritten operand denotes the original effective address; only r11 changed; the session's record of r11 holds |
| Semantics.ResolveAbsoluteSound | pypy/jit/backend/x86/test/test_regloc.py:88-100 | the same for an absolute address: [r11] or [r11 + delta] |
| Semantics.ResolveBasedSound | pypy/jit/backend/x86/test/test_regloc.py:116-128 | the same for base + offset: [base + r11] |
| Semantics.ResolveIndexedSound | pypy/jit/backend/x86/test/test_regloc.py:102-114 | the same for an indexed address: [r11 + index << scale], with LEA folding in the base when there is one (also lines 130-149) |
| Semantics.FoldBaseRun | pypy/jit/backend/x86/test/test_regloc.py:142-145 | mov r11, ofs; lea r11, [base + r11] leaves ofs + base in r11 and changes nothing else |
| Semantics.WideImmThroughTemp | pypy/jit/backend/x86/test/test_regloc.py:220-307 | a 64-bit immediate stored to a wide address: push T, mov T, imm, then the r11 prelude; the store goes to the original address (rsp-based ones shifted by the push); the pop restores T, rsp and the stack; only r11 differs |
| Semantics.SaveAndLoad | pypy/jit/backend/x86/test/test_regloc.py:229-232 | push T; mov T, imm saves T on the stack, lowers rsp by 8 and leaves the immediate in T |
| Semantics.TempRestored | pypy/jit/backend/x86/test/test_regloc.py:235-238 | the store and pop T leave T as it was saved and raise rsp by 8 |
| Semantics.PopRestoresRsp | pypy/jit/backend/x86/test/test_regloc.py:229-238 | lowering rsp by 8 and raising it by 8, modulo 2^64, gives rsp back |
| Semantics.PushShiftEA | pypy/jit/backend/x86/test/test_regloc.py:220-307 | after a push, the shifted address denotes what the original address denoted before it |
| Semantics.WideImmTempPlan | pypy/jit/backend/x86/test/test_regloc.py:220-307 | the plan for that store is exactly push, load, prelude, store, pop |
| Semantics.WideImmThroughScratch | pypy/jit/backend/x86/test/test_regloc.py:220-240 | the route beside the push route of the test, for an address that needs no r11: mov r11, imm, then the store of r11 to the original address; r11 ends up unknown |
| Semantics.WideCompare | pypy/jit/backend/x86/test/test_regloc.py:88-100 | the register-immediate counterpart of the CMP in the test with a wide address: CMP reg, imm64 loads the immediate into r11 and compares with it, and leaves the compared register alone |
| X86Vectors.Mov16RegReg32Plan | pypy/jit/backend/x86/test/test_regloc.py:20 | MOV16 cx, bx in 32-bit mode is the single register-register move |
| X86Vectors.Mov16RegReg32Case | pypy/jit/backend/x86/test/test_regloc.py:20 | the builder emits 66 89 D9 |
| X86Vectors.Mov16RegImm32Plan | pypy/jit/backend/x86/test/test_regloc.py:21 | MOV16 cx, 12345 in 32-bit mode is the single immediate move |
| X86Vectors.Mov16RegImm32Case | pypy/jit/backend/x86/test/test_regloc.py:21 | the builder emits 66 B9 39 30 |
| X86Vectors.Mov16RegReg64Plan | pypy/jit/backend/x86/test/test_regloc.py:24 | the same move in 64-bit mode needs nothing more |
| X86Vectors.Mov16RegReg64Case | pypy/jit/backend/x86/test/test_regloc.py:24 | the builder emits 66 89 D9 |
| X86Vectors.Mov16RegImm64Plan | pypy/jit/backend/x86/test/test_regloc.py:27 | MOV16 cx, 12345 in 64-bit mode is the single immediate move |
| X86Vectors.Mov16RegImm64Case | pypy/jit/backend/x86/test/test_regloc.py:27 | the builder emits 66 C7 C1 39 30 |
| X86Vectors.Mov16MemImmPlan | pypy/jit/backend/x86/test/test_regloc.py:28 | AddressLoc(r13, 0, 0, 0) is [r13 + 0], and the store needs no prelude |
| X86Vectors.Mov16MemImmCase | pypy/jit/backend/x86/test/test_regloc.py:28 | the builder emits 66 41 C7 45 00 39 30 |
| X86Vectors.Cmp16RegReg32Plan | pypy/jit/backend/x86/test/test_regloc.py:32 | CMP16 cx, bx in 32-bit mode is one register-register compare |
| X86Vectors.Cmp16RegReg32Case | pypy/jit/backend/x86/test/test_regloc.py:32 | the builder emits 66 39 D9 |
| X86Vectors.Cmp16RegImm32Plan | pypy/jit/backend/x86/test/test_regloc.py:33 | CMP16 cx, 12345 in 32-bit mode is one immediate compare |
| X86Vectors.Cmp16RegImm32Case | pypy/jit/backend/x86/test/test_regloc.py:33 | the builder emits 66 81 F9 39 30 |
| X86Vectors.Cmp16RegReg64Plan | pypy/jit/backend/x86/test/test_regloc.py:36 | the same compare in 64-bit mode |
| X86Vectors.Cmp16RegReg64Case | pypy/jit/backend/x86/test/test_regloc.py:36 | the builder emits 66 39 D9 |
| X86Vectors.Cmp16RegImm64Plan | pypy/jit/backend/x86/test/test_regloc.py:37 | CMP16 cx, 12345 in 64-bit mode is one immediate compare |
| X86Vectors.Cmp16RegImm64Case | pypy/jit/backend/x86/test/test_regloc.py:37 | the builder emits 66 81 F9 39 30 |
| X86Vectors.Cmp16MemImmPlan | pypy/jit/backend/x86/test/test_regloc.py:38 | CMP16 [r13], 12345 needs no prelude |
| X86Vectors.Cmp16MemImmCase | pypy/jit/backend/x86/test/test_regloc.py:38 | the builder emits 66 41 81 7D 00 39 30 |
| X86Vectors.JmpForwardWrapCase | pypy/jit/backend/x86/test/test_regloc.py:44-52 | JMP from 0x7FFFFF00 to intmask(0x800000BB) emits E9 B6 01 00 00 |
| X86Vectors.JmpBackwardWrapCase | pypy/jit/backend/x86/test/test_regloc.py:54-59 | JMP from intmask(0x800000BB) to 0x7FFFFF00 emits E9 40 FE FF FF |
| X86Vectors.ReuseFirstPlan | pypy/jit/backend/x86/test/test_regloc.py:71-72 | in a fresh session the first load from BASE_ADDR loads r11 and records its value |
| X86Vectors.ReuseSecondPlan | pypy/jit/backend/x86/test/test_regloc.py:73 | the load from BASE_ADDR + 8 is [r11 + 8] with no reload |
| X86Vectors.ReuseFirstBytes | pypy/jit/backend/x86/test/test_regloc.py:77-80 | the first access is 49 BB and the 8 address bytes, then 49 8B 0B |
| X86Vectors.ReuseScratchCase | pypy/jit/backend/x86/test/test_regloc.py:68-84 | the whole session emits 49 BB 10 32 54 76 98 BA DC FE, 49 8B 0B, 49 8B 4B 08 |
| X86Vectors.Address1Plan | pypy/jit/backend/x86/test/test_regloc.py:91 | CMP rcx, [BASE_ADDR] loads r11 and compares with [r11] |
| X86Vectors.Address1Case | pypy/jit/backend/x86/test/test_regloc.py:88-100 | the builder emits the r11 load, then 49 3B 0B |
| X86Vectors.Address2Plan | pypy/jit/backend/x86/test/test_regloc.py:105 | MOV rcx, [BASE_ADDR + rdx*8] loads r11 and uses [r11 + rdx*8] |
| X86Vectors.Address2Case | pypy/jit/backend/x86/test/test_regloc.py:102-114 | the builder emits the r11 load, then 49 8B 0C D3 |
| X86Vectors.Address3Plan | pypy/jit/backend/x86/test/test_regloc.py:119 | MOV rcx, [rdx + BASE_ADDR] loads r11 and uses [rdx + r11] |
| X86Vectors.Address3Case | pypy/jit/backend/x86/test/test_regloc.py:116-128 | the builder emits the r11 load, then 4A 8B 0C 1A |
| X86Vectors.Address4Plan | pypy/jit/backend/x86/test/test_regloc.py:133-138 | in a session, MOV rcx, [rdx + rsi*4 + BASE_ADDR] loads r11, folds rdx in with LEA, uses [r11 + rsi*4], and leaves r11 unknown |
| X86Vectors.Address4Case | pypy/jit/backend/x86/test/test_regloc.py:130-149 | the builder emits the r11 load, the LEA and the MOV of that example |
| X86Vectors.Immed32Address1Plan | pypy/jit/backend/x86/test/test_regloc.py:157 | MOV [BASE_ADDR], IMMED32 loads r11 and stores to [r11] |
| X86Vectors.Immed32Address1Case | pypy/jit/backend/x86/test/test_regloc.py:153-167 | the builder emits the bytes of that example |
| X86Vectors.Immed32Address2Plan | pypy/jit/backend/x86/test/test_regloc.py:173 | MOV [BASE_ADDR + rdx*8], IMMED32 stores to [r11 + rdx*8] |
| X86Vectors.Immed32Address2Case | pypy/jit/backend/x86/test/test_regloc.py:169-183 | the builder emits the bytes of that example |
| X86Vectors.Immed32Address3Plan | pypy/jit/backend/x86/test/test_regloc.py:189 | MOV [rdx + BASE_ADDR], IMMED32 stores to [rdx + r11] |
| X86Vectors.Immed32Address3Case | pypy/jit/backend/x86/test/test_regloc.py:185-199 | the builder emits the bytes of that example |
| X86Vectors.Immed32Address4Plan | pypy/jit/backend/x86/test/test_regloc.py:205 | MOV [rdx + rsi*4 + BASE_ADDR], IMMED32 folds rdx with LEA and stores to [r11 + rsi*4] |
| X86Vectors.Immed32Address4Case | pypy/jit/backend/x86/test/test_regloc.py:201-216 | the builder emits the bytes of that example |
| X86Vectors.StoreImm32AbsForm | pypy/jit/backend/x86/test/test_regloc.py:161-166 | for every 32-bit immediate, MOV qword [r11], imm32 is 49 C7 03 and the 4 immediate bytes |
| X86Vectors.StoreImm32ScaledForm | pypy/jit/backend/x86/test/test_regloc.py:177-182 | for every 32-bit immediate, MOV qword [r11 + rdx*8], imm32 is 49 C7 04 D3 and the 4 immediate bytes |
| X86Vectors.StoreImm32BasedForm | pypy/jit/backend/x86/test/test_regloc.py:193-198 | for every 32-bit immediate, MOV qword [rdx + r11], imm32 is 4A C7 04 1A and the 4 immediate bytes |
| X86Vectors.StoreImm32FoldedForm | pypy/jit/backend/x86/test/test_regloc.py:209-215 | for every 32-bit immediate, MOV qword [r11 + rsi*4], imm32 is 49 C7 04 B3 and the 4 immediate bytes |
| X86Vectors.Immed64Address1Plan | pypy/jit/backend/x86/test/test_regloc.py:224 | MOV [BASE_ADDR], IMMED64: push rax, mov rax, imm64, load r11, store rax to [r11], pop rax |
| X86Vectors.Immed64Address1Case | pypy/jit/backend/x86/test/test_regloc.py:220-240 | the builder emits the bytes of that example |
| X86Vectors.Immed64Address2Plan | pypy/jit/backend/x86/test/test_regloc.py:246 | MOV [BASE_ADDR + rdx*8], IMMED64 uses rax as the temporary |
| X86Vectors.Immed64Address2Case | pypy/jit/backend/x86/test/test_regloc.py:242-262 | the builder emits the bytes of that example |
| X86Vectors.Immed64Address3Plan | pypy/jit/backend/x86/test/test_regloc.py:268 | MOV [rax + BASE_ADDR], IMMED64 uses rdx, because the address names rax |
| X86Vectors.Immed64Address3Case | pypy/jit/backend/x86/test/test_regloc.py:264-284 | the builder emits the bytes of that example |
| X86Vectors.Immed64Address4Plan | pypy/jit/backend/x86/test/test_regloc.py:290 | MOV [rdx + rax*4 + BASE_ADDR], IMMED64 uses rcx, and folds rdx with LEA |
| X86Vectors.Immed64Address4Case | pypy/jit/backend/x86/test/test_regloc.py:286-307 | the builder emits the bytes of that example |
| CliFile.GetFileAccess | pypy/translator/cli/src/ll_os.cs:188-193 | ReadWrite exactly when O_RDWR is set; Write exactly when O_WRONLY is set without O_RDWR; Read otherwise |
| CliFile.GetFileMode | pypy/translator/cli/src/ll_os.cs:195-200 | precedence APPEND, then TRUNC (Create), then CREAT (OpenOrCreate), then Open, each stated both ways |
| CliFile.GetFlavour | pypy/translator/cli/src/ll_os.cs:220-223 | CRLF translation exactly when O_BINARY is clear and the platform newline is "\r\n" |
| CliFile.FlagsRoundTrip | pypy/translator/cli/src/ll_os.cs:151-158 | the flag word built from an access, a mode and a binary choice decodes back to all three (also lines 188-200, 220-223) |
| CliFile.CrlfEncode | pypy/translator/cli/src/ll_os.cs:89-96 | the CRLF write emits one byte per character plus one per newline |
| CliFile.CrlfEncodeAppend | pypy/translator/cli/src/ll_os.cs:91-95 | the write proceeds character by character: encoding a concatenation concatenates the encodings |
| CliFile.Taken | pypy/translator/cli/src/ll_os.cs:102-105 | a read takes no more bytes than the input holds, nor more than a nonnegative count |
| CliFile.CrlfDecode | pypy/translator/cli/src/ll_os.cs:98-116 | the CRLF read returns no more characters than bytes it takes, plus a CR held over |
| CliFile.DecodeCrLf | pypy/translator/cli/src/ll_os.cs:106-112 | CR LF decodes to one newline |
| CliFile.DecodeLoneCr | pypy/translator/cli/src/ll_os.cs:109-111 | CR followed by an ordinary byte decodes to CR and that byte |
| CliFile.DecodeCrCr | pypy/translator/cli/src/ll_os.cs:106-107 | CR CR loses the first CR, and the second is held back |
| CliFile.DecodeTrailingCr | pypy/translator/cli/src/ll_os.cs:102-107 | a CR held back when the input or the count runs out is not emitted |
| CliFile.DecodeOrdinary | pypy/translator/cli/src/ll_os.cs:108-112 | a byte other than CR, with no CR pending, reads as itself |
| CliFile.CrlfRoundTrip | pypy/translator/cli/src/ll_os.cs:89-116 | text with no CR and only 8-bit characters reads back unchanged from what the CRLF write produced |
| CliFile.CrlfReadLoop | pypy/translator/cli/src/ll_os.cs:98-116 | the loop as written computes the decoding, consumes exactly the bytes it takes, and returns at most count characters |
| CliFile.DecodeStep | pypy/translator/cli/src/ll_os.cs:102-113 | one loop iteration moves one byte from the input to the text |
| CliFile.BinaryEncode | pypy/translator/cli/src/ll_os.cs:125-129 | the binary write emits one byte per character |
| CliFile.BinaryDecode | pypy/translator/cli/src/ll_os.cs:131-139 | the binary read returns one character per byte read |
| CliFile.BinaryRoundTrip | pypy/translator/cli/src/ll_os.cs:125-139 | 8-bit text reads back unchanged from a binary write |
| CliFile.Init | pypy/translator/cli/src/ll_os.cs:164-174 | the table starts with the console descriptors 0, 1, 2 and the counter at 2 |
| CliFile.OpenStream | pypy/translator/cli/src/ll_os.cs:209-215 | the FileStream constructor: ENOENT exactly for Open of a missing file; success leaves the other files alone |
| CliFile.OsOpen | pypy/translator/cli/src/ll_os.cs:202-228 | open returns fdcount + 1, advances the counter to it, and adds only that descriptor |
| CliFile.GetFd | pypy/translator/cli/src/ll_os.cs:181-186 | the lookup succeeds exactly for a descriptor in the table; otherwise the dictionary raises |
| CliFile.OsClose | pypy/translator/cli/src/ll_os.cs:230-235 | close of a disk descriptor removes exactly that descriptor; a console descriptor has a null stream |
| CliFile.WriteAt | pypy/translator/cli/src/ll_os.cs:91-128 | bytes written at a position replace the bytes there, extend the file if needed, and leave the rest alone |
| CliFile.OsWrite | pypy/translator/cli/src/ll_os.cs:34-39 | write returns the buffer length and keeps the descriptors, the counter and the set of files; EBADF exactly for stdin or a disk stream without write access (also lines 68-73, 237-241) |
| CliFile.OsRead | pypy/translator/cli/src/ll_os.cs:41-48 | read returns at most count characters, and a negative count fails; the descriptors, the disk and the counter are kept; EBADF exactly for a disk stream without read access (also lines 75-80, 261-264) |
| CliFile.OsReadLong | pypy/translator/cli/src/ll_os.cs:256-259 | the long overload behaves as the int one for a count within 32 bits; otherwise it returns no more characters than the low 32 bits of the count allow; EBADF as for read |
| CliFile.LongReadTruncates | pypy/translator/cli/src/ll_os.cs:256-259 | a count of 2^32 + 5 reads 5 characters |
| CliFile.Whence | pypy/translator/cli/src/ll_os.cs:315-327 | whence 1 is Current, 2 is End, any other value Begin |
| CliFile.OsLseek | pypy/translator/cli/src/ll_os.cs:313-330 | a successful seek sets and returns a nonnegative position and keeps the table; a console descriptor has a null stream |
| CliFile.OperationsKeepInv | pypy/translator/cli/src/ll_os.cs:170-173 | every successful operation keeps the table invariant: the consoles at 0..2, disk descriptors above 2 and at most the counter, streams naming existing files (also lines 225-227, 234) |
| CliFile.OpenKeepsInv | pypy/translator/cli/src/ll_os.cs:225-227 | open keeps the invariant |
| CliFile.CloseKeepsInv | pypy/translator/cli/src/ll_os.cs:234 | close keeps the invariant |
| CliFile.WriteKeepsInv | pypy/translator/cli/src/ll_os.cs:237-241 | write keeps the invariant |
| CliFile.ReadKeepsInv | pypy/translator/cli/src/ll_os.cs:261-264 | read keeps the invariant |
| CliFile.SeekKeepsInv | pypy/translator/cli/src/ll_os.cs:313-330 | lseek keeps the invariant |
| CliFile.OpenIsFresh | pypy/translator/cli/src/ll_os.cs:225-227 | a new descriptor is above 2 and above every descriptor in use, so it is never a reused one |
| CliFile.Apply | pypy/translator/cli/src/ll_os.cs:225-227 | only open moves the counter, by one, and returns the new value |
| CliFile.RunCalls | pypy/translator/cli/src/ll_os.cs:145 | over any sequence of calls the counter never decreases and the invariant holds (also lines 225-227) |
| CliFile.DescriptorsIncrease | pypy/translator/cli/src/ll_os.cs:225-227 | the descriptors returned by the opens of a call sequence strictly increase and lie above the starting counter |
| CliFile.SeekComposes | pypy/translator/cli/src/ll_os.cs:321-329 | two seeks from the current position compose into one by the sum |
| CliFile.SeekTargets | pypy/translator/cli/src/ll_os.cs:315-329 | whence 0 goes to the offset, whence 2 with offset 0 to the end, an unknown whence behaves as 0 |
| CliFile.OpenTruncated | pypy/translator/cli/src/ll_os.cs:197-228 | O_RDWR, O_CREAT and O_TRUNC together give an empty file at position 0 of the expected flavour |
| CliFile.WriteSeekRead | pypy/translator/cli/src/ll_os.cs:89-139 | writing a plain text, seeking to 0 and reading the bytes written gives the text back, in either flavour (also lines 237-264, 313-330) |
| Deque.KeepLast | pypy/module/_collections/test/test_deque.py:32-36 | the last `bound` elements: a suffix, as long as the bound when longer, the whole sequence otherwise |
| Deque.KeepFirst | pypy/module/_collections/test/test_deque.py:37-38 | the first `bound` elements, likewise |
| Deque.Reversed | pypy/module/_collections/test/test_deque.py:135-172 | the elements back to front |
| Deque.New | pypy/module/_collections/test/test_deque.py:30-60 | a negative maxlen raises ValueError; otherwise the deque is within its bound and keeps the maxlen given |
| Deque.NewItems | pypy/module/_collections/test/test_deque.py:32-48 | building with a bound keeps the last elements |
| Deque.Append | pypy/module/_collections/test/test_deque.py:12-43 | append adds at the right and evicts from the left beyond the bound |
| Deque.AppendLeft | pypy/module/_collections/test/test_deque.py:14-38 | appendleft adds at the left and evicts from the right beyond the bound |
| Deque.Pop | pypy/module/_collections/test/test_deque.py:23-26 | pop removes and returns the rightmost element; on an empty deque it raises IndexError (also lines 210-214) |
| Deque.PopLeft | pypy/module/_collections/test/test_deque.py:19-21 | popleft removes and returns the leftmost element; on an empty deque it raises IndexError (also lines 208-214) |
| Deque.Clear | pypy/module/_collections/test/test_deque.py:219-221 | clear leaves an empty deque with the same bound |
| Deque.PushPopInverse | pypy/module/_collections/test/test_deque.py:8-26 | below the bound, append then pop, or appendleft then popleft, gives back the element and the deque |
| Deque.PopPushInverse | pypy/module/_collections/test/test_deque.py:8-26 | pop then append, or popleft then appendleft, gives back the contents (also line 72) |
| Deque.FullEvicts | pypy/module/_collections/test/test_deque.py:37-42 | a full deque drops the first element on append and the last on appendleft |
| Deque.ZeroStaysEmpty | pypy/module/_collections/test/test_deque.py:44-53 | with maxlen 0 every add leaves the deque empty |
| Deque.Extend | pypy/module/_collections/test/test_deque.py:113-119 | extend keeps maxlen and never lowers the mutation counter |
| Deque.ExtendLeft | pypy/module/_collections/test/test_deque.py:131-137 | extendleft keeps maxlen and never lowers the mutation counter |
| Deque.ExtendKeepsBound | pypy/module/_collections/test/test_deque.py:39-40 | extend keeps the deque within its bound |
| Deque.ExtendItems | pypy/module/_collections/test/test_deque.py:39-40 | extend is the last `maxlen` elements of contents followed by the new ones (also lines 113-119) |
| Deque.ExtendLeftItems | pypy/module/_collections/test/test_deque.py:41-42 | extendleft is the first `maxlen` elements of the reversed new ones followed by the contents (also lines 131-137) |
| Deque.ExtendWithItself | pypy/module/_collections/test/test_deque.py:118-137 | extending with itself reads a snapshot: the contents doubled, or reversed and then the contents |
| Deque.KeepLastConcat | pypy/module/_collections/test/test_deque.py:39-40 | trimming to the bound in between does not change the final trim |
| Deque.KeepFirstConcat | pypy/module/_collections/test/test_deque.py:41-42 | the same for the left end |
| Deque.Rotated | pypy/module/_collections/test/test_deque.py:184-202 | the reference rotation keeps the length |
| Deque.RotatedIndex | pypy/module/_collections/test/test_deque.py:184-202 | position p of a rotation by k holds element (p - k) mod n |
| Deque.RotatedAdd | pypy/module/_collections/test/test_deque.py:193-197 | rotations compose by adding their counts |
| Deque.RotatedMod | pypy/module/_collections/test/test_deque.py:199-202 | only the count modulo the length matters, in either direction |
| Deque.RotatedStep | pypy/module/_collections/test/test_deque.py:189-195 | rotate(1) moves the last element to the front, rotate(-1) the first to the back |
| Deque.RotateInverse | pypy/module/_collections/test/test_deque.py:193-197 | rotate(k) then rotate(-k) is the identity |
| Deque.RotatedIndexAll | pypy/module/_collections/test/test_deque.py:184-202 | every position of a rotation by k holds the element k places before it, cyclically |
| Deque.Rotate | pypy/module/_collections/test/test_deque.py:184-202 | rotate keeps the bound and the elements, puts at position p the element k places before it cyclically (the reference rotation), and bumps the mutation counter |
| Deque.ReducedCount | pypy/module/_collections/test/test_deque.py:199-202 | the reduced count names the same rotation and is at most half the length either way |
| Deque.RotateSteps | pypy/module/_collections/test/test_deque.py:184-202 | rotate by single pop/appendleft or popleft/append steps equals the reference rotation, in at most half the length of steps |
| Deque.StepsRight | pypy/module/_collections/test/test_deque.py:190-191 | n pop/appendleft steps rotate by n |
| Deque.StepsLeft | pypy/module/_collections/test/test_deque.py:194-195 | n popleft/append steps rotate by -n |
| Deque.RightStep | pypy/module/_collections/test/test_deque.py:190-191 | one pop and appendleft rotates one step further right |
| Deque.LeftStep | pypy/module/_collections/test/test_deque.py:194-195 | one popleft and append rotates one step further left |
| Deque.Reverse | pypy/module/_collections/test/test_deque.py:168-182 | reverse puts element i at position n - 1 - i and keeps the bound |
| Deque.ReverseInvolution | pypy/module/_collections/test/test_deque.py:176-182 | reversing twice gives the contents back |
| Deque.Position | pypy/module/_collections/test/test_deque.py:144-147 | an index j is valid exactly for -n <= j < n, and names position j or j + n |
| Deque.GetItem | pypy/module/_collections/test/test_deque.py:139-147 | d[j] is the element at that position; other j raise IndexError |
| Deque.SetItem | pypy/module/_collections/test/test_deque.py:149-160 | d[j] = x changes only the addressed position |
| Deque.DelItem | pypy/module/_collections/test/test_deque.py:162-166 | del d[j] removes only the addressed position |
| Deque.IndexingAgrees | pypy/module/_collections/test/test_deque.py:144-160 | a negative index addresses the same element as j + n, and a stored element reads back |
| Deque.FirstIndex | pypy/module/_collections/test/test_deque.py:223-231 | the position of the first equal element |
| Deque.Remove | pypy/module/_collections/test/test_deque.py:223-231 | remove deletes only the first equal element; ValueError exactly when there is none |
| Deque.RemoveOne | pypy/module/_collections/test/test_deque.py:223-229 | remove takes exactly one copy of the element out of the multiset |
| Deque.Count | pypy/module/_collections/test/test_deque.py:80-86 | count(x) is the multiplicity of x |
| Deque.Next | pypy/module/_collections/test/test_deque.py:63-78 | next() raises RuntimeError exactly when the deque changed since the iterator was made; otherwise it yields the element at its position |
| Deque.DrainYieldsItems | pypy/module/_collections/test/test_deque.py:16-21 | an iterator over an unchanged deque yields its contents in order |
| Deque.MutationInvalidates | pypy/module/_collections/test/test_deque.py:63-78 | after pop, append, appendleft, popleft, or append(pop()), a live iterator raises RuntimeError |
| Deque.MaxlenBuildExample | pypy/module/_collections/test/test_deque.py:30-36 | deque(range(10), maxlen=3) holds 7, 8, 9, and maxlen -1 raises ValueError |
| Deque.MaxlenAppendLeftExample | pypy/module/_collections/test/test_deque.py:37-38 | appendleft(3) gives 3, 7, 8 |
| Deque.MaxlenExtendExample | pypy/module/_collections/test/test_deque.py:39-40 | extend([20, 21]) gives 8, 20, 21 |
| Deque.MaxlenExtendLeftExample | pypy/module/_collections/test/test_deque.py:41-42 | extendleft([-7, -6]) gives -6, -7, 8 |
| Deque.RotateExample | pypy/module/_collections/test/test_deque.py:184-202 | the rotations of 'abcde' by 1, -1, 500000002 and -5000002 |
| Deque.RemoveFirstExample | pypy/module/_collections/test/test_deque.py:225-227 | remove('c') on 'abcdefghcij' gives 'abdefghcij' |
| Deque.RemoveSecondExample | pypy/module/_collections/test/test_deque.py:228-229 | a second remove('c') gives 'abdefghij' |
| Deque.RemoveAbsentExample | pypy/module/_collections/test/test_deque.py:230-231 | a third raises ValueError |
| Deque.ExtendExample | pypy/module/_collections/test/test_deque.py:115-117 | deque('a').extend('bcd') is 'abcd' |
| Deque.ExtendUnbounded | pypy/module/_collections/test/test_deque.py:113-119 | without a bound, extend appends every element |
| Deque.ExtendSelfExample | pypy/module/_collections/test/test_deque.py:118-119 | extending 'abcd' with itself gives 'abcdabcd' |
| Deque.ExtendLeftExample | pypy/module/_collections/test/test_deque.py:131-137 | extendleft('bcd') on 'a' gives 'dcba', and extending that on the left with itself gives 'abcddcba' |
| Deque.DelItemExample | pypy/module/_collections/test/test_deque.py:162-166 | del d[-2] on 'abcdef' gives 'abcdf' |
| Deque.LenExample | pypy/module/_collections/test/test_deque.py:204-214 | 'ab' after popleft and pop is empty, and both pops then raise IndexError |
| TaskEngine.Wanted | pypy/translator/tool/test/test_taskengine.py:10-36 | a dependency is wanted exactly when it is mandatory, or suggested and not skipped |
| TaskEngine.Subgoals | pypy/translator/tool/test/test_taskengine.py:10-18 | the subgoals of a task are exactly the dependencies it needs under the skip set |
| TaskEngine.EffectiveSkip | pypy/translator/tool/test/test_taskengine.py:99-101 | a skipped task that is itself a goal is not skipped |
| TaskEngine.Visit | pypy/translator/tool/test/test_taskengine.py:33-36 | visiting a task extends the plan so far, includes the task, keeps it duplicate-free and dependency-ordered |
| TaskEngine.VisitAll | pypy/translator/tool/test/test_taskengine.py:33-36 | the same for a list of tasks, each of which ends up in the plan |
| TaskEngine.Plan | pypy/translator/tool/test/test_taskengine.py:33-36 | a successful plan is duplicate-free, lists every goal, and puts every needed dependency before its dependent (also lines 96-101); PlanSucceeds and PlanRanks say when it succeeds, PlanErrors what its errors mean |
| TaskEngine.PlanLeast | pypy/translator/tool/test/test_taskengine.py:33-36 | a plan holds nothing outside any dependency-closed set that contains the goals |
| TaskEngine.PlanClosed | pypy/translator/tool/test/test_taskengine.py:33-36 | the tasks of a plan are closed under needed dependencies |
| TaskEngine.PlanSucceeds | pypy/translator/tool/test/test_taskengine.py:33-36 | planning succeeds whenever the goals can be ranked: every ranked task is known and needs only lower-ranked tasks |
| TaskEngine.VisitSucceeds | pypy/translator/tool/test/test_taskengine.py:33-36 | a ranked task ranked below everything on the path is visited without error |
| TaskEngine.VisitAllSucceeds | pypy/translator/tool/test/test_taskengine.py:33-36 | a list of such tasks is visited without error |
| TaskEngine.Positions | pypy/translator/tool/test/test_taskengine.py:33-36 | each task of a duplicate-free plan maps to its position, and only those tasks |
| TaskEngine.PlanRanks | pypy/translator/tool/test/test_taskengine.py:33-36 | a successful plan ranks its tasks by position and ranks every goal, so a ranking exists exactly when planning succeeds |
| TaskEngine.PlanErrors | pypy/translator/tool/test/test_taskengine.py:33-36 | a planning error names a task the goals reach; UnknownTask names a task missing from the graph; Circular names a task that needs itself through a chain of needs |
| TaskEngine.VisitErrors | pypy/translator/tool/test/test_taskengine.py:33-36 | the same for one visit whose path is a chain of needs ending at the visited task |
| TaskEngine.VisitAllErrors | pypy/translator/tool/test/test_taskengine.py:33-36 | the same for visiting a list of tasks the top of the chain needs |
| TaskEngine.CycleFromStack | pypy/translator/tool/test/test_taskengine.py:33-36 | meeting a task again on the path closes a cycle of needs through it |
| TaskEngine.PlanEndsWithGoal | pypy/translator/tool/test/test_taskengine.py:33-35 | the plan of a single goal ends with that goal |
| TaskEngine.DependingOn | pypy/translator/tool/test/test_taskengine.py:38-44 | the direct dependents of t are exactly the tasks listing t as a mandatory dependency |
| TaskEngine.NextLayer | pypy/translator/tool/test/test_taskengine.py:46-52 | one more layer of dependents, not yet seen |
| TaskEngine.Explore | pypy/translator/tool/test/test_taskengine.py:46-52 | the exploration keeps what it has seen and ends closed under dependents |
| TaskEngine.DependingOnClosure | pypy/translator/tool/test/test_taskengine.py:46-52 | the closure contains t and is closed under dependents |
| TaskEngine.ExploreLeast | pypy/translator/tool/test/test_taskengine.py:46-52 | the exploration stays inside every dependents-closed set containing what it started from |
| TaskEngine.ClosureLeast | pypy/translator/tool/test/test_taskengine.py:46-52 | the closure is the least set containing t and closed under dependents |
| TaskEngine.Bracketed | pypy/translator/tool/test/test_taskengine.py:86-90 | the trace of a run: ('pre', t), t, ('post', t) for each task in order |
| TaskEngine.RunPlan | pypy/translator/tool/test/test_taskengine.py:76-84 | running a plan succeeds exactly when no task in it fails, and a failure names a failing task of the plan |
| TaskEngine.Execute | pypy/translator/tool/test/test_taskengine.py:79-84 | execute plans first; a planning error runs nothing and is reported; success means the plan succeeded and none of its tasks failed |
| TaskEngine.RunPlanTrace | pypy/translator/tool/test/test_taskengine.py:76-90 | the tasks before the first failing one run bracketed; the failing one is announced and then reported |
| TaskEngine.ExecuteTrace | pypy/translator/tool/test/test_taskengine.py:92-101 | with no failures, the trace of execute is the bracketed plan |
| TaskEngine.AbcShaped | pypy/translator/tool/test/test_taskengine.py:5-29 | the example graph: B has no subgoals, C needs B, A needs B and (unless skipped) C |
| TaskEngine.PlanB | pypy/translator/tool/test/test_taskengine.py:33 | the plan of B is [B] |
| TaskEngine.PlanC | pypy/translator/tool/test/test_taskengine.py:34 | the plan of C is [B, C] |
| TaskEngine.PlanA | pypy/translator/tool/test/test_taskengine.py:35 | the plan of A is [B, C, A] |
| TaskEngine.PlanSkipExample | pypy/translator/tool/test/test_taskengine.py:36 | the plan of A skipping C is [B, A] |
| TaskEngine.PlanBC | pypy/translator/tool/test/test_taskengine.py:96 | the plan of [B, C] is [B, C] |
| TaskEngine.PlanCB | pypy/translator/tool/test/test_taskengine.py:97 | the plan of [C, B] is [B, C]: ordered by dependency, not by goal order |
| TaskEngine.PlanBA | pypy/translator/tool/test/test_taskengine.py:98 | the plan of [B, A] is [B, C, A] |
| TaskEngine.PlanBASkipC | pypy/translator/tool/test/test_taskengine.py:99 | the plan of [B, A] skipping C is [B, A] |
| TaskEngine.PlanSkippedGoalExamples | pypy/translator/tool/test/test_taskengine.py:100-101 | the plan of [B, A, C] is [B, C, A] whether or not C is skipped, because C is a goal |
| TaskEngine.DependingOnExamples | pypy/translator/tool/test/test_taskengine.py:38-44 | the dependents of C, A and D are empty, of B are A and C, of F is E, of E is D |
| TaskEngine.AbcUpClosed | pypy/translator/tool/test/test_taskengine.py:46-52 | {A, B, C}, {A, C} and {D, E, F} are closed under dependents |
| TaskEngine.ClosureOfC | pypy/translator/tool/test/test_taskengine.py:46 | the closure of C is {C} |
| TaskEngine.ClosureOfB | pypy/translator/tool/test/test_taskengine.py:47 | the closure of B is {A, B, C} |
| TaskEngine.ClosureOfF | pypy/translator/tool/test/test_taskengine.py:50 | the closure of F is {D, E, F} |
| TaskEngine.ClosureOfADE | pypy/translator/tool/test/test_taskengine.py:48-52 | the closure of A is {A}, of D is {D}, and of E is {D, E} |
| TaskEngine.ExecuteExamples | pypy/translator/tool/test/test_taskengine.py:94-101 | the traces of executing A, A skipping C, [C, B], and [B, A, C] skipping C |
| TaskEngine.RunFailureExample | pypy/translator/tool/test/test_taskengine.py:76-90 | when C fails in the plan [B, C, A], B runs bracketed, C is announced, and A never starts |
| TaskEngine.ExecuteFailureExample | pypy/translator/tool/test/test_taskengine.py:94 | the same through execute of A |
| EnumExceptions.Preorder | pypy/tool/_enum_exceptions.py:9-15 | the depth-first walk of a class and its bases starts with the class and stays among earlier classes |
| EnumExceptions.FirstIndex | pypy/tool/_enum_exceptions.py:12-15 | the first position on a walk whose class holds the name, or None exactly when none does |
| EnumExceptions.ClassOfAttribute | pypy/tool/_enum_exceptions.py:9-15 | the class itself when its own dict holds the name; any class found holds the name |
| EnumExceptions.FirstHit | pypy/tool/_enum_exceptions.py:12-15 | the first hit over the bases in order holds the name |
| EnumExceptions.FirstIndexConcat | pypy/tool/_enum_exceptions.py:12-15 | the first hit on a concatenation is the first hit on its first part, else on its second |
| EnumExceptions.ClassOfAttributeIsFirstInPreorder | pypy/tool/_enum_exceptions.py:9-15 | the lookup returns the first class on the left-to-right depth-first walk that holds the name |
| EnumExceptions.FirstHitIsFirstInPreorder | pypy/tool/_enum_exceptions.py:12-15 | the same for the loop over the bases |
| EnumExceptions.ClassOfAttributeNone | pypy/tool/_enum_exceptions.py:9-15 | the lookup gives None exactly when no class on the walk holds the name |
| EnumExceptions.GetAttributes | pypy/tool/_enum_exceptions.py:17-18 | exactly the names not in the ignore list, each as often as it occurs; the order is given by GetAttributesConcat and GetAttributesOne |
| EnumExceptions.GetAttributesConcat | pypy/tool/_enum_exceptions.py:17-18 | filtering a concatenation filters each part and keeps their order, as the comprehension keeps the order of dir() |
| EnumExceptions.GetAttributesOne | pypy/tool/_enum_exceptions.py:17-18 | a single name is kept exactly when it is not ignored |
| EnumExceptions.GetAttributesIdempotent | pypy/tool/_enum_exceptions.py:17-18 | filtering twice is filtering once |
| EnumExceptions.AppendBasesFirst | pypy/tool/_enum_exceptions.py:29-32 | appending a class whose bases are all listed keeps every class after its bases |
| EnumExceptions.EnumerateOne | pypy/tool/_enum_exceptions.py:27-32 | enumerateOne lists the class after its bases, only classes of its walk, each once |
| EnumExceptions.EnumerateBases | pypy/tool/_enum_exceptions.py:29-31 | the loop over the bases lists every base, keeping the order and the invariant |
| EnumExceptions.EnumerateBase | pypy/tool/_enum_exceptions.py:30-31 | one base is listed, enumerated if not yet seen |
| EnumExceptions.EnumerateValue | pypy/tool/_enum_exceptions.py:34-37 | a class value of the module is enumerated; any other value is skipped |
| EnumExceptions.EnumFrom | pypy/tool/_enum_exceptions.py:34-37 | the loop over the module's values lists every class value |
| EnumExceptions.EnumInOrder | pypy/tool/_enum_exceptions.py:22-39 | the ordering lists every class once, after all of its bases, and lists every class value of the module |
| EnumExceptions.EnumInOrderExact | pypy/tool/_enum_exceptions.py:22-39 | a class is listed exactly when it is reachable from the module's class values through bases |
| EnumExceptions.Combine | pypy/tool/_enum_exceptions.py:150-152 | one level of the product: len(items) * len(others) tuples, exactly an item followed by a tuple of the rest |
| EnumExceptions.Cartesian | pypy/tool/_enum_exceptions.py:143-152 | as many tuples as the product of the lengths, and exactly the tuples drawing position i from argument i (one empty tuple for no arguments) |
| EnumExceptions.CombineAt | pypy/tool/_enum_exceptions.py:150-152 | the tuple at position i * len(others) + j is item i followed by other j |
| EnumExceptions.CartesianOrder | pypy/tool/_enum_exceptions.py:150-152 | the first position varies slowest |
| EnumExceptions.CartesianOneAgrees | pypy/tool/_enum_exceptions.py:146-148 | the one-argument branch yields what the general step would |
| EnumExceptions.GetItem | pypy/tool/_enum_exceptions.py:121-126 | `__getitem__` records the index once, even when it raises; IndexError exactly when idx > maxprobe; otherwise "arg<pos>_<idx>" |
| EnumExceptions.GetItemRecordsOnce | pypy/tool/_enum_exceptions.py:122-123 | asking for the same index again records nothing more |
| EnumExceptions.ProbeNameInjective | pypy/tool/_enum_exceptions.py:126 | different positions or indices give different names |
| EnumExceptions.RefreshArgs | pypy/tool/_enum_exceptions.py:167-173 | same length, every other argument kept, each probe replaced by a fresh one at the same argpos |
| EnumExceptions.RefreshIdempotent | pypy/tool/_enum_exceptions.py:167-173 | refreshing twice is refreshing once |
| EnumExceptions.RefreshForgetsProbing | pypy/tool/_enum_exceptions.py:121-126 | refreshing after a probe was indexed is refreshing before it (also lines 167-173) |
| EnumExceptions.Range | pypy/tool/_enum_exceptions.py:269 | range(lo, hi) lists lo, lo + 1, ... below hi |
| EnumExceptions.GenArgsToTry | pypy/tool/_enum_exceptions.py:138-141 | four candidates per position: a fresh probe, "arg" followed by the decimal position as str, the same text as unicode, and the integer 1000 + 10*pos |
| EnumExceptions.GenArgsDistinct | pypy/tool/_enum_exceptions.py:138-173 | candidates for different positions differ entry by entry, and a fresh candidate list is left unchanged by refreshArgs |
| EnumExceptions.GuardForExamples | pypy/tool/_enum_exceptions.py:264-279 | all counts give no guard, one count an equality, a dense run from 0 an upper bound, a dense run to maxprobe-1 a lower bound, another dense run a range, and a gapped list a membership test |
| EnumExceptions.GuardAdmitsExactly | pypy/tool/_enum_exceptions.py:264-279 | for increasing counts below maxprobe, the chosen guard admits argc exactly when argc is one of the counts |
| EnumExceptions.NeedsArgcExactly | pypy/tool/_enum_exceptions.py:260-261 | argc = len(args) is written exactly when some group of counts has a real guard |

## Left out

- regloc.py, rx86.py and assembler.py are not part of this model. The location layer is modelled from its tests and from sections 2.1 and 2.2.1 of the Intel manual, Volume 2A.
- Locations.Jmp: only an immediate target is modelled. A register or memory target gives UnsupportedOperandCombination.
- Locations.Jmp: a 64-bit JMP whose displacement does not fit 32 bits gives ImmediateOutOfRange. There is no far route through a register.
- Locations.BeginReuse: requires a closed session, and Locations.EndReuse requires an open one. Sessions do not nest, and a session cannot be opened twice.
- Locations.Resolve: after r11 loads a wide offset, or takes part in an LEA fold, the session marks r11 unknown. Only a plain absolute load is remembered for reuse.
- Locations.SelectBinary: refuses, with InvalidScratchUse, any operation that would load r11 while one of its operands names r11. Operations that do not load r11 accept r11 operands.
- Locations.SelectBinary: an rsp-relative address used after the temporary is pushed has its offset raised so that it names the same memory: by 8 for an rsp base, and by 8 << scale for rsp as index. The tests show no rsp case.
- Only MOV, CMP, MOV16, CMP16, LEA, PUSH, POP and JMP are modelled. Other mnemonics, floating-point and SSE forms are out.
- Instructions.Cmp16ByteForm: CMP16 with an immediate that fits a signed byte uses 66 83 /7 ib, the short form. The tests only use 12345, which takes 66 81 /7 iw.
- Semantics: the machine has registers and a stack only. Flags, memory contents and loads are not modelled, so a CMP or a store is checked only for the address it uses.
- Writing the code into executable memory and the register allocator are out.
- ll_os.cs: only open, close, read, write, lseek and their helpers are modelled. getcwd, stat, fstat, lstat, environ, unlink, strerror and the entry points from _exit to waitpid (ll_os.cs:176-179, 266-311, 332-476) do real I/O or are stubs.
- CliFile: the FileStream is modelled as a name, a position, an access and, for append mode, the end of the file at opening. Sharing modes and permissions are out. Console input is a text that a read takes from in one piece, with no short reads.
- CliFile.OsOpen: the `mode` argument (permission bits) is ignored, as it is in the source.
- CliFile: a character is written as its low 8 bits, as the (byte) cast does. A character above 0xFFFF does not exist here.
- CliFile.OpenStream: FileStream's refusal of Append without write-only access, and of Create for read-only access, is a single InvalidArgument error. The exact .NET exception types are not modelled.
- Deque: repr, hash, `__reduce__`, copy and the collection of iterator cycles (test_deque.py:233-243, 253-287, 294-308) are out. So are the disabled test classes (310-444). They concern Python object identity, pickling or the garbage collector.
- Deque: `d += xs` (test_deque.py:121-129) is extend. `deque(d)` (245-251) is New with the contents of d. `reversed(d)` (289-292) is Reversed. They have no members of their own.
- Deque: count with a comparison that mutates the deque (RuntimeError, test_deque.py:87-93) is out. Equality calls back into the elements.
- Deque: the ordering comparisons (<, <=, >, >=, cmp) are out. Equal compares contents only.
- Deque.Rotate: takes the step count explicitly; rotate() with no argument is Rotate(d, 1).
- Deque: which operations bump the mutation counter is a model choice. append, appendleft, pop, popleft, clear, rotate, delitem and remove bump it. reverse and setitem do not. Extend and extendleft bump it once per element.
- taskengine.py is not part of this model. The planner is a depth-first post-order over the dependency lists, in the listed order. It reproduces every plan the tests state, but the real engine's order for graphs outside them is not known.
- TaskEngine.DependingOn: follows the test at test_taskengine.py:38. A suggested ('?C') dependency does not make A a dependent of C, so only mandatory edges count.
- TaskEngine: the plan cache, the `_error` hook and the callable each task runs are out. A failing task is modelled as a name in a set of failing tasks, and execution stops at the first one.
- EnumExceptions: probeArgCount, findAllArgs, captureAssignments, tryGenerate__str__, tryGenerate__getitem__ and makeExceptionsTemplate instantiate real exception classes or print, and are out.
- EnumExceptions: classes are numbered in creation order, so every base has a smaller number than its class. A class is assumed true in `if ret:`, as classes are.
- EnumExceptions.GuardFor: requires a nonempty list of counts. The source groups assignments by the counts they occur in, so a key is never empty.
- EnumExceptions.GuardAdmitsExactly: assumes increasing counts in [0, maxprobe). This holds because every count is the length of an argument tuple tried below maxprobe, and the tuples are tried by increasing length.
- EnumExceptions: the special case that widens the key of "self.args = args" to all counts (_enum_exceptions.py:252-254) is out. The guard is chosen from whatever key results.

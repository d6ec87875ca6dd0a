/**
 * Instruction selection (the dispatch part of `execute` in
 * risc-v/__main__.py): which instruction a 32-bit word stands for, with the
 * operands the simulator reads for it.
 *
 * The dispatch is taken literally: the R-type bitwise, set-less-than and
 * shift-left operations ignore funct7, `slli` ignores bits 31..25 (so its
 * shift amount is the signed 12-bit immediate), `jalr` and `fence` ignore
 * funct3, and the system opcode accepts only the six CSR instructions.
 */
module Instructions {
  import opened Words
  import opened Sign
  import opened Formats
  import opened Bits

  // Major opcodes (bits 6..0).
  const OP: int := 0x33
  const OP_IMM: int := 0x13
  const LOAD: int := 0x03
  const STORE: int := 0x23
  const BRANCH: int := 0x63
  const JAL: int := 0x6F
  const JALR: int := 0x67
  const LUI: int := 0x37
  const AUIPC: int := 0x17
  const MISC_MEM: int := 0x0F
  const SYSTEM: int := 0x73

  datatype AluOp = Add | Sub | Xor | Or | And | Sll | Srl | Sra | Slt | Sltu
  datatype LoadOp = Lb | Lh | Lw | Lbu | Lhu
  datatype StoreOp = Sb | Sh | Sw
  datatype BranchOp = Beq | Bne | Blt | Bge | Bltu | Bgeu
  /** The immediate forms take the rs1 field itself as the operand. */
  datatype CsrOp = Csrrw | Csrrs | Csrrc | Csrrwi | Csrrsi | Csrrci

  datatype Instr =
    | Op(op: AluOp, rd: Reg, rs1: Reg, rs2: Reg)
    | OpImm(op: AluOp, rd: Reg, rs1: Reg, imm: int)
    | Load(lop: LoadOp, rd: Reg, rs1: Reg, imm: int)
    | Store(sop: StoreOp, rs1: Reg, rs2: Reg, imm: int)
    | Branch(bop: BranchOp, rs1: Reg, rs2: Reg, imm: int)
    | Jal(rd: Reg, imm: int)
    | Jalr(rd: Reg, rs1: Reg, imm: int)
    | Lui(rd: Reg, imm: int)
    | Auipc(rd: Reg, imm: int)
    | Fence
    | Csr(cop: CsrOp, rd: Reg, rs1: Reg, csr: int)
    | Unknown

  /**
   * The encodings the simulator accepts, as a table of opcode, funct3 and
   * funct7 values.
   */
  predicate Recognised(inst: Word)
  {
    var op, f3, f7 := Opcode(inst), Funct3(inst), Funct7(inst);
    || (op == OP && (f3 in {1, 2, 3, 4, 6, 7} || (f3 in {0, 5} && f7 in {0, 0x20})))
    || (op == OP_IMM && (f3 != 5 || f7 in {0, 0x20}))
    || (op == LOAD && f3 in {0, 1, 2, 4, 5})
    || (op == STORE && f3 in {0, 1, 2})
    || (op == BRANCH && f3 in {0, 1, 4, 5, 6, 7})
    || op in {JAL, JALR, LUI, AUIPC, MISC_MEM}
    || (op == SYSTEM && f3 in {1, 2, 3, 5, 6, 7})
  }

  function DecodeOp(inst: Word): Instr
  {
    var f := DecodeR(inst);
    var op :=
      if f.funct3 == 0 && f.funct7 == 0 then Some(Add)
      else if f.funct3 == 0 && f.funct7 == 0x20 then Some(Sub)
      else if f.funct3 == 4 then Some(Xor)
      else if f.funct3 == 6 then Some(Or)
      else if f.funct3 == 7 then Some(And)
      else if f.funct3 == 1 then Some(Sll)
      else if f.funct3 == 5 && f.funct7 == 0 then Some(Srl)
      else if f.funct3 == 5 && f.funct7 == 0x20 then Some(Sra)
      else if f.funct3 == 2 then Some(Slt)
      else if f.funct3 == 3 then Some(Sltu)
      else None;
    if op.Some? then Op(op.value, f.rd, f.rs1, f.rs2) else Unknown
  }

  function DecodeOpImm(inst: Word): Instr
  {
    var f := DecodeI(inst);
    if f.funct3 == 0 then OpImm(Add, f.rd, f.rs1, f.imm)
    else if f.funct3 == 4 then OpImm(Xor, f.rd, f.rs1, DecodeIUnsigned(inst))
    else if f.funct3 == 6 then OpImm(Or, f.rd, f.rs1, DecodeIUnsigned(inst))
    else if f.funct3 == 7 then OpImm(And, f.rd, f.rs1, DecodeIUnsigned(inst))
    else if f.funct3 == 1 then OpImm(Sll, f.rd, f.rs1, f.imm)
    else if f.funct3 == 5 && Funct7(inst) == 0 then OpImm(Srl, f.rd, f.rs1, f.imm)
    else if f.funct3 == 5 && Funct7(inst) == 0x20 then OpImm(Sra, f.rd, f.rs1, f.imm % 0x20)
    else if f.funct3 == 2 then OpImm(Slt, f.rd, f.rs1, f.imm)
    else if f.funct3 == 3 then OpImm(Sltu, f.rd, f.rs1, f.imm)
    else Unknown
  }

  function DecodeLoad(inst: Word): Instr
  {
    var f := DecodeI(inst);
    if f.funct3 == 0 then Load(Lb, f.rd, f.rs1, f.imm)
    else if f.funct3 == 1 then Load(Lh, f.rd, f.rs1, f.imm)
    else if f.funct3 == 2 then Load(Lw, f.rd, f.rs1, f.imm)
    else if f.funct3 == 4 then Load(Lbu, f.rd, f.rs1, f.imm)
    else if f.funct3 == 5 then Load(Lhu, f.rd, f.rs1, f.imm)
    else Unknown
  }

  function DecodeStore(inst: Word): Instr
  {
    var f := DecodeS(inst);
    if f.funct3 == 0 then Store(Sb, f.rs1, f.rs2, f.imm)
    else if f.funct3 == 1 then Store(Sh, f.rs1, f.rs2, f.imm)
    else if f.funct3 == 2 then Store(Sw, f.rs1, f.rs2, f.imm)
    else Unknown
  }

  function DecodeBranch(inst: Word): Instr
  {
    var f := DecodeB(inst);
    if f.funct3 == 0 then Branch(Beq, f.rs1, f.rs2, f.imm)
    else if f.funct3 == 1 then Branch(Bne, f.rs1, f.rs2, f.imm)
    else if f.funct3 == 6 then Branch(Bltu, f.rs1, f.rs2, f.imm)
    else if f.funct3 == 7 then Branch(Bgeu, f.rs1, f.rs2, f.imm)
    else if f.funct3 == 4 then Branch(Blt, f.rs1, f.rs2, f.imm)
    else if f.funct3 == 5 then Branch(Bge, f.rs1, f.rs2, f.imm)
    else Unknown
  }

  function DecodeSystem(inst: Word): Instr
  {
    var f := DecodeCsr(inst);
    if f.funct3 == 1 then Csr(Csrrw, f.rd, f.rs1, f.imm)
    else if f.funct3 == 2 then Csr(Csrrs, f.rd, f.rs1, f.imm)
    else if f.funct3 == 3 then Csr(Csrrc, f.rd, f.rs1, f.imm)
    else if f.funct3 == 5 then Csr(Csrrwi, f.rd, f.rs1, f.imm)
    else if f.funct3 == 6 then Csr(Csrrsi, f.rd, f.rs1, f.imm)
    else if f.funct3 == 7 then Csr(Csrrci, f.rd, f.rs1, f.imm)
    else Unknown
  }

  /**
   * `execute`'s selection of an instruction: the opcode picks the format,
   * funct3 (and for some, funct7) picks the operation; anything else is
   * unknown and ends in the breakpoint.
   */
  function Decode(inst: Word): (r: Instr)
    ensures r.Unknown? <==> !Recognised(inst)
    ensures r.Op? ==> Opcode(inst) == OP
    ensures r.OpImm? ==> Opcode(inst) == OP_IMM
    ensures r.Load? ==> Opcode(inst) == LOAD
    ensures r.Store? ==> Opcode(inst) == STORE
    ensures r.Branch? ==> Opcode(inst) == BRANCH
    ensures r.Csr? ==> Opcode(inst) == SYSTEM && 0 <= r.csr < 0x1000
    ensures r.OpImm? && r.op in {Xor, Or, And} ==> 0 <= r.imm < TWO_32
    ensures r.OpImm? && r.op in {Srl, Sra} ==> 0 <= r.imm < 0x20
    ensures r.OpImm? && r.op in {Add, Sll, Slt, Sltu} ==> -0x800 <= r.imm < 0x800
    ensures (r.Load? || r.Jalr?) ==> -0x800 <= r.imm < 0x800
    ensures r.Store? ==> 0 <= r.imm
    ensures r.Branch? ==> r.imm % 2 == 0 && -0x1000 <= r.imm < 0x1000
    ensures r.Jal? ==> r.imm % 2 == 0 && -0x10_0000 <= r.imm < 0x10_0000
    ensures (r.Lui? || r.Auipc?) ==> r.imm % 0x1000 == 0 && 0 <= r.imm < TWO_32
  {
    var op := Opcode(inst);
    if op == OP then DecodeOp(inst)
    else if op == OP_IMM then DecodeOpImm(inst)
    else if op == LOAD then DecodeLoad(inst)
    else if op == STORE then DecodeStore(inst)
    else if op == BRANCH then DecodeBranch(inst)
    else if op == JAL then var f := DecodeJ(inst); Jal(f.rd, f.imm)
    else if op == JALR then var f := DecodeI(inst); Jalr(f.rd, f.rs1, f.imm)
    else if op == LUI then var f := DecodeU(inst); Lui(f.rd, f.imm)
    else if op == AUIPC then var f := DecodeU(inst); Auipc(f.rd, f.imm)
    else if op == MISC_MEM then Fence
    else if op == SYSTEM then DecodeSystem(inst)
    else Unknown
  }

  // ---------------------------------------------------------------------
  // An assembler, and the round trip through the decoder

  function AluFunct3(op: AluOp): int
  {
    match op
    case Add => 0 case Sub => 0 case Sll => 1 case Slt => 2 case Sltu => 3
    case Xor => 4 case Srl => 5 case Sra => 5 case Or => 6 case And => 7
  }

  function AluFunct7(op: AluOp): int
  {
    if op == Sub || op == Sra then 0x20 else 0
  }

  function LoadFunct3(op: LoadOp): int
  {
    match op
    case Lb => 0 case Lh => 1 case Lw => 2 case Lbu => 4 case Lhu => 5
  }

  function StoreFunct3(op: StoreOp): int
  {
    match op
    case Sb => 0 case Sh => 1 case Sw => 2
  }

  function BranchFunct3(op: BranchOp): int
  {
    match op
    case Beq => 0 case Bne => 1 case Blt => 4 case Bge => 5 case Bltu => 6 case Bgeu => 7
  }

  function CsrFunct3(op: CsrOp): int
  {
    match op
    case Csrrw => 1 case Csrrs => 2 case Csrrc => 3 case Csrrwi => 5 case Csrrsi => 6 case Csrrci => 7
  }

  /**
   * The instructions an assembler can write: operands in the ranges their
   * fields hold, and each immediate in the form the decoder hands back.
   */
  predicate Canonical(i: Instr)
  {
    match i
    case Op(_, _, _, _) => true
    case OpImm(op, _, _, imm) =>
      if op == Sub then false
      else if op in {Xor, Or, And} then 0 <= imm < 0x800 || TWO_32 - 0x800 <= imm < TWO_32
      else if op in {Sll, Srl, Sra} then 0 <= imm < 0x20
      else -0x800 <= imm < 0x800
    case Load(_, _, _, imm) => -0x800 <= imm < 0x800
    case Store(_, _, _, imm) => -0x800 <= imm < 0x800
    case Branch(_, _, _, imm) => imm % 2 == 0 && -0x1000 <= imm < 0x1000
    case Jal(_, imm) => imm % 2 == 0 && -0x10_0000 <= imm < 0x10_0000
    case Jalr(_, _, imm) => -0x800 <= imm < 0x800
    case Lui(_, imm) => imm % 0x1000 == 0 && 0 <= imm < TWO_32
    case Auipc(_, imm) => imm % 0x1000 == 0 && 0 <= imm < TWO_32
    case Fence => true
    case Csr(_, _, _, csr) => 0 <= csr < 0x1000
    case Unknown => true
  }

  /** The standard encoding of an instruction (the all-zero word for Unknown). */
  function Encode(i: Instr): Word
    requires Canonical(i)
  {
    match i
    case Op(op, rd, rs1, rs2) => EncodeR(OP, RType(rd, rs1, rs2, AluFunct3(op), AluFunct7(op)))
    case OpImm(op, rd, rs1, imm) =>
      var field := if op in {Xor, Or, And} then ToSigned32(imm) else if op == Sra then imm + 0x400 else imm;
      EncodeI(OP_IMM, IType(rd, rs1, AluFunct3(op), field))
    case Load(op, rd, rs1, imm) => EncodeI(LOAD, IType(rd, rs1, LoadFunct3(op), imm))
    case Store(op, rs1, rs2, imm) => EncodeS(STORE, SType(rs1, rs2, StoreFunct3(op), imm))
    case Branch(op, rs1, rs2, imm) => EncodeB(BRANCH, BType(rs1, rs2, BranchFunct3(op), imm))
    case Jal(rd, imm) => EncodeJ(JAL, JType(rd, imm))
    case Jalr(rd, rs1, imm) => EncodeI(JALR, IType(rd, rs1, 0, imm))
    case Lui(rd, imm) => EncodeU(LUI, UType(rd, imm))
    case Auipc(rd, imm) => EncodeU(AUIPC, UType(rd, imm))
    case Fence => MISC_MEM
    case Csr(op, rd, rs1, csr) => EncodeCsr(SYSTEM, IType(rd, rs1, CsrFunct3(op), csr))
    case Unknown => 0
  }

  /**
   * Decoding undoes encoding. The one exception is the store offset, which
   * the decoder returns only modulo 2^32 (see `Formats.DecodeS`).
   */
  lemma DecodeEncode(i: Instr)
    requires Canonical(i)
    ensures !i.Store? ==> Decode(Encode(i)) == i
    ensures i.Store? ==> var d := Decode(Encode(i));
      && d.Store? && d.sop == i.sop && d.rs1 == i.rs1 && d.rs2 == i.rs2 && (d.imm - i.imm) % TWO_32 == 0
  {
    // Each case is a lemma of its own; the definitions are not needed here.
    hide Decode, Encode;
    match i
    case Op(op, rd, rs1, rs2) => DecodeEncodeOp(op, rd, rs1, rs2);
    case OpImm(op, rd, rs1, imm) => DecodeEncodeOpImm(op, rd, rs1, imm);
    case Load(op, rd, rs1, imm) => DecodeEncodeLoad(op, rd, rs1, imm);
    case Store(op, rs1, rs2, imm) => DecodeEncodeStore(op, rs1, rs2, imm);
    case Branch(op, rs1, rs2, imm) => DecodeEncodeBranch(op, rs1, rs2, imm);
    case Jal(rd, imm) => DecodeEncodeJal(rd, imm);
    case Jalr(rd, rs1, imm) => DecodeEncodeJalr(rd, rs1, imm);
    case Lui(rd, imm) => DecodeEncodeUpper(rd, imm);
    case Auipc(rd, imm) => DecodeEncodeUpper(rd, imm);
    case Fence => DecodeEncodeFixed();
    case Csr(op, rd, rs1, csr) => DecodeEncodeSystem(op, rd, rs1, csr);
    case Unknown => DecodeEncodeFixed();
  }

  lemma DecodeEncodeJal(rd: Reg, imm: int)
    requires imm % 2 == 0 && -0x10_0000 <= imm < 0x10_0000
    ensures Decode(Encode(Jal(rd, imm))) == Jal(rd, imm)
  {
    DecodeEncodeJ(JAL, JType(rd, imm));
  }

  lemma DecodeEncodeJalr(rd: Reg, rs1: Reg, imm: int)
    requires -0x800 <= imm < 0x800
    ensures Decode(Encode(Jalr(rd, rs1, imm))) == Jalr(rd, rs1, imm)
  {
    DecodeEncodeI(JALR, IType(rd, rs1, 0, imm));
  }

  lemma DecodeEncodeUpper(rd: Reg, imm: int)
    requires imm % 0x1000 == 0 && 0 <= imm < TWO_32
    ensures Decode(Encode(Lui(rd, imm))) == Lui(rd, imm)
    ensures Decode(Encode(Auipc(rd, imm))) == Auipc(rd, imm)
  {
    DecodeEncodeU(LUI, UType(rd, imm));
    DecodeEncodeU(AUIPC, UType(rd, imm));
  }

  lemma DecodeEncodeFixed()
    ensures Decode(Encode(Fence)) == Fence
    ensures Decode(Encode(Unknown)) == Unknown
  {
    assert Opcode(MISC_MEM) == MISC_MEM && Opcode(0) == 0;
  }

  lemma DecodeEncodeOp(op: AluOp, rd: Reg, rs1: Reg, rs2: Reg)
    ensures Decode(Encode(Op(op, rd, rs1, rs2))) == Op(op, rd, rs1, rs2)
  {
    DecodeEncodeR(OP, RType(rd, rs1, rs2, AluFunct3(op), AluFunct7(op)));
  }

  lemma DecodeEncodeLoad(op: LoadOp, rd: Reg, rs1: Reg, imm: int)
    requires -0x800 <= imm < 0x800
    ensures Decode(Encode(Load(op, rd, rs1, imm))) == Load(op, rd, rs1, imm)
  {
    DecodeEncodeI(LOAD, IType(rd, rs1, LoadFunct3(op), imm));
  }

  lemma DecodeEncodeStore(op: StoreOp, rs1: Reg, rs2: Reg, imm: int)
    requires -0x800 <= imm < 0x800
    ensures var d := Decode(Encode(Store(op, rs1, rs2, imm)));
      && d.Store? && d.sop == op && d.rs1 == rs1 && d.rs2 == rs2 && (d.imm - imm) % TWO_32 == 0
  {
    DecodeEncodeS(STORE, SType(rs1, rs2, StoreFunct3(op), imm));
  }

  lemma DecodeEncodeBranch(op: BranchOp, rs1: Reg, rs2: Reg, imm: int)
    requires imm % 2 == 0 && -0x1000 <= imm < 0x1000
    ensures Decode(Encode(Branch(op, rs1, rs2, imm))) == Branch(op, rs1, rs2, imm)
  {
    DecodeEncodeB(BRANCH, BType(rs1, rs2, BranchFunct3(op), imm));
  }

  lemma DecodeEncodeSystem(op: CsrOp, rd: Reg, rs1: Reg, csr: int)
    requires 0 <= csr < 0x1000
    ensures Decode(Encode(Csr(op, rd, rs1, csr))) == Csr(op, rd, rs1, csr)
  {
    DecodeEncodeCsr(SYSTEM, IType(rd, rs1, CsrFunct3(op), csr));
  }

  lemma DecodeEncodeOpImm(op: AluOp, rd: Reg, rs1: Reg, imm: int)
    requires Canonical(OpImm(op, rd, rs1, imm))
    ensures Decode(Encode(OpImm(op, rd, rs1, imm))) == OpImm(op, rd, rs1, imm)
  {
    var field := if op in {Xor, Or, And} then ToSigned32(imm) else if op == Sra then imm + 0x400 else imm;
    var f := IType(rd, rs1, AluFunct3(op), field);
    var w := EncodeI(OP_IMM, f);
    assert Encode(OpImm(op, rd, rs1, imm)) == w;
    DecodeEncodeI(OP_IMM, f);
    assert Decode(w) == DecodeOpImm(w);
    hide Encode, Decode, EncodeI;
    match op {
      case Xor | Or | And =>
        LogicImmediate(w, imm);
        assert DecodeOpImm(w) == OpImm(op, rd, rs1, imm);
      case Srl | Sra =>
        ShiftImmediate(w, field);
        assert DecodeOpImm(w) == OpImm(op, rd, rs1, imm);
      case Add | Sll | Slt | Sltu =>
        assert DecodeOpImm(w) == OpImm(op, rd, rs1, imm);
    }
  }

  /** The unsigned immediate of xori/ori/andi is the word the signed field stands for. */
  lemma LogicImmediate(w: Word, imm: int)
    requires 0 <= imm < 0x800 || TWO_32 - 0x800 <= imm < TWO_32
    requires DecodeI(w).imm == ToSigned32(imm)
    ensures DecodeIUnsigned(w) == imm
  {
    var u := DecodeIUnsigned(w);
    assert (u - imm) % TWO_32 == 0;
    SameWindow(u, imm, 0, TWO_32);
  }

  /** The funct7 bits of a shift-immediate word are the upper bits of its 12-bit immediate. */
  lemma ShiftImmediate(w: Word, field: int)
    requires 0 <= field < 0x800
    requires DecodeI(w).imm == field
    ensures Funct7(w) == field / 0x20
  {
    assert w / 0x10_0000 == field;
    DivDiv(w, 0x10_0000, 0x20);
  }
}

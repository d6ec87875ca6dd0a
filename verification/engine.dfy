/**
 * The processor state and its step function (risc-v/__main__.py, `reset`,
 * `execute`, `tick`).
 *
 * `Execute` receives the state with `pc` at the address of the instruction
 * being executed. The source has already advanced `pc` by 4 at that point
 * and writes `pc - 4 + imm` for branch targets; the model writes the same
 * values as `pc + 4` and `pc + imm`.
 */
module Engine {
  import opened Words
  import opened Bits
  import opened Sign
  import Alu
  import opened Formats
  import opened Device
  import opened MemoryBus
  import opened Instructions

  /** The number of control and status registers. */
  const NUM_CSRS: int := 4096

  datatype Cpu = Cpu(regs: seq<int>, csrs: seq<int>, pc: int, ticks: int, bus: Bus)

  /** The list sizes the simulator sets up and never changes. */
  predicate Valid(c: Cpu)
  {
    |c.regs| == 32 && |c.csrs| == NUM_CSRS && |c.bus.dram| == DRAM_SIZE
  }

  /** Why the breakpoint routine halted the simulator. */
  datatype Fault = UnknownInstruction | PcOutOfRange | NullJump

  /** Situations the model leaves undefined (see the README). */
  datatype Gap = FetchOutsideDram | AccessOutsideDram | NegativeShift

  datatype Outcome = Running(cpu: Cpu) | Trapped(fault: Fault, cpu: Cpu) | Stuck(gap: Gap)

  // ---------------------------------------------------------------------
  // Reset

  /**
   * `reset`: one empty output line, DRAM cleared and the code image copied to
   * its start (cut off at the end of DRAM), registers cleared except the
   * stack pointer x2 = DRAM_SIZE, pc at DRAM_BASE, no ticks. The CSRs are
   * not touched.
   */
  function Reset(code: seq<Byte>, csrs: seq<int>): (c: Cpu)
    requires |csrs| == NUM_CSRS
    ensures Valid(c) && c.pc == DRAM_BASE && c.ticks == 0 && c.csrs == csrs
    ensures c.regs[2] == DRAM_SIZE && forall j :: 0 <= j < 32 && j != 2 ==> c.regs[j] == 0
    ensures Lines(c.bus.uart) == [""]
    ensures forall i :: 0 <= i < DRAM_SIZE ==> c.bus.dram[i] == if i < |code| then code[i] else 0
  {
    Cpu(seq(32, j => if j == 2 then DRAM_SIZE else 0), csrs, DRAM_BASE, 0,
        Bus(seq(DRAM_SIZE, i => if 0 <= i < |code| then code[i] else 0), EMPTY))
  }

  /** The first reset after the project starts: every CSR still holds its initial 0. */
  function PowerOn(code: seq<Byte>): (c: Cpu)
    ensures Valid(c) && forall k :: 0 <= k < NUM_CSRS ==> c.csrs[k] == 0
  {
    Reset(code, seq(NUM_CSRS, _ => 0))
  }

  // ---------------------------------------------------------------------
  // Operations

  /**
   * The ALU operation of an `Op`/`OpImm` instruction. A negative shift count
   * (only `slli` with bit 31 set can produce one) has no defined result.
   */
  function Compute(op: AluOp, a: int, b: int): (r: Option<int>)
    ensures r.None? <==> op in {Sll, Srl, Sra} && b < 0
    ensures op == Xor ==> r == Some(Alu.Logic(XorOp, a, b))
    ensures op == Or ==> r == Some(Alu.Logic(OrOp, a, b))
    ensures op == And ==> r == Some(Alu.Logic(AndOp, a, b))
    ensures op in {Add, Sub} ==> 0 <= r.value < TWO_32
    ensures op == Add ==> (a + b - r.value) % TWO_32 == 0
    ensures op == Sub ==> (a - b - r.value) % TWO_32 == 0
    ensures op in {Slt, Sltu} ==> r.value in {0, 1}
    ensures op == Slt ==> r == Some(Alu.LessThanSigned(a, b))
    ensures op == Sltu ==> r == Some(Alu.LessThanUnsigned(a, b))
    ensures op == Sll && b >= 0 ==> r == Some(Alu.ShiftLeft(a, b))
    ensures op == Srl && b >= 0 ==> r == Some(Alu.ShiftRight(a, b))
    ensures op == Sra && b >= 0 ==> r == Some(Alu.ShiftRightArith(a, b))
  {
    match op
    case Add => Some(Alu.Add(a, b))
    case Sub => Some(Alu.Sub(a, b))
    case Xor => Some(Alu.ByteLanes(XorOp, a, b))
    case Or => Some(Alu.ByteLanes(OrOp, a, b))
    case And => Some(Alu.ByteLanes(AndOp, a, b))
    case Sll => if b < 0 then None else Some(Alu.ShiftLeft(a, b))
    case Srl => if b < 0 then None else Some(Alu.ShiftRight(a, b))
    case Sra => if b < 0 then None else Some(Alu.ShiftRightArith(a, b))
    case Slt => Some(Alu.LessThanSigned(a, b))
    case Sltu => Some(Alu.LessThanUnsigned(a, b))
  }

  /** Whether a conditional branch is taken. */
  function Taken(op: BranchOp, a: int, b: int): bool
  {
    match op
    case Beq => a == b
    case Bne => a != b
    case Bltu => a < b
    case Bgeu => !(a < b)
    case Blt => ToSigned32(a) < ToSigned32(b)
    case Bge => !(ToSigned32(a) < ToSigned32(b))
  }

  /** The value a load writes to rd; `latch` is what a device load reads back. */
  function LoadValue(op: LoadOp, bus: Bus, addr: int, latch: int): Option<int>
  {
    match op
    case Lb => var v := BusLoad8(bus, addr, latch); if v.None? then None else Some(ToUnsigned32(ToSigned8(v.value)))
    case Lh => var v := BusLoad16(bus, addr, latch); if v.None? then None else Some(ToUnsigned32(ToSigned16(v.value)))
    case Lw => BusLoad32(bus, addr, latch)
    case Lbu => BusLoad8(bus, addr, latch)
    case Lhu => BusLoad16(bus, addr, latch)
  }

  /** The bus after a store of the register value `v`. */
  function StoreValue(op: StoreOp, bus: Bus, addr: int, v: int): Option<Bus>
  {
    match op
    case Sb => BusStore8(bus, addr, v % 0x100)
    case Sh => BusStore16(bus, addr, v % 0x1_0000)
    case Sw => BusStore32(bus, addr, v)
  }

  /** The operand of a CSR instruction: register rs1, or for the immediate forms the field itself. */
  function CsrOperand(op: CsrOp, regs: seq<int>, rs1: Reg): int
    requires |regs| == 32
  {
    if op in {Csrrw, Csrrs, Csrrc} then regs[rs1] else rs1
  }

  /** The new CSR value. The clearing forms use AND, as the source does. */
  function CsrNew(op: CsrOp, prior: int, operand: int): int
  {
    match op
    case Csrrw => operand
    case Csrrwi => operand
    case Csrrs => Alu.ByteLanes(OrOp, prior, operand)
    case Csrrsi => Alu.ByteLanes(OrOp, prior, operand)
    case Csrrc => Alu.ByteLanes(AndOp, prior, operand)
    case Csrrci => Alu.ByteLanes(AndOp, prior, operand)
  }

  /** The register an instruction writes, or -1 for none. */
  function Dest(i: Instr): int
  {
    match i
    case Op(_, rd, _, _) => rd
    case OpImm(_, rd, _, _) => rd
    case Load(_, rd, _, _) => rd
    case Jal(rd, _) => rd
    case Jalr(rd, _, _) => rd
    case Lui(rd, _) => rd
    case Auipc(rd, _) => rd
    case Csr(_, rd, _, _) => rd
    case _ => -1
  }

  /** c' differs from c at most in register rd and pc. */
  predicate WritesOnly(c: Cpu, c': Cpu, rd: Reg)
    requires Valid(c)
  {
    Valid(c') && c'.regs == c.regs[rd := c'.regs[rd]] && c'.csrs == c.csrs && c'.bus == c.bus && c'.ticks == c.ticks
  }

  /** Write an ALU result to rd and move on, or get stuck on an undefined shift. */
  function WriteBack(c: Cpu, rd: Reg, v: Option<int>): (r: Outcome)
    requires Valid(c)
    ensures r.Stuck? <==> v.None?
    ensures r.Stuck? ==> r.gap == NegativeShift
    ensures r.Running? ==> WritesOnly(c, r.cpu, rd) && r.cpu.pc == c.pc + 4 && r.cpu.regs[rd] == v.value
    ensures !r.Trapped?
  {
    if v.None? then Stuck(NegativeShift) else Running(c.(regs := c.regs[rd := v.value], pc := c.pc + 4))
  }

  /** A load into rd from the effective address, or stuck outside DRAM. */
  function ExecLoad(c: Cpu, op: LoadOp, rd: Reg, addr: int, latch: int): (r: Outcome)
    requires Valid(c)
    ensures r.Stuck? <==> LoadValue(op, c.bus, addr, latch).None?
    ensures r.Stuck? ==> r.gap == AccessOutsideDram
    ensures r.Running? ==> WritesOnly(c, r.cpu, rd) && r.cpu.pc == c.pc + 4
                           && r.cpu.regs[rd] == LoadValue(op, c.bus, addr, latch).value
    ensures !r.Trapped?
  {
    var v := LoadValue(op, c.bus, addr, latch);
    if v.None? then Stuck(AccessOutsideDram) else Running(c.(regs := c.regs[rd := v.value], pc := c.pc + 4))
  }

  /** A store of register value v, or stuck outside DRAM. */
  function ExecStore(c: Cpu, op: StoreOp, addr: int, v: int): (r: Outcome)
    requires Valid(c)
    ensures r.Stuck? <==> StoreValue(op, c.bus, addr, v).None?
    ensures r.Stuck? ==> r.gap == AccessOutsideDram
    ensures r.Running? ==> Valid(r.cpu) && r.cpu == c.(bus := r.cpu.bus, pc := c.pc + 4)
                           && r.cpu.bus == StoreValue(op, c.bus, addr, v).value
    ensures !r.Trapped?
  {
    var b := StoreValue(op, c.bus, addr, v);
    if b.None? then Stuck(AccessOutsideDram) else Running(c.(bus := b.value, pc := c.pc + 4))
  }

  /** The target of `jal`: pc + imm reduced to 32 bits. */
  function JalTarget(pc: int, imm: int): (t: int)
    ensures 0 <= t < TWO_32 && (t - (pc + imm)) % TWO_32 == 0
  {
    (pc + imm) % TWO_32
  }

  /** The target of `jalr`: rs1 + imm reduced to 32 bits, with bit 0 cleared. */
  function JalrTarget(base: int, imm: int): (t: int)
    ensures 0 <= t < TWO_32 && t % 2 == 0 && 0 <= Alu.Add(base, imm) - t <= 1
  {
    (Alu.Add(base, imm) / 2) * 2
  }

  /** A jump to `target` that links the return address c.pc + 4 in rd. */
  function Link(c: Cpu, rd: Reg, target: int): (r: Cpu)
    requires Valid(c)
    ensures WritesOnly(c, r, rd) && r.regs[rd] == c.pc + 4 && r.pc == target
  {
    c.(regs := c.regs[rd := c.pc + 4], pc := target)
  }

  /** A CSR instruction: rd gets the old value, the CSR its new value. */
  function ExecCsr(c: Cpu, op: CsrOp, rd: Reg, rs1: Reg, csr: int): (r: Cpu)
    requires Valid(c) && 0 <= csr < NUM_CSRS
    ensures Valid(r) && r.regs == c.regs[rd := c.csrs[csr]] && r.pc == c.pc + 4
    ensures r.csrs == c.csrs[csr := CsrNew(op, c.csrs[csr], CsrOperand(op, c.regs, rs1))]
    ensures r.bus == c.bus && r.ticks == c.ticks
  {
    var prior := c.csrs[csr];
    c.(regs := c.regs[rd := prior], csrs := c.csrs[csr := CsrNew(op, prior, CsrOperand(op, c.regs, rs1))],
       pc := c.pc + 4)
  }

  /** The outcome writes the value v to rd, or is stuck exactly when there is no value. */
  predicate WritesValue(r: Outcome, rd: Reg, v: Option<int>)
  {
    && (r.Stuck? <==> v.None?)
    && (r.Running? ==> |r.cpu.regs| == 32 && Some(r.cpu.regs[rd]) == v)
  }

  /**
   * What the data-processing instructions compute: the value an ALU
   * operation, a load, `lui` or `auipc` writes to rd (`auipc` without
   * reducing pc + imm to 32 bits, as the source does), and the bus after a
   * store. Loads and stores address rs1 + imm reduced to 32 bits.
   */
  predicate Effects(c: Cpu, d: Instr, latch: int, r: Outcome)
    requires Valid(c)
  {
    && (d.Op? ==> WritesValue(r, d.rd, Compute(d.op, c.regs[d.rs1], c.regs[d.rs2])))
    && (d.OpImm? ==> WritesValue(r, d.rd, Compute(d.op, c.regs[d.rs1], d.imm)))
    && (d.Load? ==> WritesValue(r, d.rd, LoadValue(d.lop, c.bus, Alu.Add(c.regs[d.rs1], d.imm), latch)))
    && (d.Store? ==>
          var b := StoreValue(d.sop, c.bus, Alu.Add(c.regs[d.rs1], d.imm), c.regs[d.rs2]);
          (r.Stuck? <==> b.None?) && (r.Running? ==> Some(r.cpu.bus) == b))
    && (d.Lui? ==> r.Running? && |r.cpu.regs| == 32 && r.cpu.regs[d.rd] == d.imm)
    && (d.Auipc? ==> r.Running? && |r.cpu.regs| == 32 && r.cpu.regs[d.rd] == d.imm + c.pc)
  }

  /** Branches and jumps: the instructions that choose the next pc themselves. */
  predicate IsControl(d: Instr)
  {
    d.Branch? || d.Jal? || d.Jalr?
  }

  /** A branch or jump. */
  function Control(c: Cpu, d: Instr): (r: Cpu)
    requires Valid(c) && IsControl(d)
    ensures Valid(r) && r.ticks == c.ticks && r.csrs == c.csrs && r.bus == c.bus
    ensures forall j :: 0 <= j < 32 && j != Dest(d) ==> r.regs[j] == c.regs[j]
    ensures d.Branch? ==> r.pc == if Taken(d.bop, c.regs[d.rs1], c.regs[d.rs2]) then c.pc + d.imm else c.pc + 4
    ensures (d.Jal? || d.Jalr?) ==> r.regs[d.rd] == c.pc + 4 && 0 <= r.pc < TWO_32
    ensures d.Jal? ==> (r.pc - (c.pc + d.imm)) % TWO_32 == 0
    ensures d.Jalr? ==> r.pc % 2 == 0 && 0 <= Alu.Add(c.regs[d.rs1], d.imm) - r.pc <= 1
  {
    if d.Branch? then c.(pc := if Taken(d.bop, c.regs[d.rs1], c.regs[d.rs2]) then c.pc + d.imm else c.pc + 4)
    else if d.Jal? then Link(c, d.rd, JalTarget(c.pc, d.imm))
    else Link(c, d.rd, JalrTarget(c.regs[d.rs1], d.imm))
  }

  /** Every other known instruction: it ends by moving pc on to the next word. */
  function Sequential(c: Cpu, d: Instr, latch: int): (r: Outcome)
    requires Valid(c) && (d.Csr? ==> 0 <= d.csr < NUM_CSRS) && !IsControl(d) && !d.Unknown?
    ensures !r.Trapped?
    ensures r.Stuck? ==> (r.gap == NegativeShift && (d.Op? || d.OpImm?) && d.op in {Sll, Srl, Sra})
                         || (r.gap == AccessOutsideDram && (d.Load? || d.Store?))
    ensures r.Running? ==> Valid(r.cpu) && r.cpu.ticks == c.ticks && r.cpu.pc == c.pc + 4
    ensures r.Running? ==> forall j :: 0 <= j < 32 && j != Dest(d) ==> r.cpu.regs[j] == c.regs[j]
    ensures r.Running? && !d.Csr? ==> r.cpu.csrs == c.csrs
    ensures r.Running? && d.Csr? ==> r.cpu.regs[d.rd] == c.csrs[d.csr]
                                     && forall k :: 0 <= k < NUM_CSRS && k != d.csr ==> r.cpu.csrs[k] == c.csrs[k]
    ensures r.Running? && !d.Store? ==> r.cpu.bus == c.bus
    ensures Effects(c, d, latch, r)
  {
    var next := c.pc + 4;
    if d.Op? then WriteBack(c, d.rd, Compute(d.op, c.regs[d.rs1], c.regs[d.rs2]))
    else if d.OpImm? then WriteBack(c, d.rd, Compute(d.op, c.regs[d.rs1], d.imm))
    else if d.Load? then ExecLoad(c, d.lop, d.rd, Alu.Add(c.regs[d.rs1], d.imm), latch)
    else if d.Store? then ExecStore(c, d.sop, Alu.Add(c.regs[d.rs1], d.imm), c.regs[d.rs2])
    else if d.Lui? then Running(c.(regs := c.regs[d.rd := d.imm], pc := next))
    else if d.Auipc? then Running(c.(regs := c.regs[d.rd := d.imm + c.pc], pc := next))
    else if d.Fence? then Running(c.(pc := next))
    else Running(ExecCsr(c, d.cop, d.rd, d.rs1, d.csr))
  }

  /**
   * `execute` once the instruction word has been decoded to `d`: the effect
   * on registers, CSRs, the bus and pc, and the breakpoint for an unknown
   * instruction (with pc already advanced, as in the source). `latch` is the
   * bus result left by the fetch, which device loads read back.
   */
  function Perform(c: Cpu, d: Instr, latch: int): (r: Outcome)
    requires Valid(c) && (d.Csr? ==> 0 <= d.csr < NUM_CSRS)
    ensures (r.Trapped? <==> d.Unknown?)
    ensures r.Trapped? ==> r.fault == UnknownInstruction && r.cpu == c.(pc := c.pc + 4)
    ensures r.Stuck? ==> (r.gap == NegativeShift && (d.Op? || d.OpImm?) && d.op in {Sll, Srl, Sra})
                         || (r.gap == AccessOutsideDram && (d.Load? || d.Store?))
    ensures r.Running? ==> Valid(r.cpu) && r.cpu.ticks == c.ticks
    ensures r.Running? ==> forall j :: 0 <= j < 32 && j != Dest(d) ==> r.cpu.regs[j] == c.regs[j]
    ensures r.Running? && !IsControl(d) ==> r.cpu.pc == c.pc + 4
    ensures r.Running? && d.Branch? ==>
              r.cpu.pc == if Taken(d.bop, c.regs[d.rs1], c.regs[d.rs2]) then c.pc + d.imm else c.pc + 4
    ensures r.Running? && (d.Jal? || d.Jalr?) ==> r.cpu.regs[d.rd] == c.pc + 4 && 0 <= r.cpu.pc < TWO_32
    ensures r.Running? && d.Jal? ==> (r.cpu.pc - (c.pc + d.imm)) % TWO_32 == 0
    ensures r.Running? && d.Jalr? ==> r.cpu.pc % 2 == 0 && 0 <= Alu.Add(c.regs[d.rs1], d.imm) - r.cpu.pc <= 1
    ensures r.Running? && !d.Csr? ==> r.cpu.csrs == c.csrs
    ensures r.Running? && d.Csr? ==> r.cpu.regs[d.rd] == c.csrs[d.csr]
                                     && forall k :: 0 <= k < NUM_CSRS && k != d.csr ==> r.cpu.csrs[k] == c.csrs[k]
    ensures r.Running? && !d.Store? ==> r.cpu.bus == c.bus
    ensures Effects(c, d, latch, r)
  {
    if d.Unknown? then Trapped(UnknownInstruction, c.(pc := c.pc + 4))
    else if IsControl(d) then Running(Control(c, d))
    else Sequential(c, d, latch)
  }

  /**
   * `execute` for the instruction word `inst` at address `c.pc`. The fetch
   * left `inst` in the bus latch, so device loads read it back.
   */
  function Execute(c: Cpu, inst: Word): (r: Outcome)
    requires Valid(c)
    ensures r.Trapped? <==> !Recognised(inst)
    ensures r.Trapped? ==> r.cpu.pc == c.pc + 4 && r.cpu.regs == c.regs && r.cpu.bus == c.bus
    ensures r.Running? ==> Valid(r.cpu) && r.cpu.ticks == c.ticks
  {
    Perform(c, Decode(inst), inst)
  }

  // ---------------------------------------------------------------------
  // One tick, and many

  /** pc can be fetched: the whole word lies in DRAM. */
  predicate Fetchable(pc: int)
  {
    DRAM_BASE <= pc && pc - DRAM_BASE + 4 <= DRAM_SIZE
  }

  /**
   * `tick`: count the tick; halt on a pc beyond the end of DRAM or at 0;
   * otherwise clear x0, fetch the word at pc and execute it.
   */
  function Step(c: Cpu): (r: Outcome)
    requires Valid(c)
    ensures !r.Stuck? ==> r.cpu.ticks == c.ticks + 1
    ensures (r.Trapped? && r.fault == PcOutOfRange) <==> c.pc > DRAM_BASE + DRAM_SIZE
    ensures (r.Trapped? && r.fault == NullJump) <==> c.pc == 0
    ensures (r.Stuck? && r.gap == FetchOutsideDram)
            <==> c.pc != 0 && c.pc <= DRAM_BASE + DRAM_SIZE && !Fetchable(c.pc)
    ensures r.Running? ==> Valid(r.cpu) && Fetchable(c.pc)
  {
    var c1 := c.(ticks := c.ticks + 1);
    if c.pc - DRAM_BASE > DRAM_SIZE then Trapped(PcOutOfRange, c1)
    else if c.pc == 0 then Trapped(NullJump, c1)
    else
      var c2 := c1.(regs := c1.regs[0 := 0]);
      match MemLoad32(c2.bus.dram, c.pc - DRAM_BASE)
      case None => Stuck(FetchOutsideDram)
      case Some(inst) => Execute(c2, inst)
  }

  /** Up to n ticks, stopping at the first halt. */
  function Run(c: Cpu, n: nat): (r: Outcome)
    requires Valid(c)
    ensures r.Running? ==> Valid(r.cpu) && r.cpu.ticks == c.ticks + n
    ensures r.Trapped? ==> c.ticks < r.cpu.ticks <= c.ticks + n
    decreases n
  {
    if n == 0 then Running(c)
    else
      match Step(c)
      case Running(c') => Run(c', n - 1)
      case Trapped(f, c') => Trapped(f, c')
      case Stuck(g) => Stuck(g)
  }
}

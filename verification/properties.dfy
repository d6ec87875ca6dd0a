/**
 * Properties of the processor model that relate several operations: the
 * assembler against the executor, the CSR instructions against the bitwise
 * reference, the pc invariant that ticks keep, and how runs compose.
 */
module Properties {
  import opened Words
  import opened Bits
  import opened Sign
  import Alu
  import opened Formats
  import opened MemoryBus
  import opened Instructions
  import opened Engine

  // ---------------------------------------------------------------------
  // Assembler and executor

  /**
   * Executing the standard encoding of an instruction has the effect of the
   * instruction itself. Stores come back from the decoder with their offset
   * only modulo 2^32, which the masked address addition makes irrelevant.
   */
  lemma ExecuteEncoded(c: Cpu, i: Instr)
    requires Valid(c) && Canonical(i)
    ensures Execute(c, Encode(i)) == Perform(c, i, Encode(i))
  {
    DecodeEncode(i);
    var d := Decode(Encode(i));
    if i.Store? {
      Alu.AddCongruent(c.regs[i.rs1], d.imm, i.imm);
      assert Perform(c, d, Encode(i)) == Perform(c, i, Encode(i));
    }
  }

  // ---------------------------------------------------------------------
  // Branch conditions

  /**
   * The six branch conditions come in complementary pairs, and the signed and
   * unsigned "less than" branches agree with `slt` and `sltu`.
   */
  lemma BranchConditions(a: Word, b: Word)
    ensures Taken(Bne, a, b) == !Taken(Beq, a, b)
    ensures Taken(Bge, a, b) == !Taken(Blt, a, b)
    ensures Taken(Bgeu, a, b) == !Taken(Bltu, a, b)
    ensures Taken(Blt, a, b) <==> Alu.LessThanSigned(a, b) == 1
    ensures Taken(Bltu, a, b) <==> Alu.LessThanUnsigned(a, b) == 1
    ensures Taken(Blt, a, b) <==> (a >= TWO_31 && b < TWO_31) || ((a >= TWO_31) == (b >= TWO_31) && a < b)
  {
    Alu.SignedCompareBySignBit(a, b);
  }

  // ---------------------------------------------------------------------
  // CSR instructions

  /**
   * What a CSR instruction writes, bit by bit: the swap forms store the
   * operand, the set forms OR it in and the clearing forms AND it in (the
   * source's choice; RV32I clears with AND NOT). rd receives the old value.
   */
  lemma CsrBits(c: Cpu, op: CsrOp, rd: Reg, rs1: Reg, csr: int, latch: int)
    requires Valid(c) && 0 <= csr < NUM_CSRS
    ensures var r := Perform(c, Csr(op, rd, rs1, csr), latch);
      var operand := if op in {Csrrw, Csrrs, Csrrc} then c.regs[rs1] else rs1;
      && r.Running? && r.cpu.regs[rd] == c.csrs[csr] && r.cpu.pc == c.pc + 4
      && (op in {Csrrw, Csrrwi} ==> r.cpu.csrs[csr] == operand)
      && (op in {Csrrs, Csrrsi} ==> 0 <= r.cpu.csrs[csr] < TWO_32 && forall k :: 0 <= k < 32 ==>
            Bit(r.cpu.csrs[csr], k) == (Bit(c.csrs[csr] % TWO_32, k) || Bit(operand % TWO_32, k)))
      && (op in {Csrrc, Csrrci} ==> 0 <= r.cpu.csrs[csr] < TWO_32 && forall k :: 0 <= k < 32 ==>
            Bit(r.cpu.csrs[csr], k) == (Bit(c.csrs[csr] % TWO_32, k) && Bit(operand % TWO_32, k)))
  {
  }

  /** A CSR instruction always runs on, to the state `ExecCsr` describes. */
  lemma CsrRuns(c: Cpu, op: CsrOp, rd: Reg, rs1: Reg, csr: int, latch: int)
    requires Valid(c) && 0 <= csr < NUM_CSRS
    ensures Perform(c, Csr(op, rd, rs1, csr), latch) == Running(ExecCsr(c, op, rd, rs1, csr))
  {
  }

  /** Reading a CSR with `csrrs rd, csr, x0` leaves it unchanged (up to its low 32 bits). */
  lemma CsrReadWithX0(c: Cpu, rd: Reg, csr: int, latch: int)
    requires Valid(c) && 0 <= csr < NUM_CSRS && c.regs[0] == 0
    ensures var r := Perform(c, Csr(Csrrs, rd, 0, csr), latch);
      r.Running? && r.cpu.csrs[csr] == c.csrs[csr] % TWO_32 && r.cpu.regs[rd] == c.csrs[csr]
  {
    CsrRuns(c, Csrrs, rd, 0, csr, latch);
    hide Perform;
    Alu.LogicZero(c.csrs[csr]);
  }

  /**
   * Because the clearing forms AND the operand in, `csrrc rd, csr, x0` and
   * `csrrci rd, csr, 0` zero the CSR, where RV32I leaves it unchanged.
   */
  lemma CsrClearWithZero(c: Cpu, rd: Reg, csr: int, latch: int)
    requires Valid(c) && 0 <= csr < NUM_CSRS && c.regs[0] == 0
    ensures var r := Perform(c, Csr(Csrrc, rd, 0, csr), latch); r.Running? && r.cpu.csrs[csr] == 0
    ensures var r := Perform(c, Csr(Csrrci, rd, 0, csr), latch); r.Running? && r.cpu.csrs[csr] == 0
  {
    CsrRuns(c, Csrrc, rd, 0, csr, latch);
    CsrRuns(c, Csrrci, rd, 0, csr, latch);
    hide Perform;
    Alu.LogicZero(c.csrs[csr]);
  }

  /**
   * Setting (or clearing) the same bits a second time leaves the CSR as the
   * first instruction left it, provided rd is not the source register.
   */
  lemma CsrSetTwice(c: Cpu, op: CsrOp, rd: Reg, rs1: Reg, csr: int, latch: int)
    requires Valid(c) && 0 <= csr < NUM_CSRS && op in {Csrrs, Csrrc, Csrrsi, Csrrci} && rd != rs1
    ensures var r1 := Perform(c, Csr(op, rd, rs1, csr), latch);
      && r1.Running?
      && var r2 := Perform(r1.cpu, Csr(op, rd, rs1, csr), latch);
      && r2.Running? && r2.cpu.csrs[csr] == r1.cpu.csrs[csr]
  {
    CsrRuns(c, op, rd, rs1, csr, latch);
    var c1 := ExecCsr(c, op, rd, rs1, csr);
    CsrRuns(c1, op, rd, rs1, csr, latch);
    hide Perform;
    var operand := if op in {Csrrs, Csrrc} then c.regs[rs1] else rs1;
    var bop := if op in {Csrrs, Csrrsi} then OrOp else AndOp;
    assert c1.csrs[csr] == Alu.Logic(bop, c.csrs[csr], operand);
    assert c1.regs[rs1] == c.regs[rs1];
    Alu.LogicIdempotent(bop, c.csrs[csr], operand);
  }

  // ---------------------------------------------------------------------
  // x0

  /**
   * A tick that gets as far as the fetch does not depend on what x0 held
   * before it: `tick` clears x0 before executing.
   */
  lemma StepIgnoresX0(c: Cpu, v: int)
    requires Valid(c) && c.pc != 0 && c.pc - DRAM_BASE <= DRAM_SIZE
    ensures Step(c.(regs := c.regs[0 := v])) == Step(c)
  {
    assert c.regs[0 := v][0 := 0] == c.regs[0 := 0];
  }

  // ---------------------------------------------------------------------
  // pc stays even

  /**
   * Every instruction moves pc by an even amount or to an even target, so
   * executing a decoded instruction at an even pc leaves pc even.
   */
  lemma PerformKeepsPcEven(c: Cpu, d: Instr, latch: int)
    requires Valid(c) && (d.Csr? ==> 0 <= d.csr < NUM_CSRS) && c.pc % 2 == 0
    requires (d.Branch? || d.Jal?) ==> d.imm % 2 == 0
    requires !Perform(c, d, latch).Stuck?
    ensures Perform(c, d, latch).cpu.pc % 2 == 0
  {
    hide Perform, Compute, LoadValue, StoreValue;
    var r := Perform(c, d, latch);
    if r.Running? && d.Jal? {
      var p := r.cpu.pc;
      var k := (p - (c.pc + d.imm)) / TWO_32;
      assert p == c.pc + d.imm + TWO_32 * k;
      EvenSum(c.pc, d.imm, k);
    }
  }

  lemma EvenSum(a: int, b: int, k: int)
    requires a % 2 == 0 && b % 2 == 0
    ensures (a + b + TWO_32 * k) % 2 == 0
  {
    DivModUnique(a + b + TWO_32 * k, 2, a / 2 + b / 2 + TWO_31 * k, 0);
  }

  /** A tick from an even pc leaves pc even. */
  lemma StepKeepsPcEven(c: Cpu)
    requires Valid(c) && c.pc % 2 == 0 && !Step(c).Stuck?
    ensures Step(c).cpu.pc % 2 == 0
  {
    hide Perform, Decode;
    if c.pc != 0 && c.pc - DRAM_BASE <= DRAM_SIZE {
      var c2 := c.(ticks := c.ticks + 1, regs := c.regs[0 := 0]);
      var inst := MemLoad32(c2.bus.dram, c.pc - DRAM_BASE).value;
      assert Step(c) == Execute(c2, inst);
      PerformKeepsPcEven(c2, Decode(inst), inst);
    }
  }

  /** pc is even after any number of ticks from an even pc. */
  lemma {:induction false} RunKeepsPcEven(c: Cpu, n: nat)
    requires Valid(c) && c.pc % 2 == 0 && !Run(c, n).Stuck?
    ensures Run(c, n).cpu.pc % 2 == 0
    decreases n
  {
    hide Execute;
    if n > 0 {
      RunUnfold(c, n - 1);
      StepKeepsPcEven(c);
      if Step(c).Running? {
        RunKeepsPcEven(Step(c).cpu, n - 1);
      }
    }
  }

  /** The reset pc is even, so every reachable pc is. */
  lemma ResetPcEven(code: seq<Byte>, n: nat)
    requires !Run(PowerOn(code), n).Stuck?
    ensures Run(PowerOn(code), n).cpu.pc % 2 == 0
  {
    RunKeepsPcEven(PowerOn(code), n);
  }

  // ---------------------------------------------------------------------
  // Runs
  //
  // These proofs only compose ticks, so they hide the definition of
  // `Execute` and work from its contract.

  /** m + n ticks are m ticks followed by n more. */
  lemma {:induction false} RunAdditive(c: Cpu, m: nat, n: nat)
    requires Valid(c) && Run(c, m).Running?
    ensures Run(c, m + n) == Run(Run(c, m).cpu, n)
    decreases m
  {
    hide Execute;
    if m > 0 {
      var k := m - 1;
      assert Step(c).Running? && Run(c, m) == Run(Step(c).cpu, k) by {
        RunUnfold(c, k);
        assert k + 1 == m;
      }
      assert Run(c, m + n) == Run(Step(c).cpu, k + n) by {
        RunUnfold(c, k + n);
        assert k + n + 1 == m + n;
      }
      RunAdditive(Step(c).cpu, k, n);
    }
  }

  /** A run that halts stays halted: more ticks give the same outcome. */
  lemma {:induction false} RunHaltStays(c: Cpu, m: nat, n: nat)
    requires Valid(c) && !Run(c, m).Running?
    ensures Run(c, m + n) == Run(c, m)
    decreases m
  {
    hide Execute;
    var k := m - 1;
    if Step(c).Running? {
      assert Run(c, m) == Run(Step(c).cpu, k) by {
        RunUnfold(c, k);
        assert k + 1 == m;
      }
      assert Run(c, m + n) == Run(Step(c).cpu, k + n) by {
        RunUnfold(c, k + n);
        assert k + n + 1 == m + n;
      }
      RunHaltStays(Step(c).cpu, k, n);
    } else {
      assert Run(c, m) == Step(c) by {
        RunUnfold(c, k);
        assert k + 1 == m;
      }
      assert Run(c, m + n) == Step(c) by {
        RunUnfold(c, k + n);
        assert k + n + 1 == m + n;
      }
    }
  }

  /** One tick, then the rest of the run. */
  lemma RunUnfold(c: Cpu, k: nat)
    requires Valid(c)
    ensures Step(c).Running? ==> Run(c, k + 1) == Run(Step(c).cpu, k)
    ensures !Step(c).Running? ==> Run(c, k + 1) == Step(c)
  {
    hide Execute;
  }

}

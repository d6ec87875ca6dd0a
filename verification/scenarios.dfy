/**
 * Small programs run on the model from power-on: the first instruction of a
 * program, an all-zero image, a branch-to-self loop, the x0 write that
 * survives until the next tick, and the two halting checks of `tick`.
 */
module Scenarios {
  import opened Words
  import opened Bits
  import Alu
  import opened Formats
  import opened MemoryBus
  import opened Instructions
  import opened Engine

  /** The bytes of an instruction word in memory order (little-endian). */
  function Image(w: Word): (code: seq<Byte>)
    ensures |code| == 4 && forall k :: 0 <= k < 4 ==> code[k] == ByteOf(w, k)
  {
    [ByteOf(w, 0), ByteOf(w, 1), ByteOf(w, 2), ByteOf(w, 3)]
  }

  /**
   * A tick at a fetchable pc whose four bytes hold the word w executes w,
   * after counting the tick and clearing x0.
   */
  lemma FetchWord(c: Cpu, w: Word)
    requires Valid(c) && Fetchable(c.pc)
    requires forall k :: 0 <= k < 4 ==> c.bus.dram[c.pc - DRAM_BASE + k] == ByteOf(w, k)
    ensures Step(c) == Execute(c.(ticks := c.ticks + 1, regs := c.regs[0 := 0]), w)
  {
    hide Execute;
    var r := MemLoad32(c.bus.dram, c.pc - DRAM_BASE);
    assert r.Some?;
    BytesRecompose(r.value);
    BytesRecompose(w);
    Alu.WordMod(r.value);
    Alu.WordMod(w);
    assert r == Some(w);
  }

  /** `addi x10, x0, 1`. */
  const ADDI_A0_1: Word := 0x0010_0513

  /** `addi x0, x0, 5`: a write to x0, which `tick` only clears before the next fetch. */
  const ADDI_ZERO_5: Word := 0x0050_0013

  /** `beq x0, x0, 0`: a branch to itself. */
  const SPIN: Word := 0x0000_0063

  lemma DecodeExamples()
    ensures Decode(ADDI_A0_1) == OpImm(Add, 10, 0, 1)
    ensures Decode(ADDI_ZERO_5) == OpImm(Add, 0, 0, 5)
    ensures Decode(SPIN) == Branch(Beq, 0, 0, 0)
    ensures Decode(0) == Unknown
  {
    assert Opcode(ADDI_A0_1) == OP_IMM && Opcode(ADDI_ZERO_5) == OP_IMM;
    assert Opcode(SPIN) == BRANCH && Opcode(0) == 0;
  }

  /** The first tick of a program loads its first word and executes it. */
  lemma FirstInstruction()
    ensures var r := Step(PowerOn(Image(ADDI_A0_1)));
      && r.Running? && r.cpu.regs[10] == 1 && r.cpu.pc == DRAM_BASE + 4 && r.cpu.ticks == 1
      && r.cpu.regs[2] == DRAM_SIZE
  {
    var c := PowerOn(Image(ADDI_A0_1));
    FetchWord(c, ADDI_A0_1);
    DecodeExamples();
    var c2 := c.(ticks := c.ticks + 1, regs := c.regs[0 := 0]);
    assert Execute(c2, ADDI_A0_1) == Perform(c2, OpImm(Add, 10, 0, 1), ADDI_A0_1);
    assert Compute(Add, c2.regs[0], 1) == Some(1);
  }

  /** Power-on with no code: DRAM is zero, and the all-zero word is not an instruction. */
  lemma EmptyImageTraps()
    ensures var r := Step(PowerOn([]));
      && r.Trapped? && r.fault == UnknownInstruction && r.cpu.pc == DRAM_BASE + 4 && r.cpu.ticks == 1
  {
    var c := PowerOn([]);
    FetchWord(c, 0);
    DecodeExamples();
  }

  /** After `addi x0, x0, 5` x0 reads 5 until the next tick clears it. */
  lemma ZeroRegisterWrite()
    ensures var r := Step(PowerOn(Image(ADDI_ZERO_5)));
      r.Running? && r.cpu.regs[0] == 5
  {
    var c := PowerOn(Image(ADDI_ZERO_5));
    FetchWord(c, ADDI_ZERO_5);
    DecodeExamples();
    var c2 := c.(ticks := c.ticks + 1, regs := c.regs[0 := 0]);
    assert Execute(c2, ADDI_ZERO_5) == Perform(c2, OpImm(Add, 0, 0, 5), ADDI_ZERO_5);
    assert Compute(Add, c2.regs[0], 5) == Some(5);
  }

  /** The state of the spinning program: pc at the branch, the branch in place. */
  predicate Spinning(c: Cpu)
  {
    Valid(c) && c.pc == DRAM_BASE && forall k :: 0 <= k < 4 ==> c.bus.dram[k] == ByteOf(SPIN, k)
  }

  lemma SpinStep(c: Cpu)
    requires Spinning(c)
    ensures Step(c).Running? && Spinning(Step(c).cpu) && Step(c).cpu.ticks == c.ticks + 1
  {
    FetchWord(c, SPIN);
    DecodeExamples();
    var c2 := c.(ticks := c.ticks + 1, regs := c.regs[0 := 0]);
    assert Execute(c2, SPIN) == Perform(c2, Branch(Beq, 0, 0, 0), SPIN);
  }

  /** `beq x0, x0, 0` keeps pc at the branch for any number of ticks. */
  lemma {:induction false} SpinForever(c: Cpu, n: nat)
    requires Spinning(c)
    ensures Run(c, n).Running? && Spinning(Run(c, n).cpu) && Run(c, n).cpu.ticks == c.ticks + n
    decreases n
  {
    hide Step;
    if n > 0 {
      SpinStep(c);
      SpinForever(Step(c).cpu, n - 1);
    }
  }

  lemma SpinFromPowerOn(n: nat)
    ensures var r := Run(PowerOn(Image(SPIN)), n);
      r.Running? && r.cpu.pc == DRAM_BASE && r.cpu.ticks == n
  {
    SpinForever(PowerOn(Image(SPIN)), n);
  }

  /** A jump to address 0 halts the next tick; so does a pc past the end of DRAM. */
  lemma HaltingChecks(c: Cpu)
    requires Valid(c)
    ensures c.pc == 0 ==> Step(c) == Trapped(NullJump, c.(ticks := c.ticks + 1))
    ensures c.pc == DRAM_BASE + DRAM_SIZE + 1 ==> Step(c) == Trapped(PcOutOfRange, c.(ticks := c.ticks + 1))
    ensures c.pc == DRAM_BASE + DRAM_SIZE ==> Step(c) == Stuck(FetchOutsideDram)
  {
  }
}

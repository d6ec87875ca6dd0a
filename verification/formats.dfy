/**
 * The six RV32I instruction formats (risc-v/__main__.py, `decode_r_type` …
 * `decode_j_type`), following chapter 2, sections 2.2–2.3 of The RISC-V
 * Instruction Set Manual, Volume I.
 *
 * Each decoder is stated against the layout it reads: the fields it returns
 * reassemble the bits of the word, and an encoder for each format is proved
 * to be undone by the decoder.
 */
module Formats {
  import opened Words
  import opened Sign
  import opened Bits
  import Alu

  // ---------------------------------------------------------------------
  // Fixed fields, as the source extracts them with shifts and masks

  /** Bits 6..0. */
  function Opcode(inst: Word): int { inst % 0x80 }

  /** Bits 11..7. */
  function RdField(inst: Word): Reg { (inst / 0x80) % 0x20 }

  /** Bits 19..15. */
  function Rs1Field(inst: Word): Reg { (inst / 0x8000) % 0x20 }

  /** Bits 24..20. */
  function Rs2Field(inst: Word): Reg { (inst / 0x10_0000) % 0x20 }

  /** Bits 14..12. */
  function Funct3(inst: Word): int { (inst / 0x1000) % 8 }

  /** Bits 31..25. */
  function Funct7(inst: Word): int { inst / 0x200_0000 }

  /** The standard's sign extension of a 12-bit field. */
  function SignExtend12(field: int): int
  {
    if field >= 0x800 then field - 0x1000 else field
  }

  // ---------------------------------------------------------------------
  // Field layout

  /** The layout every 32-bit word has: the fields the R-type decoder reads. */
  lemma Layout(inst: Word)
    ensures inst == Opcode(inst) + 0x80 * RdField(inst) + 0x1000 * Funct3(inst) + 0x8000 * Rs1Field(inst)
                  + 0x10_0000 * Rs2Field(inst) + 0x200_0000 * Funct7(inst)
  {
    DivDiv(inst, 0x80, 0x20);
    DivDiv(inst, 0x1000, 8);
    DivDiv(inst, 0x8000, 0x20);
    DivDiv(inst, 0x10_0000, 0x20);
  }

  // ---------------------------------------------------------------------
  // Decoded formats

  datatype RType = RType(rd: Reg, rs1: Reg, rs2: Reg, funct3: int, funct7: int)
  datatype IType = IType(rd: Reg, rs1: Reg, funct3: int, imm: int)
  datatype SType = SType(rs1: Reg, rs2: Reg, funct3: int, imm: int)
  datatype BType = BType(rs1: Reg, rs2: Reg, funct3: int, imm: int)
  datatype UType = UType(rd: Reg, imm: int)
  datatype JType = JType(rd: Reg, imm: int)

  /** `decode_r_type`: the fields put back in place rebuild the word. */
  function DecodeR(inst: Word): (f: RType)
    ensures 0 <= f.funct3 < 8 && 0 <= f.funct7 < 0x80
    ensures inst == Opcode(inst) + 0x80 * f.rd + 0x1000 * f.funct3 + 0x8000 * f.rs1
                  + 0x10_0000 * f.rs2 + 0x200_0000 * f.funct7
  {
    Layout(inst);
    RType(RdField(inst), Rs1Field(inst), Rs2Field(inst), Funct3(inst), Funct7(inst))
  }

  /** `decode_i_type`: the immediate is bits 31..20 read as a signed 12-bit number. */
  function DecodeI(inst: Word): (f: IType)
    ensures 0 <= f.funct3 < 8
    ensures -0x800 <= f.imm < 0x800
    ensures f.imm % 0x1000 == inst / 0x10_0000
    ensures f.imm == SignExtend12(inst / 0x10_0000)
  {
    IType(RdField(inst), Rs1Field(inst), Funct3(inst), ToSigned32(inst) / 0x10_0000)
  }

  /**
   * `decode_i_type_unsigned`: the sign-extended immediate represented as a
   * 32-bit word (used by xori/ori/andi).
   */
  function DecodeIUnsigned(inst: Word): (imm: int)
    ensures 0 <= imm < TWO_32
    ensures (imm - SignExtend12(inst / 0x10_0000)) % TWO_32 == 0
  {
    ToUnsigned32(ToSigned32(inst) / 0x10_0000)
  }

  /** `decode_i_type_csr`: the immediate is the raw 12-bit CSR index. */
  function DecodeCsr(inst: Word): (f: IType)
    ensures 0 <= f.funct3 < 8
    ensures 0 <= f.imm < 0x1000
    ensures inst == inst % 0x10_0000 + f.imm * 0x10_0000
  {
    IType(RdField(inst), Rs1Field(inst), Funct3(inst), inst / 0x10_0000)
  }

  /**
   * `decode_s_type`. The source converts the upper seven bits back to an
   * unsigned 32-bit number before shifting them into place, so for a negative
   * offset the result is not the sign-extended offset but a non-negative number
   * congruent to it modulo 2^32.
   */
  function DecodeS(inst: Word): (f: SType)
    ensures 0 <= f.funct3 < 8
    ensures 0 <= f.imm
    ensures (f.imm - SignExtend12(Funct7(inst) * 0x20 + RdField(inst))) % TWO_32 == 0
  {
    SType(Rs1Field(inst), Rs2Field(inst), Funct3(inst),
          ToUnsigned32(ToSigned32(inst) / 0x200_0000) * 0x20 + (inst / 0x80) % 0x20)
  }

  /** `decode_b_type`: an even offset in [-4096, 4094], negative exactly when bit 31 is set. */
  function DecodeB(inst: Word): (f: BType)
    ensures 0 <= f.funct3 < 8
    ensures f.imm % 2 == 0 && -0x1000 <= f.imm < 0x1000
    ensures f.imm < 0 <==> inst >= TWO_31
    ensures f.imm % 0x2000 == (inst / TWO_31) * 0x1000 + ((inst / 0x80) % 2) * 0x800
                            + ((inst / 0x200_0000) % 0x40) * 0x20 + ((inst / 0x100) % 0x10) * 2
  {
    BType(Rs1Field(inst), Rs2Field(inst), Funct3(inst),
          (ToSigned32(inst) / TWO_31) * 0x1000 + ((inst / 0x80) % 2) * 0x800
          + ((inst / 0x200_0000) % 0x40) * 0x20 + ((inst / 0x100) % 0x10) * 2)
  }

  /** `decode_u_type`: the word with its low 12 bits cleared. */
  function DecodeU(inst: Word): (f: UType)
    ensures f.imm % 0x1000 == 0
    ensures 0 <= f.imm <= inst < f.imm + 0x1000
  {
    UType(RdField(inst), (inst / 0x1000) * 0x1000)
  }

  /** `decode_j_type`: an even offset in [-2^20, 2^20 - 2], negative exactly when bit 31 is set. */
  function DecodeJ(inst: Word): (f: JType)
    ensures f.imm % 2 == 0 && -0x10_0000 <= f.imm < 0x10_0000
    ensures f.imm < 0 <==> inst >= TWO_31
    ensures f.imm % 0x20_0000 == (inst / TWO_31) * 0x10_0000 + ((inst / 0x1000) % 0x100) * 0x1000
                               + ((inst / 0x10_0000) % 2) * 0x800 + ((inst / 0x20_0000) % 0x400) * 2
  {
    JType(RdField(inst),
          (ToSigned32(inst) / TWO_31) * 0x10_0000 + ((inst / 0x1000) % 0x100) * 0x1000
          + ((inst / 0x10_0000) % 2) * 0x800 + ((inst / 0x20_0000) % 0x400) * 2)
  }

  // ---------------------------------------------------------------------
  // Encoders, and the round trips through the decoders

  /** Two values in the same window of width m that agree modulo m are equal. */
  lemma SameWindow(x: int, y: int, lo: int, m: int)
    requires m > 0 && lo <= x < lo + m && lo <= y < lo + m
    requires x % m == y % m
    ensures x == y
  {
    var kx, ky := x / m, y / m;
    assert x - y == m * (kx - ky);
    if kx > ky {
      MulMonotone(m, 1, kx - ky);
      assert false;
    } else if kx < ky {
      MulMonotone(m, 1, ky - kx);
      assert false;
    }
  }

  function EncodeR(opcode: int, f: RType): Word
    requires 0 <= opcode < 0x80 && 0 <= f.funct3 < 8 && 0 <= f.funct7 < 0x80
  {
    opcode + 0x80 * f.rd + 0x1000 * f.funct3 + 0x8000 * f.rs1 + 0x10_0000 * f.rs2 + 0x200_0000 * f.funct7
  }

  lemma DecodeEncodeR(opcode: int, f: RType)
    requires 0 <= opcode < 0x80 && 0 <= f.funct3 < 8 && 0 <= f.funct7 < 0x80
    ensures Opcode(EncodeR(opcode, f)) == opcode
    ensures DecodeR(EncodeR(opcode, f)) == f
  {
    var w := EncodeR(opcode, f);
    Field(w, 0, opcode, f.rd + 0x20 * f.funct3 + 0x100 * f.rs1 + 0x2000 * f.rs2 + 0x4_0000 * f.funct7, 1, 0x80);
    Field(w, opcode, f.rd, f.funct3 + 8 * f.rs1 + 0x100 * f.rs2 + 0x2000 * f.funct7, 0x80, 0x20);
    Field(w, opcode + 0x80 * f.rd, f.funct3, f.rs1 + 0x20 * f.rs2 + 0x400 * f.funct7, 0x1000, 8);
    Field(w, opcode + 0x80 * f.rd + 0x1000 * f.funct3, f.rs1, f.rs2 + 0x20 * f.funct7, 0x8000, 0x20);
    Field(w, opcode + 0x80 * f.rd + 0x1000 * f.funct3 + 0x8000 * f.rs1, f.rs2, f.funct7, 0x10_0000, 0x20);
  }

  function EncodeI(opcode: int, f: IType): Word
    requires 0 <= opcode < 0x80 && 0 <= f.funct3 < 8 && -0x800 <= f.imm < 0x800
  {
    opcode + 0x80 * f.rd + 0x1000 * f.funct3 + 0x8000 * f.rs1 + 0x10_0000 * (f.imm % 0x1000)
  }

  lemma DecodeEncodeI(opcode: int, f: IType)
    requires 0 <= opcode < 0x80 && 0 <= f.funct3 < 8 && -0x800 <= f.imm < 0x800
    ensures Opcode(EncodeI(opcode, f)) == opcode
    ensures DecodeI(EncodeI(opcode, f)) == f
  {
    var w := EncodeI(opcode, f);
    var u := f.imm % 0x1000;
    Field(w, 0, opcode, f.rd + 0x20 * f.funct3 + 0x100 * f.rs1 + 0x2000 * u, 1, 0x80);
    Field(w, opcode, f.rd, f.funct3 + 8 * f.rs1 + 0x100 * u, 0x80, 0x20);
    Field(w, opcode + 0x80 * f.rd, f.funct3, f.rs1 + 0x20 * u, 0x1000, 8);
    Field(w, opcode + 0x80 * f.rd + 0x1000 * f.funct3, f.rs1, u, 0x8000, 0x20);
    assert SignExtend12(u) == f.imm;
  }

  function EncodeS(opcode: int, f: SType): Word
    requires 0 <= opcode < 0x80 && 0 <= f.funct3 < 8 && -0x800 <= f.imm < 0x800
  {
    var u := f.imm % 0x1000;
    opcode + 0x80 * (u % 0x20) + 0x1000 * f.funct3 + 0x8000 * f.rs1 + 0x10_0000 * f.rs2
    + 0x200_0000 * (u / 0x20)
  }

  /**
   * The S-type round trip recovers the registers and funct3 exactly and the
   * offset modulo 2^32, which is all a store uses: the effective address
   * `add(rs1, imm)` is the one the offset itself gives (`Alu.AddCongruent`).
   */
  lemma DecodeEncodeS(opcode: int, f: SType)
    requires 0 <= opcode < 0x80 && 0 <= f.funct3 < 8 && -0x800 <= f.imm < 0x800
    ensures var g := DecodeS(EncodeS(opcode, f));
      && Opcode(EncodeS(opcode, f)) == opcode
      && g.rs1 == f.rs1 && g.rs2 == f.rs2 && g.funct3 == f.funct3
      && (g.imm - f.imm) % TWO_32 == 0
  {
    var w := EncodeS(opcode, f);
    SFields(opcode, f);
    DecodeSRegisters(w);
    TwelveBitOffset(f.imm, Funct7(w) * 0x20 + RdField(w));
    DecodeSOffset(w, f.imm);
  }

  /** The S-type offset decoded from any word is congruent to the sign-extended split field. */
  lemma DecodeSOffset(w: Word, imm: int)
    requires SignExtend12(Funct7(w) * 0x20 + RdField(w)) == imm
    ensures (DecodeS(w).imm - imm) % TWO_32 == 0
  {
  }

  /** A 12-bit offset comes back from its two's-complement field. */
  lemma TwelveBitOffset(imm: int, field: int)
    requires -0x800 <= imm < 0x800 && field == imm % 0x1000
    ensures SignExtend12(field) == imm
  {
    if imm < 0 {
      DivModUnique(imm, 0x1000, -1, imm + 0x1000);
    } else {
      DivModUnique(imm, 0x1000, 0, imm);
    }
  }

  lemma DecodeSRegisters(w: Word)
    ensures DecodeS(w).rs1 == Rs1Field(w) && DecodeS(w).rs2 == Rs2Field(w) && DecodeS(w).funct3 == Funct3(w)
  {
  }

  /** The fields of an S-type word: each lands where the decoder looks for it. */
  lemma SFields(opcode: int, f: SType)
    requires 0 <= opcode < 0x80 && 0 <= f.funct3 < 8 && -0x800 <= f.imm < 0x800
    ensures var w := EncodeS(opcode, f);
      && Opcode(w) == opcode && Rs1Field(w) == f.rs1 && Rs2Field(w) == f.rs2 && Funct3(w) == f.funct3
      && Funct7(w) * 0x20 + RdField(w) == f.imm % 0x1000
  {
    var w := EncodeS(opcode, f);
    var u := f.imm % 0x1000;
    var lo5, hi7 := u % 0x20, u / 0x20;
    assert 0 <= lo5 < 0x20 && 0 <= hi7 < 0x80 && u == hi7 * 0x20 + lo5;
    Field(w, 0, opcode, lo5 + 0x20 * f.funct3 + 0x100 * f.rs1 + 0x2000 * f.rs2 + 0x4_0000 * hi7, 1, 0x80);
    Field(w, opcode, lo5, f.funct3 + 8 * f.rs1 + 0x100 * f.rs2 + 0x2000 * hi7, 0x80, 0x20);
    Field(w, opcode + 0x80 * lo5, f.funct3, f.rs1 + 0x20 * f.rs2 + 0x400 * hi7, 0x1000, 8);
    Field(w, opcode + 0x80 * lo5 + 0x1000 * f.funct3, f.rs1, f.rs2 + 0x20 * hi7, 0x8000, 0x20);
    Field(w, opcode + 0x80 * lo5 + 0x1000 * f.funct3 + 0x8000 * f.rs1, f.rs2, hi7, 0x10_0000, 0x20);
  }

  /** For a negative offset the S-type decoder does not return the offset itself. */
  lemma DecodeSNegativeOffset()
    ensures DecodeS(0xFE00_0023).imm == 0x1F_FFFF_FFE0
    ensures SignExtend12(Funct7(0xFE00_0023) * 0x20 + RdField(0xFE00_0023)) == -0x20
  {
  }

  /**
   * The B-type encoder scatters the halved offset h = imm / 2 (taken modulo
   * 2^12) as bits 4..1 into 11..8, bits 10..5 into 30..25, bit 11 into 7 and
   * bit 12 into 31.
   */
  function EncodeB(opcode: int, f: BType): Word
    requires 0 <= opcode < 0x80 && 0 <= f.funct3 < 8
    requires -0x1000 <= f.imm < 0x1000 && f.imm % 2 == 0
  {
    var h := (f.imm % 0x2000) / 2;
    opcode + 0x80 * ((h / 0x400) % 2) + 0x100 * (h % 0x10) + 0x1000 * f.funct3
    + 0x8000 * f.rs1 + 0x10_0000 * f.rs2 + 0x200_0000 * ((h / 0x10) % 0x40) + TWO_31 * (h / 0x800)
  }

  /** The pieces of a B-type word sit where the decoder reads them. */
  lemma BFields(w: int, opcode: int, b11: int, lo4: int, funct3: int, rs1: int, rs2: int, mid6: int, b12: int)
    requires 0 <= opcode < 0x80 && 0 <= b11 < 2 && 0 <= lo4 < 0x10 && 0 <= funct3 < 8
    requires 0 <= rs1 < 0x20 && 0 <= rs2 < 0x20 && 0 <= mid6 < 0x40 && 0 <= b12 < 2
    requires w == opcode + 0x80 * b11 + 0x100 * lo4 + 0x1000 * funct3 + 0x8000 * rs1 + 0x10_0000 * rs2
                  + 0x200_0000 * mid6 + TWO_31 * b12
    ensures w % 0x80 == opcode && (w / 0x80) % 2 == b11 && (w / 0x100) % 0x10 == lo4
    ensures (w / 0x1000) % 8 == funct3 && (w / 0x8000) % 0x20 == rs1 && (w / 0x10_0000) % 0x20 == rs2
    ensures (w / 0x200_0000) % 0x40 == mid6 && w / TWO_31 == b12
  {
    var rest := funct3 + 8 * rs1 + 0x100 * rs2 + 0x2000 * mid6 + 0x8_0000 * b12;
    Field(w, 0, opcode, b11 + 2 * lo4 + 0x20 * rest, 1, 0x80);
    Field(w, opcode, b11, lo4 + 0x10 * rest, 0x80, 2);
    Field(w, opcode + 0x80 * b11, lo4, rest, 0x100, 0x10);
    Field(w, opcode + 0x80 * b11 + 0x100 * lo4, funct3, rs1 + 0x20 * rs2 + 0x400 * mid6 + 0x1_0000 * b12, 0x1000, 8);
    var low15 := opcode + 0x80 * b11 + 0x100 * lo4 + 0x1000 * funct3;
    Field(w, low15, rs1, rs2 + 0x20 * mid6 + 0x800 * b12, 0x8000, 0x20);
    Field(w, low15 + 0x8000 * rs1, rs2, mid6 + 0x40 * b12, 0x10_0000, 0x20);
    Field(w, low15 + 0x8000 * rs1 + 0x10_0000 * rs2, mid6, b12, 0x200_0000, 0x40);
  }

  lemma DecodeEncodeB(opcode: int, f: BType)
    requires 0 <= opcode < 0x80 && 0 <= f.funct3 < 8
    requires -0x1000 <= f.imm < 0x1000 && f.imm % 2 == 0
    ensures Opcode(EncodeB(opcode, f)) == opcode
    ensures DecodeB(EncodeB(opcode, f)) == f
  {
    var w := EncodeB(opcode, f);
    var u := f.imm % 0x2000;
    var h := u / 2;
    assert u == 2 * h by {
      DivModUnique(f.imm, 2, f.imm / 2, 0);
      DivModUnique(f.imm, 0x2000, f.imm / 0x2000, u);
    }
    var lo4, mid6, b11, b12 := h % 0x10, (h / 0x10) % 0x40, (h / 0x400) % 2, h / 0x800;
    assert h == lo4 + 0x10 * mid6 + 0x400 * b11 + 0x800 * b12 by {
      DivDiv(h, 0x10, 0x40);
      DivDiv(h, 0x400, 2);
    }
    assert w == opcode + 0x80 * b11 + 0x100 * lo4 + 0x1000 * f.funct3 + 0x8000 * f.rs1 + 0x10_0000 * f.rs2
               + 0x200_0000 * mid6 + TWO_31 * b12;
    BFields(w, opcode, b11, lo4, f.funct3, f.rs1, f.rs2, mid6, b12);
    var g := DecodeB(w);
    assert g.imm % 0x2000 == u;
    SameWindow(g.imm, f.imm, -0x1000, 0x2000);
  }

  function EncodeU(opcode: int, f: UType): Word
    requires 0 <= opcode < 0x80 && 0 <= f.imm < TWO_32 && f.imm % 0x1000 == 0
  {
    opcode + 0x80 * f.rd + f.imm
  }

  lemma DecodeEncodeU(opcode: int, f: UType)
    requires 0 <= opcode < 0x80 && 0 <= f.imm < TWO_32 && f.imm % 0x1000 == 0
    ensures Opcode(EncodeU(opcode, f)) == opcode
    ensures DecodeU(EncodeU(opcode, f)) == f
  {
    var w := EncodeU(opcode, f);
    var k := f.imm / 0x1000;
    assert f.imm == 0x1000 * k;
    Field(w, 0, opcode, f.rd + 0x20 * k, 1, 0x80);
    Field(w, opcode, f.rd, k, 0x80, 0x20);
  }

  /**
   * The J-type encoder scatters the halved offset h = imm / 2 (taken modulo
   * 2^20) as bits 10..1 into 30..21, bit 11 into 20, bits 19..12 into 19..12
   * and bit 20 into 31.
   */
  function EncodeJ(opcode: int, f: JType): Word
    requires 0 <= opcode < 0x80
    requires -0x10_0000 <= f.imm < 0x10_0000 && f.imm % 2 == 0
  {
    var h := (f.imm % 0x20_0000) / 2;
    opcode + 0x80 * f.rd + 0x1000 * ((h / 0x800) % 0x100) + 0x10_0000 * ((h / 0x400) % 2)
    + 0x20_0000 * (h % 0x400) + TWO_31 * (h / 0x8_0000)
  }

  /** The pieces of a J-type word sit where the decoder reads them. */
  lemma JFields(w: int, opcode: int, rd: int, lo10: int, b11: int, mid8: int, b20: int)
    requires 0 <= opcode < 0x80 && 0 <= rd < 0x20 && 0 <= lo10 < 0x400 && 0 <= b11 < 2
    requires 0 <= mid8 < 0x100 && 0 <= b20 < 2
    requires w == opcode + 0x80 * rd + 0x1000 * mid8 + 0x10_0000 * b11 + 0x20_0000 * lo10 + TWO_31 * b20
    ensures w % 0x80 == opcode && (w / 0x80) % 0x20 == rd && (w / 0x1000) % 0x100 == mid8
    ensures (w / 0x10_0000) % 2 == b11 && (w / 0x20_0000) % 0x400 == lo10 && w / TWO_31 == b20
  {
    Field(w, 0, opcode, rd + 0x20 * mid8 + 0x2000 * b11 + 0x4000 * lo10 + 0x100_0000 * b20, 1, 0x80);
    Field(w, opcode, rd, mid8 + 0x100 * b11 + 0x200 * lo10 + 0x8_0000 * b20, 0x80, 0x20);
    Field(w, opcode + 0x80 * rd, mid8, b11 + 2 * lo10 + 0x800 * b20, 0x1000, 0x100);
    Field(w, opcode + 0x80 * rd + 0x1000 * mid8, b11, lo10 + 0x400 * b20, 0x10_0000, 2);
    Field(w, opcode + 0x80 * rd + 0x1000 * mid8 + 0x10_0000 * b11, lo10, b20, 0x20_0000, 0x400);
  }

  lemma DecodeEncodeJ(opcode: int, f: JType)
    requires 0 <= opcode < 0x80
    requires -0x10_0000 <= f.imm < 0x10_0000 && f.imm % 2 == 0
    ensures Opcode(EncodeJ(opcode, f)) == opcode
    ensures DecodeJ(EncodeJ(opcode, f)) == f
  {
    var w := EncodeJ(opcode, f);
    var u := f.imm % 0x20_0000;
    var h := u / 2;
    assert u == 2 * h by {
      DivModUnique(f.imm, 2, f.imm / 2, 0);
      DivModUnique(f.imm, 0x20_0000, f.imm / 0x20_0000, u);
    }
    var lo10, b11, mid8, b20 := h % 0x400, (h / 0x400) % 2, (h / 0x800) % 0x100, h / 0x8_0000;
    assert h == lo10 + 0x400 * b11 + 0x800 * mid8 + 0x8_0000 * b20 by {
      DivDiv(h, 0x400, 2);
      DivDiv(h, 0x800, 0x100);
    }
    assert w == opcode + 0x80 * f.rd + 0x1000 * mid8 + 0x10_0000 * b11 + 0x20_0000 * lo10 + TWO_31 * b20;
    JFields(w, opcode, f.rd, lo10, b11, mid8, b20);
    var g := DecodeJ(w);
    assert g.imm % 0x20_0000 == u;
    SameWindow(g.imm, f.imm, -0x10_0000, 0x20_0000);
  }

  /** The CSR form: an I-type word whose immediate is the unsigned 12-bit CSR index. */
  function EncodeCsr(opcode: int, f: IType): Word
    requires 0 <= opcode < 0x80 && 0 <= f.funct3 < 8 && 0 <= f.imm < 0x1000
  {
    opcode + 0x80 * f.rd + 0x1000 * f.funct3 + 0x8000 * f.rs1 + 0x10_0000 * f.imm
  }

  lemma DecodeEncodeCsr(opcode: int, f: IType)
    requires 0 <= opcode < 0x80 && 0 <= f.funct3 < 8 && 0 <= f.imm < 0x1000
    ensures Opcode(EncodeCsr(opcode, f)) == opcode
    ensures DecodeCsr(EncodeCsr(opcode, f)) == f
  {
    var w := EncodeCsr(opcode, f);
    Field(w, 0, opcode, f.rd + 0x20 * f.funct3 + 0x100 * f.rs1 + 0x2000 * f.imm, 1, 0x80);
    Field(w, opcode, f.rd, f.funct3 + 8 * f.rs1 + 0x100 * f.imm, 0x80, 0x20);
    Field(w, opcode + 0x80 * f.rd, f.funct3, f.rs1 + 0x20 * f.imm, 0x1000, 8);
    Field(w, opcode + 0x80 * f.rd + 0x1000 * f.funct3, f.rs1, f.imm, 0x8000, 0x20);
  }
}

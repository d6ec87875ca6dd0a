# RV32I simulator core in Dafny

This project models the RISC-V simulator in `risc-v/__main__.py`, a Scratch
project generated from Python with the boiga library. It simulates the base
integer instruction set (RV32I) with the Zicsr instructions. The model has one
module per part of the simulator:

| module | file | part of the simulator |
|---|---|---|
| `Words` | words.dfy | 32-bit words, bytes, register indices |
| `Bits` | bits.dfy | powers of two, bits of a number, bitwise operations bit by bit |
| `Sign` | sign.dfy | `toSigned32/16/8`, `toUnsigned32` |
| `Alu` | alu.dfy | `add`, `sub`, the table-driven `b_xor/b_or/b_and`, the shifts, `less_than_*` |
| `Device` | device.dfy | the UART output list and `hw_store8` |
| `MemoryBus` | bus.dfy | `mem_load*`, `mem_store8`, the `bus_*` routing between DRAM and the device |
| `Formats` | formats.dfy | the `decode_*_type` field extractors, and an encoder per format |
| `Instructions` | instructions.dfy | `execute`'s choice of instruction from opcode, funct3 and funct7, and an assembler |
| `Engine` | engine.dfy | `reset`, the effect of each instruction, `tick`, and runs of ticks |
| `Hex` | hex.dfy | `to_hex` |
| `Properties` | properties.dfy | properties of execution: CSR updates, branch conditions, x0, pc parity, runs |
| `Scenarios` | scenarios.dfy | small programs from power-on |

The simulator state is the immutable record `Engine.Cpu`. It holds:

- 32 registers and 4096 CSRs, both as sequences of unbounded integers;
- pc and the tick counter;
- the bus, which is the 200000-byte DRAM plus the UART output lines.

One tick (`Engine.Step`) returns one of three outcomes:

- `Running(cpu)`: execution continues with the new state.
- `Trapped(fault, cpu)`: the simulator called `breakpoint` and stopped. This covers an unknown instruction, a pc beyond the end of DRAM, and a jump to address 0.
- `Stuck(gap)`: the model does not follow what the generated Scratch program does at that point (Scratch reads an out-of-range list item as empty and ignores an out-of-range replace). This covers:
  - a fetch that does not lie wholly in DRAM;
  - a DRAM access outside the array;
  - a shift by a negative count.

The arithmetic is Python's. `x >> n` is floor division by 2^n, `x & (2^k - 1)`
is `x % 2^k` (`Bits.MaskIsRemainder`) and `x << n` is multiplication by 2^n.
Values are not reduced to 32 bits where the source does not reduce them:
- branch targets;
- `auipc` results;
- the offset the S-type decoder returns.

The model follows the code literally, including these behaviours that differ from
RV32I:
- Register shift counts are not masked to 5 bits. A count of 32 or more gives 0, or all sign bits for `sra`.
- `sltiu` compares against the sign-extended immediate as a possibly negative number (`Alu.SltiuNegativeImmediate`).
- `csrrc`/`csrrci` combine the CSR with the operand by AND, not by AND NOT (`Properties.CsrClearWithZero`).
- A device half-word store sends both bytes to the same address (`MemoryBus.DeviceStore16`, `MemoryBus.DeviceStore16BothBytes`).
- x0 is cleared at the start of each tick, so a write to x0 is visible until the next tick (`Scenarios.ZeroRegisterWrite`).
- The pc range check uses `>`. A pc equal to the end of DRAM, or below DRAM and not 0, is not trapped. Its fetch is `Stuck(FetchOutsideDram)`.
- The S-type decoder does not sign-extend. It converts the upper seven bits back to an unsigned word before shifting them into place, so a negative store offset comes back as a large non-negative number (`Formats.DecodeSNegativeOffset`). It is still congruent to the offset modulo 2^32, so the masked address addition gives the right address (`Formats.DecodeSOffset`, `Alu.AddCongruent`).

RV32I sign-extends the S-type immediate; `decode_s_type`
(risc-v/__main__.py:329-337) does not, and the model follows the code.

## Model

| member | source | states |
|---|---|---|
| Sign.ToSigned32 | risc-v/__main__.py:64-71 | for a word: a value in [-2^31, 2^31), congruent to the word modulo 2^32, negative exactly when the word is at least 2^31 |
| Sign.ToSigned16 | risc-v/__main__.py:73-80 | for a half-word: a value in [-2^15, 2^15), congruent modulo 2^16 |
| Sign.ToSigned8 | risc-v/__main__.py:82-89 | for a byte: a value in [-128, 128), congruent modulo 256 |
| Sign.ToUnsigned32 | risc-v/__main__.py:91-98 | for a value in [-2^32, 2^32): a word congruent to it modulo 2^32 |
| Sign.SignedRoundTrip | risc-v/__main__.py:64-98 | `toUnsigned32(toSigned32(x)) == x` for every word x |
| Sign.UnsignedRoundTrip | risc-v/__main__.py:64-98 | `toSigned32(toUnsigned32(y)) == y` for every signed 32-bit y |
| Sign.ByteSignExtension | risc-v/__main__.py:480-486 | the `lb` widening keeps the byte as the low 8 bits and fills bits 8..31 with its top bit |
| Sign.HalfSignExtension | risc-v/__main__.py:487-493 | the `lh` widening keeps the half-word as the low 16 bits and fills bits 16..31 with its top bit |
| Alu.Add | risc-v/__main__.py:102-105 | `add` returns a word congruent to a + b modulo 2^32 |
| Alu.Sub | risc-v/__main__.py:107-111 | `sub` returns a word congruent to a - b modulo 2^32 |
| Alu.AddCarry | risc-v/__main__.py:102-105 | on words, `add` is exact or drops exactly one carry of 2^32 |
| Alu.SubBorrow | risc-v/__main__.py:107-111 | on words, `sub` is exact or borrows exactly 2^32 |
| Alu.AddSubInverse | risc-v/__main__.py:102-111 | `sub` undoes `add` and `add` undoes `sub` on words |
| Alu.AddCongruent | risc-v/__main__.py:102-105 | `add` depends on its second operand only modulo 2^32 |
| Alu.Logic | risc-v/__main__.py:113-135 | reference meaning of the bitwise operations: bit i of the result is the operation on bit i of the operands' low 32 bits |
| Alu.ByteLanes | risc-v/__main__.py:113-135 | the four table lookups recombined by lane weight equal the 32-bit bitwise operation, for all operands |
| Alu.LaneIsByteOp | risc-v/__main__.py:20-39 | a table entry indexed by a's byte plus 256 times b's byte is the 8-bit operation on those bytes |
| Alu.ByteLanesAreBitwise | risc-v/__main__.py:113-135 | the weighted sum of the four lanes is the 32-bit bitwise result on the operands' low 32 bits |
| Alu.LogicZero | risc-v/__main__.py:122-135 | OR or XOR with 0 gives the low 32 bits of the operand; AND with 0 gives 0 |
| Alu.LogicIdempotent | risc-v/__main__.py:122-135 | OR-ing (or AND-ing) the same operand twice equals doing it once |
| Alu.XorInvolution | risc-v/__main__.py:113-119 | XOR with the same operand twice gives back the first operand's low 32 bits |
| Alu.ShiftLeft | risc-v/__main__.py:137-140 | the result is the word congruent to a * 2^b modulo 2^32, so 0 for counts of 32 or more |
| Alu.ShiftLeftThenRight | risc-v/__main__.py:137-145 | shifting a word left by b and back right by b keeps exactly its low 32 - b bits |
| Alu.ShiftRight | risc-v/__main__.py:142-145 | the result is the floor of a / 2^b; for a word it is a word, and 0 for counts of 32 or more |
| Alu.ShiftRightArith | risc-v/__main__.py:147-152 | for a word, a word with the same sign bit; counts of 32 or more give all sign bits |
| Alu.ShiftRightArithIsFloorDivision | risc-v/__main__.py:147-152 | the signed reading of the result is the signed reading of a divided by 2^b, rounded down |
| Alu.ShiftExamples | risc-v/__main__.py:137-152 | `sra(0x80000000, 4) == 0xF8000000`, `srl(0x80000000, 4) == 0x08000000`, `sll(1, 4) == 16`, and `sll(0x80000001, 1) == 2` (the top bit is dropped) |
| Alu.LessThanUnsigned | risc-v/__main__.py:154-161 | returns only 0 or 1 |
| Alu.LessThanSigned | risc-v/__main__.py:163-173 | returns only 0 or 1 |
| Alu.SignedCompareBySignBit | risc-v/__main__.py:163-173 | signed less-than holds iff a is negative and b is not, or both have the same sign and a < b as words |
| Alu.SltiuNegativeImmediate | risc-v/__main__.py:470-474 | with a negative immediate `sltiu` is 0 for every register value, though comparing with the immediate's word would be 1 for smaller words |
| Bits.MaskIsRemainder | risc-v/__main__.py:104 | AND with the mask 2^n - 1 is the remainder modulo 2^n |
| Device.AsciiTableIsCodeOrder | risc-v/__main__.py:41 | the character table has 91 entries, and entry i has code i + 32 |
| Device.Glyph | risc-v/__main__.py:249 | a byte in 32..122 stands for the character with that code, any other byte for nothing |
| Device.HwStore8 | risc-v/__main__.py:243-252 | only address 0x10000000 reacts; 10 starts a new line; a printable byte extends the last line by its character; other bytes change nothing |
| Device.WriteAllExtends | risc-v/__main__.py:243-252 | printable bytes written one by one only extend the current line, by their characters |
| Device.NewlineAfterText | risc-v/__main__.py:243-252 | a text followed by a newline becomes a completed line, and an empty line follows it |
| Device.LetterThenNewline | risc-v/__main__.py:243-252 | storing 65 and then 10 to a fresh UART leaves the lines "A" and "" |
| MemoryBus.MemLoad8 | risc-v/__main__.py:193-196 | defined exactly when the index lies in DRAM; the result is that byte |
| MemoryBus.MemLoad16 | risc-v/__main__.py:187-191 | defined exactly when both bytes lie in DRAM; little-endian |
| MemoryBus.MemLoad32 | risc-v/__main__.py:179-185 | defined exactly when all four bytes lie in DRAM; byte k of the word is the byte at index + k |
| MemoryBus.Word32Bytes | risc-v/__main__.py:179-185 | four bytes placed little-endian are read back byte by byte |
| MemoryBus.MemStore8 | risc-v/__main__.py:238-241 | defined exactly when the index lies in DRAM; that byte changes and no other |
| MemoryBus.BusLoad8 | risc-v/__main__.py:229-236 | below DRAM_BASE the result is the stale bus latch; otherwise the DRAM byte at addr - DRAM_BASE |
| MemoryBus.BusLoad16 | risc-v/__main__.py:217-227 | below DRAM_BASE the latch repeated in both bytes; otherwise the DRAM half-word |
| MemoryBus.BusLoad32 | risc-v/__main__.py:201-215 | below DRAM_BASE the latch repeated in all four bytes; otherwise the DRAM word |
| MemoryBus.BusStore8 | risc-v/__main__.py:280-287 | below DRAM_BASE the low byte goes to the device; otherwise defined exactly when the byte is in DRAM, and then DRAM byte addr - DRAM_BASE becomes the low byte of the value, every other byte and the UART unchanged |
| MemoryBus.Store8Frame | risc-v/__main__.py:280-287 | a DRAM byte store sets the addressed byte to the value's low byte and changes no other byte and not the UART |
| MemoryBus.BusStore16 | risc-v/__main__.py:269-278 | below DRAM_BASE DRAM is untouched and both bytes, low first, go to the device at addr itself; otherwise defined exactly when both bytes are in DRAM, and then the two addressed bytes become the value's low and second byte, the rest and the UART unchanged |
| MemoryBus.Store16Frame | risc-v/__main__.py:269-278 | a DRAM half-word store sets bytes addr, addr+1 to the value's bytes, least significant first, and changes no other byte and not the UART |
| MemoryBus.BusStore32 | risc-v/__main__.py:254-267 | below DRAM_BASE DRAM is untouched; otherwise defined exactly when all four bytes are in DRAM, and the UART is untouched |
| MemoryBus.BytesRecompose | risc-v/__main__.py:257-265 | the four bytes a store extracts, recombined by weight, are the value modulo 2^32 |
| MemoryBus.Store32Load32 | risc-v/__main__.py:254-267 | a DRAM word store followed by a word load at the same address reads the value modulo 2^32 |
| MemoryBus.Store16Load16 | risc-v/__main__.py:269-278 | a DRAM half-word store is read back by a half-word load as the value modulo 2^16 |
| MemoryBus.Store8Load8 | risc-v/__main__.py:280-287 | a DRAM byte store is read back by a byte load as the value modulo 256 |
| MemoryBus.Store32Frame | risc-v/__main__.py:261-266 | a DRAM word store sets bytes addr..addr+3 to the value's bytes, least significant first, and changes no other byte and not the UART |
| MemoryBus.Store32Disjoint | risc-v/__main__.py:261-266 | a word store does not change a word load at a non-overlapping address |
| MemoryBus.DeviceStore32 | risc-v/__main__.py:255-260 | a device word store leaves DRAM alone; the UART receives byte k exactly when addr + k is the UART address |
| MemoryBus.DeviceStore16 | risc-v/__main__.py:269-273 | a device half-word store leaves DRAM unchanged; at the UART address the UART receives the low byte and then the second byte; at any other address, including the byte just below the UART, the UART is unchanged |
| MemoryBus.DeviceStore16BothBytes | risc-v/__main__.py:270-273 | a device half-word store of 0x0A41 to the UART prints "A" then starts a new line, because both bytes go to the same address |
| Formats.Layout | risc-v/__main__.py:296-303 | every word is the weighted sum of its opcode, rd, funct3, rs1, rs2 and funct7 fields |
| Formats.DecodeR | risc-v/__main__.py:296-303 | funct3 in [0, 8) and funct7 in [0, 128); the fields put back in place rebuild the word |
| Formats.DecodeI | risc-v/__main__.py:305-312 | funct3 in [0, 8); the immediate lies in [-2048, 2047] and is bits 31..20 read as a signed 12-bit number |
| Formats.DecodeIUnsigned | risc-v/__main__.py:314-319 | a word congruent to the sign-extended 12-bit immediate |
| Formats.DecodeCsr | risc-v/__main__.py:321-327 | funct3 in [0, 8); the CSR index is the raw bits 31..20, in [0, 4096) |
| Formats.DecodeS | risc-v/__main__.py:329-337 | funct3 in [0, 8); a non-negative offset congruent modulo 2^32 to the sign-extended split immediate |
| Formats.DecodeB | risc-v/__main__.py:339-346 | funct3 in [0, 8); an even offset in [-4096, 4094], negative exactly when bit 31 is set, whose low 13 bits are the scattered immediate bits |
| Formats.DecodeU | risc-v/__main__.py:348-352 | the word with its low 12 bits cleared |
| Formats.DecodeJ | risc-v/__main__.py:354-359 | an even offset in [-2^20, 2^20 - 2], negative exactly when bit 31 is set, whose low 21 bits are the scattered immediate bits |
| Formats.DecodeEncodeR | risc-v/__main__.py:296-303 | decoding the encoding of R-type fields gives back the fields |
| Formats.DecodeEncodeI | risc-v/__main__.py:305-312 | decoding an I-type encoding gives back the fields, including every immediate in [-2048, 2047] |
| Formats.DecodeEncodeS | risc-v/__main__.py:329-337 | an S-type encoding decodes to the same registers and funct3, and to an offset congruent to the original modulo 2^32 |
| Formats.DecodeSOffset | risc-v/__main__.py:329-337 | for any word, the decoded S-type offset is congruent to the sign-extended split immediate |
| Formats.DecodeSNegativeOffset | risc-v/__main__.py:334-336 | the word with store offset -32 decodes to the offset 0x1FFFFFFFE0, not -32 |
| Formats.DecodeEncodeB | risc-v/__main__.py:339-346 | decoding a B-type encoding gives back the fields, for every even offset in range |
| Formats.DecodeEncodeU | risc-v/__main__.py:348-352 | decoding a U-type encoding gives back rd and the immediate |
| Formats.DecodeEncodeJ | risc-v/__main__.py:354-359 | decoding a J-type encoding gives back rd and every even offset in range |
| Formats.DecodeEncodeCsr | risc-v/__main__.py:321-327 | decoding a CSR encoding gives back rd, rs1, funct3 and the CSR index |
| Instructions.Decode | risc-v/__main__.py:361-640 | an instruction is unknown exactly when its opcode, funct3 and funct7 are not in the table the simulator accepts; each class comes from its opcode, with immediates in its format's range |
| Instructions.DecodeEncode | risc-v/__main__.py:361-640 | decoding the standard encoding of any well-formed instruction gives it back (stores: offset modulo 2^32) |
| Instructions.DecodeEncodeOp | risc-v/__main__.py:365-421 | every register-register instruction decodes back from its encoding |
| Instructions.DecodeEncodeOpImm | risc-v/__main__.py:422-475 | every register-immediate instruction decodes back from its encoding |
| Instructions.DecodeEncodeLoad | risc-v/__main__.py:476-509 | every load decodes back from its encoding |
| Instructions.DecodeEncodeStore | risc-v/__main__.py:510-526 | every store decodes back from its encoding, with the offset modulo 2^32 |
| Instructions.DecodeEncodeBranch | risc-v/__main__.py:527-571 | every branch decodes back from its encoding |
| Instructions.DecodeEncodeJal | risc-v/__main__.py:572-577 | every `jal` decodes back from its encoding |
| Instructions.DecodeEncodeJalr | risc-v/__main__.py:578-584 | every `jalr` decodes back from its encoding |
| Instructions.DecodeEncodeUpper | risc-v/__main__.py:585-594 | every `lui` and `auipc` decodes back from its encoding |
| Instructions.DecodeEncodeFixed | risc-v/__main__.py:595-597 | `fence` decodes back; the all-zero word is unknown |
| Instructions.DecodeEncodeSystem | risc-v/__main__.py:598-636 | every CSR instruction decodes back from its encoding |
| Instructions.LogicImmediate | risc-v/__main__.py:314-319 | the unsigned immediate of `xori/ori/andi` is the word the signed 12-bit immediate stands for |
| Instructions.ShiftImmediate | risc-v/__main__.py:452-463 | the funct7 that `srli/srai` test is the upper seven bits of the 12-bit immediate |
| Engine.Reset | risc-v/__main__.py:44-60 | one empty output line; DRAM is the code image followed by zeros; registers are 0 except x2 = DRAM_SIZE; pc = DRAM_BASE; ticks = 0; CSRs unchanged |
| Engine.PowerOn | risc-v/__main__.py:12 | the first reset finds every CSR at 0 |
| Engine.Compute | risc-v/__main__.py:365-475 | undefined exactly for a negative shift count; add/sub wrap modulo 2^32; xor/or/and equal the bitwise reference; slt/sltu give 0 or 1 by the comparison helpers; sll/srl/sra give the three shift helpers for a non-negative count |
| Engine.WriteBack | risc-v/__main__.py:369-371 | an ALU result lands in rd, pc moves to the next word, and nothing else changes |
| Engine.ExecLoad | risc-v/__main__.py:476-509 | a load is stuck exactly when the bus read is undefined; otherwise only rd changes, to the loaded value |
| Engine.ExecStore | risc-v/__main__.py:510-526 | a store is stuck exactly when the bus write is undefined; otherwise only the bus changes, and pc moves on |
| Engine.JalTarget | risc-v/__main__.py:576 | the `jal` target is a word congruent to pc + imm |
| Engine.JalrTarget | risc-v/__main__.py:583 | the `jalr` target is even, and is `add(rs1, imm)` with at most bit 0 cleared |
| Engine.Link | risc-v/__main__.py:572-584 | a jump writes the return address pc + 4 to rd, moves pc to the target, and changes nothing else |
| Engine.ExecCsr | risc-v/__main__.py:598-636 | rd receives the old CSR value (read before rd is written), the CSR its new value, and pc moves on |
| Engine.Control | risc-v/__main__.py:527-584 | branches go to pc + imm when taken, else pc + 4; jumps link pc + 4 and land on a word target |
| Engine.Sequential | risc-v/__main__.py:365-636 | every other known instruction moves pc to pc + 4 and writes at most its rd; rd gets the ALU result, the loaded value from the masked rs1 + imm, imm for lui, and the unmasked pc + imm for auipc; a store's bus is the store helper's result at the masked address; stuck exactly when that value or bus is undefined; a CSR instruction changes at most its one CSR |
| Engine.Perform | risc-v/__main__.py:361-640 | the effect of each decoded instruction: traps exactly on an unknown one; the branch and jump targets; the values written to rd and the bus after a store, as for Sequential; the frame conditions; the Stuck causes |
| Engine.Execute | risc-v/__main__.py:361-640 | traps exactly when the word is not recognised, with pc advanced and registers and bus unchanged |
| Engine.Step | risc-v/__main__.py:683-694 | the tick always counts; it traps before the fetch exactly when pc - DRAM_BASE > DRAM_SIZE or pc == 0; it is stuck exactly when the fetch leaves DRAM |
| Engine.Run | risc-v/__main__.py:696-701 | n ticks that keep running advance the counter by n; a trap happens within them |
| Properties.ExecuteEncoded | risc-v/__main__.py:361-640 | executing the encoding of any well-formed instruction has exactly that instruction's effect |
| Properties.BranchConditions | risc-v/__main__.py:527-571 | bne, bge and bgeu are the negations of beq, blt and bltu; blt agrees with `slt` and bltu with `sltu` |
| Properties.CsrBits | risc-v/__main__.py:598-636 | rd gets the old value; the swap forms write the operand, the set forms OR it in bit by bit, and the clearing forms AND it in |
| Properties.CsrRuns | risc-v/__main__.py:598-636 | a CSR instruction never traps or sticks |
| Properties.CsrReadWithX0 | risc-v/__main__.py:606-611 | `csrrs rd, csr, x0` leaves the CSR at its low 32 bits and returns it |
| Properties.CsrClearWithZero | risc-v/__main__.py:612-635 | `csrrc rd, csr, x0` and `csrrci rd, csr, 0` set the CSR to 0 |
| Properties.CsrSetTwice | risc-v/__main__.py:606-635 | repeating a set or clear instruction does not change the CSR again, when rd is not rs1 |
| Properties.StepIgnoresX0 | risc-v/__main__.py:689 | a tick that reaches the fetch does not depend on the value x0 held before it |
| Properties.PerformKeepsPcEven | risc-v/__main__.py:527-584 | an instruction executed at an even pc leaves pc even |
| Properties.StepKeepsPcEven | risc-v/__main__.py:683-694 | a tick from an even pc leaves pc even |
| Properties.RunKeepsPcEven | risc-v/__main__.py:696-701 | any number of ticks from an even pc leave pc even |
| Properties.ResetPcEven | risc-v/__main__.py:58 | every pc reached from power-on is even |
| Properties.RunAdditive | risc-v/__main__.py:696-701 | m + n ticks are m ticks followed by n ticks |
| Properties.RunHaltStays | risc-v/__main__.py:683-688 | once the simulator halts, further ticks give the same outcome |
| Properties.RunUnfold | risc-v/__main__.py:696-701 | k + 1 ticks are one tick followed by k ticks, or the first tick's halt |
| Hex.Digit | risc-v/__main__.py:42 | a digit value selects its character in the table, a lower-case hex digit |
| Hex.DigitValueOfDigit | risc-v/__main__.py:42 | the table character of each digit value reads back as that value |
| Hex.ToHex | risc-v/__main__.py:642-652 | exactly eight lower-case hexadecimal digits |
| Hex.DigitsNibbles | risc-v/__main__.py:642-652 | digit k from the right is the table character of `(v >> 4k) & 0xf` |
| Hex.ToHexNibbles | risc-v/__main__.py:642-652 | character 7 - k of `to_hex` is nibble k of the value |
| Hex.DigitsRoundTrip | risc-v/__main__.py:642-652 | reading n digits back gives the value modulo 16^n |
| Hex.HexRoundTrip | risc-v/__main__.py:642-652 | reading `to_hex`'s output back gives the value modulo 2^32 |
| Scenarios.FetchWord | risc-v/__main__.py:689-693 | a tick at a fetchable pc executes the word stored there, after counting the tick and clearing x0 |
| Scenarios.DecodeExamples | risc-v/__main__.py:361-640 | `addi x10, x0, 1`, `addi x0, x0, 5` and `beq x0, x0, 0` decode as such; the zero word is unknown |
| Scenarios.FirstInstruction | risc-v/__main__.py:683-694 | program bytes 13 05 10 00 give x10 = 1, pc = DRAM_BASE + 4 and one tick |
| Scenarios.EmptyImageTraps | risc-v/__main__.py:637-639 | an empty program traps on the first tick as an unknown instruction, with pc = DRAM_BASE + 4 |
| Scenarios.ZeroRegisterWrite | risc-v/__main__.py:689 | after `addi x0, x0, 5` x0 holds 5 until the next tick |
| Scenarios.SpinStep | risc-v/__main__.py:529-533 | a `beq x0, x0, 0` at DRAM_BASE keeps pc there for one tick |
| Scenarios.SpinForever | risc-v/__main__.py:696-701 | it keeps pc there for any number of ticks, counting each |
| Scenarios.SpinFromPowerOn | risc-v/__main__.py:44-60 | from power-on, the branch-to-self program runs n ticks at DRAM_BASE |
| Scenarios.HaltingChecks | risc-v/__main__.py:686-688 | pc 0 and pc one past the end of DRAM halt; pc at the end of DRAM is not trapped and its fetch is undefined |

## Left out

- The boiga project scaffolding, the green-flag script and the `Repeat (1000)` / `Forever` batching (`risc-v/__main__.py:1-18`, `696-710`). `Engine.Run` stands for any number of ticks.
- The lookup-table contents as lists. `Alu.TableEntry` gives each entry by formula, from the same row and column order.
- The text of the `breakpoint` dump, and `StopAll`. A halt is the `Trapped` outcome with the state at the halt. The dump's hex rendering is modelled as `Hex.ToHex`.
- `hw_load8` is an empty procedure, so a device load reads whatever `bus_result` last held. The model passes that value in as the latch. Within `execute` the latch is the fetched instruction word.
- The UART text for bytes outside 32..122 (other than 10). The table lookup falls outside the table, and the model appends nothing.
- What the generated Scratch program does on an out-of-range list access or a negative shift count is not modelled; the model gives the `Stuck` outcome instead of a value. This covers:
  - reading or writing DRAM outside the 200000-byte array;
  - a fetch that is not wholly inside DRAM;
  - `slli` with bit 31 set, which shifts by a negative count.
- Floating-point effects of Scratch numbers. All values are exact integers.
- The separate BSP mesh tool under bsp/src (floating-point geometry and file I/O). It is not part of the simulator.
- Engine.Reset: the CSRs keep their values across a reset, as the source never clears them. `Engine.PowerOn` is the first reset, with all CSRs 0.
- Formats.DecodeEncodeS: states the offset only modulo 2^32, because the decoder as written does not sign-extend it.
- Instructions.DecodeEncode: for stores, states the offset only modulo 2^32, for the same reason.
- Alu.LessThanUnsigned: the contract states only that the result is 0 or 1. Its meaning is stated by `Properties.BranchConditions` and `Alu.SltiuNegativeImmediate`.
- Alu.LessThanSigned: the contract states only that the result is 0 or 1. Its meaning is stated by `Alu.SignedCompareBySignBit` and `Properties.BranchConditions`.

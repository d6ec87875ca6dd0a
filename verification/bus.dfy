/**
 * DRAM and the system bus (risc-v/__main__.py, `mem_load32` … `bus_store8`).
 *
 * DRAM is a list of bytes; bus address DRAM_BASE is DRAM index 0. Every
 * address below DRAM_BASE belongs to the device side: stores go to the UART
 * sink, loads go to `hw_load8`, which does nothing, so a device load reads
 * back whatever the shared result variable `bus_result` last held (the
 * "latch" parameter below; during an instruction it is the fetched word).
 *
 * A DRAM access whose bytes do not all lie inside the list has no defined
 * result in the model: the operations return None for it.
 */
module MemoryBus {
  import opened Words
  import opened Bits
  import opened Device
  import Alu

  const DRAM_BASE: int := 0x8000_0000
  const DRAM_SIZE: int := 200000

  datatype Bus = Bus(dram: seq<Byte>, uart: Uart)

  /** Byte k (0 = least significant) of a value, as the source extracts it with `>>` and `& 0xff`. */
  function ByteOf(v: int, k: nat): (b: Byte)
    requires k < 4
  {
    if k == 0 then v % 0x100
    else if k == 1 then (v / 0x100) % 0x100
    else if k == 2 then (v / 0x1_0000) % 0x100
    else (v / 0x100_0000) % 0x100
  }

  /** n bytes starting at `index` all lie in DRAM. */
  predicate InDram(dram: seq<Byte>, index: int, n: nat)
  {
    0 <= index && index + n <= |dram|
  }

  // ---------------------------------------------------------------------
  // DRAM

  /** `mem_load8`. */
  function MemLoad8(dram: seq<Byte>, index: int): (r: Option<int>)
    ensures r.Some? <==> InDram(dram, index, 1)
    ensures r.Some? ==> 0 <= r.value < 0x100
  {
    if InDram(dram, index, 1) then Some(dram[index]) else None
  }

  /** `mem_load16`: little-endian, the byte at `index` is the low byte. */
  function MemLoad16(dram: seq<Byte>, index: int): (r: Option<int>)
    ensures r.Some? <==> InDram(dram, index, 2)
    ensures r.Some? ==> 0 <= r.value < 0x1_0000
                        && ByteOf(r.value, 0) == dram[index] && ByteOf(r.value, 1) == dram[index + 1]
  {
    if InDram(dram, index, 2) then Some(dram[index] as int + (dram[index + 1] as int) * 0x100) else None
  }

  /** `mem_load32`: little-endian, byte k of the result is the byte at `index + k`. */
  function MemLoad32(dram: seq<Byte>, index: int): (r: Option<int>)
    ensures r.Some? <==> InDram(dram, index, 4)
    ensures r.Some? ==> 0 <= r.value < TWO_32
                        && forall k :: 0 <= k < 4 ==> ByteOf(r.value, k) == dram[index + k]
  {
    if InDram(dram, index, 4) then
      var v := dram[index] as int + (dram[index + 1] as int) * 0x100 + (dram[index + 2] as int) * 0x1_0000
               + (dram[index + 3] as int) * 0x100_0000;
      Word32Bytes(dram[index], dram[index + 1], dram[index + 2], dram[index + 3]);
      Some(v)
    else None
  }

  /** Four bytes placed little-endian are read back by `ByteOf`. */
  lemma Word32Bytes(b0: Byte, b1: Byte, b2: Byte, b3: Byte)
    ensures var v := b0 as int + (b1 as int) * 0x100 + (b2 as int) * 0x1_0000 + (b3 as int) * 0x100_0000;
      && ByteOf(v, 0) == b0 && ByteOf(v, 1) == b1 && ByteOf(v, 2) == b2 && ByteOf(v, 3) == b3
  {
    var v := b0 as int + (b1 as int) * 0x100 + (b2 as int) * 0x1_0000 + (b3 as int) * 0x100_0000;
    Field(v, 0, b0, b1 + 0x100 * b2 + 0x1_0000 * b3, 1, 0x100);
    Field(v, b0, b1, b2 + 0x100 * b3, 0x100, 0x100);
    Field(v, b0 + 0x100 * b1, b2, b3, 0x1_0000, 0x100);
    Field(v, b0 + 0x100 * b1 + 0x1_0000 * b2, b3, 0, 0x100_0000, 0x100);
  }

  /** `mem_store8`: the one byte at `index` changes, nothing else. */
  function MemStore8(dram: seq<Byte>, index: int, value: Byte): (r: Option<seq<Byte>>)
    ensures r.Some? <==> InDram(dram, index, 1)
    ensures r.Some? ==> |r.value| == |dram| && r.value[index] == value
                        && forall j :: 0 <= j < |dram| && j != index ==> r.value[j] == dram[j]
  {
    if InDram(dram, index, 1) then Some(dram[index := value]) else None
  }

  // ---------------------------------------------------------------------
  // Bus routing

  /** `bus_load8`. */
  function BusLoad8(bus: Bus, addr: int, latch: int): (r: Option<int>)
    ensures addr < DRAM_BASE ==> r == Some(latch)
    ensures addr >= DRAM_BASE ==> r == MemLoad8(bus.dram, addr - DRAM_BASE)
  {
    if addr < DRAM_BASE then Some(latch) else MemLoad8(bus.dram, addr - DRAM_BASE)
  }

  /** `bus_load16`: a device read repeats the stale latch in both bytes. */
  function BusLoad16(bus: Bus, addr: int, latch: int): (r: Option<int>)
    ensures addr < DRAM_BASE ==> r == Some(latch * 0x101)
    ensures addr >= DRAM_BASE ==> r == MemLoad16(bus.dram, addr - DRAM_BASE)
  {
    if addr < DRAM_BASE then Some(latch + latch * 0x100) else MemLoad16(bus.dram, addr - DRAM_BASE)
  }

  /** `bus_load32`: a device read repeats the stale latch in all four bytes. */
  function BusLoad32(bus: Bus, addr: int, latch: int): (r: Option<int>)
    ensures addr < DRAM_BASE ==> r == Some(latch * 0x101_0101)
    ensures addr >= DRAM_BASE ==> r == MemLoad32(bus.dram, addr - DRAM_BASE)
  {
    if addr < DRAM_BASE then Some(latch + latch * 0x100 + latch * 0x1_0000 + latch * 0x100_0000)
    else MemLoad32(bus.dram, addr - DRAM_BASE)
  }

  /** `bus_store8`: the low byte of the value goes to the device or to DRAM. */
  function BusStore8(bus: Bus, addr: int, value: int): (r: Option<Bus>)
    ensures addr < DRAM_BASE ==> r == Some(bus.(uart := HwStore8(bus.uart, addr, ByteOf(value, 0))))
    ensures addr >= DRAM_BASE ==> (r.Some? <==> InDram(bus.dram, addr - DRAM_BASE, 1))
    ensures addr >= DRAM_BASE && r.Some? ==> r.value.uart == bus.uart
    ensures addr >= DRAM_BASE && r.Some? ==> r.value.dram == bus.dram[addr - DRAM_BASE := ByteOf(value, 0)]
  {
    if addr < DRAM_BASE then Some(bus.(uart := HwStore8(bus.uart, addr, value % 0x100)))
    else
      match MemStore8(bus.dram, addr - DRAM_BASE, value % 0x100)
      case Some(d) => Some(bus.(dram := d))
      case None => None
  }

  /**
   * `bus_store16`. On the device side both bytes are sent to the same
   * address `addr` (not `addr` and `addr + 1`).
   */
  function BusStore16(bus: Bus, addr: int, value: int): (r: Option<Bus>)
    ensures addr < DRAM_BASE ==>
              r == Some(bus.(uart := HwStore8(HwStore8(bus.uart, addr, ByteOf(value, 0)), addr, ByteOf(value, 1))))
    ensures addr >= DRAM_BASE ==> (r.Some? <==> InDram(bus.dram, addr - DRAM_BASE, 2))
    ensures addr >= DRAM_BASE && r.Some? ==> r.value.uart == bus.uart
    ensures addr >= DRAM_BASE && r.Some? ==>
              r.value.dram == bus.dram[addr - DRAM_BASE := ByteOf(value, 0)][addr - DRAM_BASE + 1 := ByteOf(value, 1)]
  {
    if addr < DRAM_BASE then
      Some(bus.(uart := HwStore8(HwStore8(bus.uart, addr, value % 0x100), addr, (value / 0x100) % 0x100)))
    else
      var i := addr - DRAM_BASE;
      if InDram(bus.dram, i, 2) then
        Some(bus.(dram := bus.dram[i := value % 0x100][i + 1 := (value / 0x100) % 0x100]))
      else None
  }

  /** `bus_store32`: four byte stores, at `addr` … `addr + 3`, least significant first. */
  function BusStore32(bus: Bus, addr: int, value: int): (r: Option<Bus>)
    ensures addr < DRAM_BASE ==> r.Some? && r.value.dram == bus.dram
    ensures addr >= DRAM_BASE ==> (r.Some? <==> InDram(bus.dram, addr - DRAM_BASE, 4))
    ensures addr >= DRAM_BASE && r.Some? ==> r.value.uart == bus.uart
  {
    if addr < DRAM_BASE then
      var u1 := HwStore8(bus.uart, addr, value % 0x100);
      var u2 := HwStore8(u1, addr + 1, (value / 0x100) % 0x100);
      var u3 := HwStore8(u2, addr + 2, (value / 0x1_0000) % 0x100);
      Some(bus.(uart := HwStore8(u3, addr + 3, (value / 0x100_0000) % 0x100)))
    else
      var i := addr - DRAM_BASE;
      if InDram(bus.dram, i, 4) then
        Some(bus.(dram := bus.dram[i := value % 0x100][i + 1 := (value / 0x100) % 0x100]
                                  [i + 2 := (value / 0x1_0000) % 0x100][i + 3 := (value / 0x100_0000) % 0x100]))
      else None
  }

  // ---------------------------------------------------------------------
  // Properties

  /** The four bytes of a value, put back together, are the value modulo 2^32. */
  lemma BytesRecompose(v: int)
    ensures ByteOf(v, 0) + ByteOf(v, 1) * 0x100 + ByteOf(v, 2) * 0x1_0000 + ByteOf(v, 3) * 0x100_0000 == v % TWO_32
  {
    var w := v % TWO_32;
    Alu.ByteOfWord(v);
    DivDiv(w, 0x100, 0x100);
    DivDiv(w, 0x1_0000, 0x100);
    assert w / 0x100_0000 < 0x100;
  }

  /** A DRAM word store is read back by a word load as the value modulo 2^32. */
  lemma Store32Load32(bus: Bus, addr: int, value: int, latch: int)
    requires addr >= DRAM_BASE && BusStore32(bus, addr, value).Some?
    ensures BusLoad32(BusStore32(bus, addr, value).value, addr, latch) == Some(value % TWO_32)
  {
    BytesRecompose(value);
  }

  /** A DRAM half-word store is read back by a half-word load as the value modulo 2^16. */
  lemma Store16Load16(bus: Bus, addr: int, value: int, latch: int)
    requires addr >= DRAM_BASE && BusStore16(bus, addr, value).Some?
    ensures BusLoad16(BusStore16(bus, addr, value).value, addr, latch) == Some(value % 0x1_0000)
  {
    var q := value / 0x1_0000;
    var r := value % 0x1_0000;
    DivDiv(value, 0x100, 0x100);
    Field(value, value % 0x100, (value / 0x100) % 0x100, q, 0x100, 0x100) by {
      assert value / 0x100 == (value / 0x100) % 0x100 + 0x100 * q;
    }
  }

  /** A DRAM byte store is read back by a byte load as the value modulo 2^8. */
  lemma Store8Load8(bus: Bus, addr: int, value: int, latch: int)
    requires addr >= DRAM_BASE && BusStore8(bus, addr, value).Some?
    ensures BusLoad8(BusStore8(bus, addr, value).value, addr, latch) == Some(value % 0x100)
  {
  }

  /** A DRAM byte store changes exactly the byte it addresses, and not the UART. */
  lemma Store8Frame(bus: Bus, addr: int, value: int)
    requires addr >= DRAM_BASE && BusStore8(bus, addr, value).Some?
    ensures var b := BusStore8(bus, addr, value).value;
      && |b.dram| == |bus.dram| && b.uart == bus.uart
      && b.dram[addr - DRAM_BASE] == ByteOf(value, 0)
      && (forall j :: 0 <= j < |bus.dram| && j != addr - DRAM_BASE ==> b.dram[j] == bus.dram[j])
  {
  }

  /** A DRAM half-word store changes exactly the two bytes it addresses, and not the UART. */
  lemma Store16Frame(bus: Bus, addr: int, value: int)
    requires addr >= DRAM_BASE && BusStore16(bus, addr, value).Some?
    ensures var b := BusStore16(bus, addr, value).value;
      && |b.dram| == |bus.dram| && b.uart == bus.uart
      && (forall k :: 0 <= k < 2 ==> b.dram[addr - DRAM_BASE + k] == ByteOf(value, k))
      && (forall j :: 0 <= j < |bus.dram| && !(addr - DRAM_BASE <= j < addr - DRAM_BASE + 2)
                      ==> b.dram[j] == bus.dram[j])
  {
  }

  /** A DRAM word store changes exactly the four bytes it addresses, and not the UART. */
  lemma Store32Frame(bus: Bus, addr: int, value: int)
    requires addr >= DRAM_BASE && BusStore32(bus, addr, value).Some?
    ensures var b := BusStore32(bus, addr, value).value;
      && |b.dram| == |bus.dram| && b.uart == bus.uart
      && (forall k :: 0 <= k < 4 ==> b.dram[addr - DRAM_BASE + k] == ByteOf(value, k))
      && (forall j :: 0 <= j < |bus.dram| && !(addr - DRAM_BASE <= j < addr - DRAM_BASE + 4)
                      ==> b.dram[j] == bus.dram[j])
  {
  }

  /** A word store elsewhere in DRAM does not change what a word load reads. */
  lemma Store32Disjoint(bus: Bus, addr: int, other: int, value: int, latch: int)
    requires addr >= DRAM_BASE && other >= DRAM_BASE && BusStore32(bus, addr, value).Some?
    requires other + 4 <= addr || addr + 4 <= other
    ensures BusLoad32(BusStore32(bus, addr, value).value, other, latch) == BusLoad32(bus, other, latch)
  {
    Store32Frame(bus, addr, value);
  }

  /**
   * A device word store reaches the UART with at most one of its bytes: byte k
   * when `addr + k` is the UART address, and nothing when no byte address is.
   */
  lemma DeviceStore32(bus: Bus, addr: int, value: int)
    requires addr < DRAM_BASE
    ensures var b := BusStore32(bus, addr, value).value;
      && b.dram == bus.dram
      && (forall k :: 0 <= k < 4 && addr + k == UART_ADDR ==> b.uart == HwStore8(bus.uart, UART_ADDR, ByteOf(value, k)))
      && (!(addr <= UART_ADDR < addr + 4) ==> b.uart == bus.uart)
  {
  }

  /**
   * A device half-word store leaves DRAM alone and sends both bytes, low
   * first, to `addr` itself: the UART sees them only when `addr` is the UART
   * address, and a store to the byte just below it (whose second byte would
   * belong to the UART) changes nothing.
   */
  lemma DeviceStore16(bus: Bus, addr: int, value: int)
    requires addr < DRAM_BASE
    ensures var b := BusStore16(bus, addr, value).value;
      && b.dram == bus.dram
      && (addr == UART_ADDR ==>
            b.uart == HwStore8(HwStore8(bus.uart, UART_ADDR, ByteOf(value, 0)), UART_ADDR, ByteOf(value, 1)))
      && (addr != UART_ADDR ==> b.uart == bus.uart)
  {
  }

  /** A device half-word store of 'A' (0x41) and newline (0x0A) prints the line "A". */
  lemma DeviceStore16BothBytes(bus: Bus)
    requires bus.uart == EMPTY
    ensures Lines(BusStore16(bus, UART_ADDR, 0x0A41).value.uart) == ["A", ""]
  {
    assert 0x0A41 % 0x100 == 0x41 && (0x0A41 / 0x100) % 0x100 == NEWLINE;
    var u1 := HwStore8(EMPTY, UART_ADDR, 0x41);
    assert u1 == Uart([], "A");
    assert BusStore16(bus, UART_ADDR, 0x0A41).value.uart == HwStore8(u1, UART_ADDR, NEWLINE);
  }
}

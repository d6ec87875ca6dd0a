/**
 * The memory-mapped UART sink (risc-v/__main__.py, `hw_store8`, and the
 * output list `uart` that `reset` clears to a single empty line).
 *
 * The output is a list of text lines whose last entry is the line being
 * written. It is modelled as the completed lines plus the current one, so
 * the list is never empty by construction.
 */
module Device {

  /** The only device address that reacts to a store. */
  const UART_ADDR: int := 0x1000_0000

  /** The newline byte: it completes the current line. */
  const NEWLINE: int := 10

  /** `ascii_lut`: the printable characters from ' ' (32) to 'z' (122), in code order. */
  const ASCII_TABLE: string :=
    " !\"#$%&'()" + "*+,-./0123" + "456789:;<=" + ">?@ABCDEFG" + "HIJKLMNOPQ"
    + "RSTUVWXYZ[" + "\\]^_`abcde" + "fghijklmno" + "pqrstuvwxy" + "z"

  datatype Uart = Uart(closed: seq<string>, current: string)

  /** The output list as the simulator holds it: completed lines, then the current one. */
  function Lines(u: Uart): (r: seq<string>)
    ensures |r| == |u.closed| + 1 && r[|r| - 1] == u.current
  {
    u.closed + [u.current]
  }

  /** The output right after `reset`: one empty line. */
  const EMPTY: Uart := Uart([], "")

  /** Each character of s has the code of the one before it plus one, starting at `first`. */
  predicate Consecutive(s: string, first: int)
  {
    forall i :: 0 <= i < |s| ==> s[i] as int == first + i
  }

  lemma ConsecutiveAppend(a: string, b: string, first: int)
    requires Consecutive(a, first) && Consecutive(b, first + |a|)
    ensures Consecutive(a + b, first)
  {
    forall i | 0 <= i < |a + b| ensures (a + b)[i] as int == first + i {
      if i >= |a| {
        assert (a + b)[i] == b[i - |a|];
      }
    }
  }

  /** The table holds exactly the characters whose codes are 32..122, in order. */
  lemma AsciiTableIsCodeOrder()
    ensures |ASCII_TABLE| == 91
    ensures forall i :: 0 <= i < |ASCII_TABLE| ==> ASCII_TABLE[i] as int == i + 32
  {
    var c0, c1, c2, c3, c4 := " !\"#$%&'()", "*+,-./0123", "456789:;<=", ">?@ABCDEFG", "HIJKLMNOPQ";
    var c5, c6, c7, c8, c9 := "RSTUVWXYZ[", "\\]^_`abcde", "fghijklmno", "pqrstuvwxy", "z";
    assert Consecutive(c0, 32) && Consecutive(c1, 42) && Consecutive(c2, 52);
    assert Consecutive(c3, 62) && Consecutive(c4, 72) && Consecutive(c5, 82);
    assert Consecutive(c6, 92) && Consecutive(c7, 102) && Consecutive(c8, 112);
    assert Consecutive(c9, 122);
    ConsecutiveAppend(c0, c1, 32);
    ConsecutiveAppend(c0 + c1, c2, 32);
    ConsecutiveAppend(c0 + c1 + c2, c3, 32);
    ConsecutiveAppend(c0 + c1 + c2 + c3, c4, 32);
    ConsecutiveAppend(c0 + c1 + c2 + c3 + c4, c5, 32);
    ConsecutiveAppend(c0 + c1 + c2 + c3 + c4 + c5, c6, 32);
    ConsecutiveAppend(c0 + c1 + c2 + c3 + c4 + c5 + c6, c7, 32);
    ConsecutiveAppend(c0 + c1 + c2 + c3 + c4 + c5 + c6 + c7, c8, 32);
    ConsecutiveAppend(c0 + c1 + c2 + c3 + c4 + c5 + c6 + c7 + c8, c9, 32);
  }

  /** `ascii_lut[value - 32]`: one character for a byte in the table, nothing otherwise. */
  function Glyph(value: int): (s: string)
    ensures 32 <= value <= 122 ==> s == [value as char]
    ensures !(32 <= value <= 122) ==> s == ""
  {
    AsciiTableIsCodeOrder();
    if 0 <= value - 32 < |ASCII_TABLE| then [ASCII_TABLE[value - 32]] else ""
  }

  /**
   * `hw_store8`: only the UART address reacts; a newline starts a new line,
   * any other byte appends its table character to the current line.
   */
  function HwStore8(u: Uart, addr: int, value: int): (r: Uart)
    ensures addr != UART_ADDR ==> r == u
    ensures addr == UART_ADDR && value == NEWLINE ==> Lines(r) == Lines(u) + [""]
    ensures (addr == UART_ADDR && value != NEWLINE && 32 <= value <= 122)
              ==> r.closed == u.closed && r.current == u.current + [value as char]
    ensures addr == UART_ADDR && value != NEWLINE && !(32 <= value <= 122) ==> r == u
  {
    if addr == UART_ADDR then
      if value == NEWLINE then Uart(u.closed + [u.current], "")
      else Uart(u.closed, u.current + Glyph(value))
    else u
  }

  /** The characters a run of printable bytes stands for. */
  function Decoded(text: seq<int>): string
    requires forall i :: 0 <= i < |text| ==> 32 <= text[i] <= 122
  {
    if text == [] then "" else Decoded(text[..|text| - 1]) + [text[|text| - 1] as char]
  }

  /** Byte-by-byte stores of a text to the UART. */
  function WriteAll(u: Uart, text: seq<int>): Uart
  {
    if text == [] then u else HwStore8(WriteAll(u, text[..|text| - 1]), UART_ADDR, text[|text| - 1])
  }

  /** Printable bytes only extend the current line. */
  lemma {:induction false} WriteAllExtends(u: Uart, text: seq<int>)
    requires forall i :: 0 <= i < |text| ==> 32 <= text[i] <= 122
    ensures WriteAll(u, text) == Uart(u.closed, u.current + Decoded(text))
    decreases |text|
  {
    if text != [] {
      var init := text[..|text| - 1];
      assert forall i :: 0 <= i < |init| ==> 32 <= init[i] <= 122 by {
        forall i | 0 <= i < |init| ensures 32 <= init[i] <= 122 {
          assert init[i] == text[i];
        }
      }
      WriteAllExtends(u, init);
    }
  }

  /** Writing the bytes of a text, then a newline, completes that text as a line. */
  lemma NewlineAfterText(u: Uart, text: seq<int>)
    requires forall i :: 0 <= i < |text| ==> 32 <= text[i] <= 122
    ensures Lines(HwStore8(WriteAll(u, text), UART_ADDR, NEWLINE)) == u.closed + [u.current + Decoded(text), ""]
  {
    WriteAllExtends(u, text);
  }

  /** Storing 'A' (65) and then a newline to a fresh UART leaves the completed line "A". */
  lemma LetterThenNewline()
    ensures Lines(HwStore8(HwStore8(EMPTY, UART_ADDR, 65), UART_ADDR, NEWLINE)) == ["A", ""]
  {
    var u1 := HwStore8(EMPTY, UART_ADDR, 65);
    assert u1 == Uart([], "A");
  }
}

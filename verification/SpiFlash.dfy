/** The SPI flash of dv/spiflash.v as a machine over clock cycles: what it drives while the clock is low, what it
    samples when the clock rises, and what it does after each whole byte. */
module SpiFlash {
  import opened Bytes

  const MEMORY_SIZE: nat := 0x100_0000
  const LATENCY: nat := 8

  const POWER_UP: byte := 0xAB
  const POWER_DOWN: byte := 0xB9
  const CLEAR_XIP: byte := 0xFF
  const READ_STANDARD: byte := 0x03
  const READ_DUAL: byte := 0xBB
  const READ_QUAD: byte := 0xEB
  const XIP_MODE: byte := 0xA5

  /** Which data lines are in use, and whether the flash reads or drives them. */
  datatype Mode = Spi | DualIn | DualOut | QuadIn | QuadOut

  datatype Flash = Flash(
    buffer: byte, bitCount: nat, byteCount: nat, dummyCount: nat,
    cmd: byte, xip: byte, addr: nat, poweredUp: bool, mode: Mode)

  /** The three bytes of the address register, high byte first. */
  function WithAddressByte(addr: nat, byteCount: nat, b: byte): nat {
    if byteCount == 2 then Val(b) * 0x1_0000 + addr % 0x1_0000
    else if byteCount == 3 then addr / 0x1_0000 * 0x1_0000 + Val(b) * 0x100 + addr % 0x100
    else if byteCount == 4 then addr / 0x100 * 0x100 + Val(b)
    else addr
  }

  /** Puts the next memory byte into the shift buffer. */
  function Fetch(f: Flash, memory: seq<byte>): Flash
    requires |memory| == MEMORY_SIZE
  {
    f.(buffer := memory[f.addr % MEMORY_SIZE], addr := (f.addr + 1) % MEMORY_SIZE)
  }

  /** The opcode byte. */
  function Opcode(f: Flash): Flash {
    var g := f.(cmd := f.buffer,
                poweredUp := if f.buffer == POWER_UP then true else if f.buffer == POWER_DOWN then false else f.poweredUp,
                xip := if f.buffer == CLEAR_XIP then 0 else f.xip);
    if g.poweredUp && g.cmd == READ_DUAL then g.(mode := DualIn)
    else if g.poweredUp && g.cmd == READ_QUAD then g.(mode := QuadIn)
    else g
  }

  /** The mode byte of a dual or quad read: execute-in-place marker, then the flash takes over the lines. */
  function ModeByte(f: Flash): Flash {
    f.(xip := if f.buffer == XIP_MODE then f.cmd else 0,
       mode := if f.cmd == READ_DUAL then DualOut else QuadOut,
       dummyCount := LATENCY)
  }

  /** What happens after the byteCount-th byte of a transaction. */
  function Action(f: Flash, memory: seq<byte>): Flash
    requires |memory| == MEMORY_SIZE
  {
    if f.byteCount == 1 then Opcode(f)
    else if !f.poweredUp then f
    else
      var g := f.(addr := WithAddressByte(f.addr, f.byteCount, f.buffer));
      if f.cmd == READ_STANDARD then
        if f.byteCount >= 4 then Fetch(g, memory) else g
      else if f.cmd == READ_DUAL || f.cmd == READ_QUAD then
        if f.byteCount == 5 then Fetch(ModeByte(g), memory)
        else if f.byteCount > 5 then Fetch(g, memory)
        else g
      else f
  }

  function Deselect(f: Flash): Flash {
    f.(buffer := 0, bitCount := 0, byteCount := 0, mode := Spi)
  }

  /** Chip select falls: in execute-in-place mode the previous opcode counts as already received. */
  function Select(f: Flash, memory: seq<byte>): Flash
    requires |memory| == MEMORY_SIZE
  {
    if f.xip == 0 then f else Action(f.(buffer := f.xip, bitCount := 0, byteCount := 1), memory)
  }

  function ShiftIn(a: byte, x: byte): byte { (a << 1) | (x & 1) }

  function ShiftNibble(a: byte, x: byte): byte { (a << 4) | (x & 0x0f) }

  function HighNibble(b: byte): byte { b >> 4 }

  function LowNibble(b: byte): byte { b & 0x0f }

  /** The four data lines while the clock is low; the flash overrides the lines it drives. */
  function Drive(f: Flash, lines: byte): byte {
    if f.dummyCount > 0 then lines
    else match f.mode
      case Spi => (lines & 0x0d) | ((f.buffer >> 6) & 0x02)
      case DualOut => (lines & 0x0c) | (f.buffer >> 6)
      case QuadOut => HighNibble(f.buffer)
      case DualIn => lines
      case QuadIn => lines
  }

  function Sampled(f: Flash, lines: byte): byte {
    match f.mode
    case Spi => ShiftIn(f.buffer, lines)
    case DualIn => (f.buffer << 2) | (lines & 0x03)
    case DualOut => (f.buffer << 2) | (lines & 0x03)
    case QuadIn => ShiftNibble(f.buffer, lines)
    case QuadOut => ShiftNibble(f.buffer, lines)
  }

  function BitsPerClock(mode: Mode): nat {
    match mode
    case Spi => 1
    case DualIn => 2
    case DualOut => 2
    case QuadIn => 4
    case QuadOut => 4
  }

  /** A rising clock edge with these levels on the lines. */
  function Rise(f: Flash, lines: byte, memory: seq<byte>): Flash
    requires |memory| == MEMORY_SIZE
  {
    if f.dummyCount > 0 then f.(dummyCount := f.dummyCount - 1)
    else
      var g := f.(buffer := Sampled(f, lines), bitCount := f.bitCount + BitsPerClock(f.mode));
      if g.bitCount == 8 then Action(g.(bitCount := 0, byteCount := g.byteCount + 1), memory) else g
  }

  /** The flash after some clock cycles, given what the host puts on the lines in each. */
  function Clocks(f: Flash, lines: seq<byte>, memory: seq<byte>): Flash
    requires |memory| == MEMORY_SIZE
    decreases |lines|
  {
    if lines == [] then f else Clocks(Rise(f, Drive(f, lines[0]), memory), lines[1..], memory)
  }

  /** What the lines carry in each of those cycles. */
  function Levels(f: Flash, lines: seq<byte>, memory: seq<byte>): (r: seq<byte>)
    requires |memory| == MEMORY_SIZE
    ensures |r| == |lines|
    decreases |lines|
  {
    if lines == [] then []
    else [Drive(f, lines[0])] + Levels(Rise(f, Drive(f, lines[0]), memory), lines[1..], memory)
  }

  // ---------- Whole bytes ----------

  datatype Speed = Standard | Dual | Quad

  /** How a host puts one byte on the lines, most significant bits first. */
  function SendByte(speed: Speed, b: byte): seq<byte> {
    match speed
    case Standard => [(b >> 7) & 1, (b >> 6) & 1, (b >> 5) & 1, (b >> 4) & 1, (b >> 3) & 1, (b >> 2) & 1, (b >> 1) & 1, b & 1]
    case Dual => [(b >> 6) & 3, (b >> 4) & 3, (b >> 2) & 3, b & 3]
    case Quad => [HighNibble(b), LowNibble(b)]
  }

  function ClocksPerByte(speed: Speed): nat {
    match speed
    case Standard => 8
    case Dual => 4
    case Quad => 2
  }

  /** How a host assembles one byte from the levels it samples. */
  function ReceiveByte(speed: Speed, s: seq<byte>): byte
    requires |s| == ClocksPerByte(speed)
  {
    match speed
    case Standard =>
      ((s[0] & 2) << 6) | ((s[1] & 2) << 5) | ((s[2] & 2) << 4) | ((s[3] & 2) << 3)
      | ((s[4] & 2) << 2) | ((s[5] & 2) << 1) | (s[6] & 2) | ((s[7] & 2) >> 1)
    case Dual => ((s[0] & 3) << 6) | ((s[1] & 3) << 4) | ((s[2] & 3) << 2) | (s[3] & 3)
    case Quad => ShiftNibble(LowNibble(s[0]), s[1])
  }

  /** The flash is at a byte boundary and not counting dummy cycles. */
  predicate AtByte(f: Flash, mode: Mode) {
    f.mode == mode && f.bitCount == 0 && f.dummyCount == 0
  }

  function NextByte(f: Flash, b: byte, memory: seq<byte>): Flash
    requires |memory| == MEMORY_SIZE
  {
    Action(f.(buffer := b, byteCount := f.byteCount + 1), memory)
  }

  lemma OneBit(a: byte, x: byte)
    ensures (((x & 0x0d) | ((a >> 6) & 0x02)) & 0x01) == x & 0x01
  {
  }

  lemma QuadNibbles(a: byte, b: byte)
    ensures ShiftNibble(ShiftNibble(a, HighNibble(b)), LowNibble(b)) == b
  {
  }

  lemma TwoClocks(f: Flash, lines: seq<byte>, memory: seq<byte>)
    requires |memory| == MEMORY_SIZE && |lines| == 2
    ensures var x := Drive(f, lines[0]);
            var g := Rise(f, x, memory);
            var y := Drive(g, lines[1]);
            Clocks(f, lines, memory) == Rise(g, y, memory) && Levels(f, lines, memory) == [x, y]
  {
    hide Rise, Drive;
    var g := Rise(f, Drive(f, lines[0]), memory);
    assert lines[1..][1..] == [];
    assert Clocks(g, lines[1..], memory) == Rise(g, Drive(g, lines[1]), memory);
    assert Levels(g, lines[1..], memory) == [Drive(g, lines[1])];
  }

  /** A quad cycle shifts four bits in; the second one completes the byte. */
  lemma ShiftQuad(f: Flash, x: byte, memory: seq<byte>)
    requires |memory| == MEMORY_SIZE && (f.mode == QuadIn || f.mode == QuadOut) && f.dummyCount == 0
    ensures var y := if f.mode == QuadIn then x else HighNibble(f.buffer);
            var g := f.(buffer := ShiftNibble(f.buffer, y), bitCount := f.bitCount + 4);
            Drive(f, x) == y
            && Rise(f, y, memory)
            == if g.bitCount == 8 then Action(g.(bitCount := 0, byteCount := g.byteCount + 1), memory) else g
  {
    hide Action, ShiftNibble, HighNibble;
  }

  /** Two quad cycles from the host deliver one byte. */
  lemma SendQuad(f: Flash, b: byte, memory: seq<byte>)
    requires |memory| == MEMORY_SIZE && AtByte(f, QuadIn)
    ensures Clocks(f, SendByte(Quad, b), memory) == NextByte(f, b, memory)
  {
    hide Action, Rise, Drive, ShiftNibble, HighNibble, LowNibble, Clocks;
    var g := f.(buffer := ShiftNibble(f.buffer, HighNibble(b)), bitCount := 4);
    ShiftQuad(f, HighNibble(b), memory);
    ShiftQuad(g, LowNibble(b), memory);
    QuadNibbles(f.buffer, b);
    TwoClocks(f, SendByte(Quad, b), memory);
  }

  lemma OwnNibbles(b: byte)
    ensures var c := ShiftNibble(b, HighNibble(b));
            && ShiftNibble(c, HighNibble(c)) == b
            && ShiftNibble(LowNibble(HighNibble(b)), HighNibble(c)) == b
  {
  }

  /** Two quad cycles driven by the flash carry its buffer to the host, whatever the host's side of the lines. */
  lemma ReceiveQuad(f: Flash, lines: seq<byte>, memory: seq<byte>)
    requires |memory| == MEMORY_SIZE && |lines| == 2 && AtByte(f, QuadOut)
    ensures Clocks(f, lines, memory) == NextByte(f, f.buffer, memory)
    ensures ReceiveByte(Quad, Levels(f, lines, memory)) == f.buffer
  {
    hide Action, Rise, Drive, ShiftNibble, HighNibble, LowNibble, Clocks, Levels;
    var g := f.(buffer := ShiftNibble(f.buffer, HighNibble(f.buffer)), bitCount := 4);
    ShiftQuad(f, lines[0], memory);
    ShiftQuad(g, lines[1], memory);
    OwnNibbles(f.buffer);
    TwoClocks(f, lines, memory);
  }

  /** Dummy cycles only count down. */
  lemma {:induction false} DummyClocks(f: Flash, lines: seq<byte>, memory: seq<byte>)
    requires |memory| == MEMORY_SIZE && |lines| <= f.dummyCount
    ensures Clocks(f, lines, memory) == f.(dummyCount := f.dummyCount - |lines|)
    decreases |lines|
  {
    if lines != [] {
      DummyClocks(Rise(f, Drive(f, lines[0]), memory), lines[1..], memory);
    }
  }

  lemma {:induction false} ClocksConcat(f: Flash, s: seq<byte>, t: seq<byte>, memory: seq<byte>)
    requires |memory| == MEMORY_SIZE
    ensures Clocks(f, s + t, memory) == Clocks(Clocks(f, s, memory), t, memory)
    ensures Levels(f, s + t, memory) == Levels(f, s, memory) + Levels(Clocks(f, s, memory), t, memory)
    decreases |s|
  {
    hide Rise, Drive;
    if s == [] {
      assert s + t == t;
    } else {
      assert (s + t)[0] == s[0] && (s + t)[1..] == s[1..] + t;
      ClocksConcat(Rise(f, Drive(f, s[0]), memory), s[1..], t, memory);
    }
  }

  function ShiftAll(a: byte, s: seq<byte>): byte
    decreases |s|
  {
    if s == [] then a else ShiftAll(ShiftIn(a, s[0]), s[1..])
  }

  lemma EightBits(a: byte, b: byte)
    ensures ShiftIn(ShiftIn(ShiftIn(ShiftIn(ShiftIn(ShiftIn(ShiftIn(ShiftIn(a,
              (b >> 7) & 1), (b >> 6) & 1), (b >> 5) & 1), (b >> 4) & 1),
              (b >> 3) & 1), (b >> 2) & 1), (b >> 1) & 1), b & 1) == b
  {
  }

  /** A standard-speed bit shifts into the low end. */
  lemma ShiftBit(f: Flash, x: byte, memory: seq<byte>)
    requires |memory| == MEMORY_SIZE && f.mode == Spi && f.dummyCount == 0
    ensures var g := f.(buffer := ShiftIn(f.buffer, x), bitCount := f.bitCount + 1);
            Rise(f, Drive(f, x), memory)
            == if g.bitCount == 8 then Action(g.(bitCount := 0, byteCount := g.byteCount + 1), memory) else g
  {
    hide Action;
    OneBit(f.buffer, x);
  }

  lemma {:induction false} ShiftBits(f: Flash, s: seq<byte>, memory: seq<byte>)
    requires |memory| == MEMORY_SIZE && f.mode == Spi && f.dummyCount == 0 && f.bitCount + |s| < 8
    ensures Clocks(f, s, memory) == f.(buffer := ShiftAll(f.buffer, s), bitCount := f.bitCount + |s|)
    decreases |s|
  {
    hide Rise, Drive, ShiftIn;
    if s != [] {
      ShiftBit(f, s[0], memory);
      ShiftBits(Rise(f, Drive(f, s[0]), memory), s[1..], memory);
    }
  }

  lemma ShiftSeven(a: byte, s: seq<byte>)
    requires |s| == 7
    ensures ShiftAll(a, s)
         == ShiftIn(ShiftIn(ShiftIn(ShiftIn(ShiftIn(ShiftIn(ShiftIn(a, s[0]), s[1]), s[2]), s[3]), s[4]), s[5]), s[6])
  {
    hide ShiftIn;
    var a2 := ShiftIn(ShiftIn(a, s[0]), s[1]);
    var a4 := ShiftIn(ShiftIn(a2, s[2]), s[3]);
    var a6 := ShiftIn(ShiftIn(a4, s[4]), s[5]);
    ShiftTwo(a, s);
    ShiftTwo(a2, s[2..]);
    ShiftTwo(a4, s[2..][2..]);
    assert s[2..][2..] == s[4..] && s[4..][2..] == [s[6]];
    assert ShiftAll(a6, [s[6]]) == ShiftAll(ShiftIn(a6, s[6]), []);
  }

  lemma ShiftTwo(a: byte, s: seq<byte>)
    requires |s| >= 2
    ensures ShiftAll(a, s) == ShiftAll(ShiftIn(ShiftIn(a, s[0]), s[1]), s[2..])
  {
    hide ShiftIn;
    assert s[1..][1..] == s[2..];
  }

  /** Eight standard cycles from the host deliver one byte. */
  lemma SendStandard(f: Flash, b: byte, memory: seq<byte>)
    requires |memory| == MEMORY_SIZE && AtByte(f, Spi)
    ensures Clocks(f, SendByte(Standard, b), memory) == NextByte(f, b, memory)
  {
    var s := SendByte(Standard, b);
    assert ShiftIn(ShiftAll(f.buffer, s[..7]), s[7]) == b by {
      EightBits(f.buffer, b);
      hide ShiftIn;
      ShiftSeven(f.buffer, s[..7]);
    }
    hide Action, Rise, Drive, ShiftIn, ShiftAll;
    var g := f.(buffer := ShiftAll(f.buffer, s[..7]), bitCount := 7);
    ShiftBits(f, s[..7], memory);
    assert s == s[..7] + [s[7]];
    ClocksConcat(f, s[..7], [s[7]], memory);
    ShiftBit(g, s[7], memory);
    assert [s[7]][1..] == [];
    assert Clocks(g, [s[7]], memory) == Rise(g, Drive(g, s[7]), memory);
  }
}

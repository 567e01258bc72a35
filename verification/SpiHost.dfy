/** The SPI host's bus side: FIFOs, chip select and command segments, and the quad-read transaction they make up. */
module SpiHost {
  import opened Bytes
  import opened SpiFlash

  const TX_DEPTH: nat := 72
  const RX_DEPTH: nat := 64

  datatype Direction = Dummy | Receive | Transmit | Both

  datatype Segment = Segment(direction: Direction, speed: Speed, keepSelected: bool, length: nat)

  /** Everything behind the host's registers that a segment can change. */
  datatype Bus = Bus(tx: seq<word>, rx: seq<word>, selected: bool, flash: Flash)

  // ---------- The command word ----------

  const CSAAT: word := 0x200

  /** bootloader.c's command word. */
  function MakeCommand(direction: word, speed: word, csaat: word, length: word): word {
    ((direction & 3) << 12) | ((speed & 3) << 10) | (if csaat != 0 then CSAAT else 0) | ((length - 1) & 0x1ff)
  }

  /** simulate_flash.c's command word, which does not mask its fields. */
  function UnmaskedCommand(direction: word, speed: word, csaat: word, length: word): word {
    (direction << 12) | (speed << 10) | (if csaat != 0 then 1 << 9 else 0 << 9) | ((length - 1) << 0)
  }

  function DirectionField(c: word): word { (c >> 12) & 3 }

  function SpeedField(c: word): word { (c >> 10) & 3 }

  predicate CsaatField(c: word) { c & CSAAT != 0 }

  function LengthField(c: word): word { (c & 0x1ff) + 1 }

  /** How the host reads a command word. */
  function DecodeCommand(c: word): Segment {
    Segment(
      if DirectionField(c) == 0 then Dummy else if DirectionField(c) == 1 then Receive
      else if DirectionField(c) == 2 then Transmit else Both,
      if SpeedField(c) == 0 then Standard else if SpeedField(c) == 1 then Dual else Quad,
      CsaatField(c), NatOf(LengthField(c)))
  }

  /** The host decodes what bootloader.c encodes: direction and speed modulo 4, length when it is 1 to 512. */
  lemma CommandFields(direction: word, speed: word, csaat: word, length: word)
    requires 1 <= length <= 512
    ensures var c := MakeCommand(direction, speed, csaat, length);
            && DirectionField(c) == direction & 3 && SpeedField(c) == speed & 3
            && (CsaatField(c) <==> csaat != 0) && LengthField(c) == length
  {
  }

  /** Both bootloaders build the same word when the fields fit. */
  lemma SameCommand(direction: word, speed: word, csaat: word, length: word)
    requires direction <= 3 && speed <= 3 && 1 <= length <= 512
    ensures UnmaskedCommand(direction, speed, csaat, length) == MakeCommand(direction, speed, csaat, length)
  {
  }

  // ---------- Segments ----------

  function WordsFor(bytes: nat): nat { (bytes + 3) / 4 }

  /** The bytes of consecutive FIFO words, least significant first. */
  function Unpacked(words: seq<word>): (s: seq<byte>)
    ensures |s| == 4 * |words|
  {
    if words == [] then [] else WordBytes(words[0]) + Unpacked(words[1..])
  }

  /** The FIFO words for received bytes; a partial last word is padded with zero bytes. */
  function Packed(s: seq<byte>): (words: seq<word>)
    ensures |words| == WordsFor(|s|)
  {
    if |s| == 0 then []
    else if |s| == 1 then [Le32(s[0], 0, 0, 0)]
    else if |s| == 2 then [Le32(s[0], s[1], 0, 0)]
    else if |s| == 3 then [Le32(s[0], s[1], s[2], 0)]
    else [ReadWord(s, 0)] + Packed(s[4..])
  }

  function SendAll(f: Flash, speed: Speed, bytes: seq<byte>, memory: seq<byte>): Flash
    requires |memory| == MEMORY_SIZE
    decreases |bytes|
  {
    if bytes == [] then f
    else SendAll(Clocks(f, SendByte(speed, bytes[0]), memory), speed, bytes[1..], memory)
  }

  /** What the host would sample while sending. */
  function Echo(f: Flash, speed: Speed, bytes: seq<byte>, memory: seq<byte>): (r: seq<byte>)
    requires |memory| == MEMORY_SIZE
    ensures |r| == |bytes|
    decreases |bytes|
  {
    if bytes == [] then []
    else
      var lines := SendByte(speed, bytes[0]);
      [ReceiveByte(speed, Levels(f, lines, memory))] + Echo(Clocks(f, lines, memory), speed, bytes[1..], memory)
  }

  /** Lines nobody on the host's side drives: any level. */
  function Floating(n: nat, level: byte): (s: seq<byte>)
    ensures |s| == n
  {
    seq(n, _ => level)
  }

  function ReceiveAll(f: Flash, speed: Speed, n: nat, level: byte, memory: seq<byte>): (r: seq<byte>)
    requires |memory| == MEMORY_SIZE
    ensures |r| == n
    decreases n
  {
    if n == 0 then []
    else
      var lines := Floating(ClocksPerByte(speed), level);
      [ReceiveByte(speed, Levels(f, lines, memory))] + ReceiveAll(Clocks(f, lines, memory), speed, n - 1, level, memory)
  }

  function AfterReceive(f: Flash, speed: Speed, n: nat, level: byte, memory: seq<byte>): Flash
    requires |memory| == MEMORY_SIZE
    decreases n
  {
    if n == 0 then f
    else AfterReceive(Clocks(f, Floating(ClocksPerByte(speed), level), memory), speed, n - 1, level, memory)
  }

  /** The FIFOs allow the whole segment to run. */
  predicate CanRun(b: Bus, s: Segment) {
    && (s.direction.Transmit? || s.direction.Both? ==> WordsFor(s.length) <= |b.tx|)
    && (s.direction.Receive? || s.direction.Both? ==> |b.rx| + WordsFor(s.length) <= RX_DEPTH)
  }

  /** Selects the flash if it is not selected, moves the segment's bytes, and releases it unless told to keep it. */
  function RunSegment(b: Bus, s: Segment, level: byte, memory: seq<byte>): Bus
    requires |memory| == MEMORY_SIZE && CanRun(b, s)
  {
    var f := if b.selected then b.flash else Select(b.flash, memory);
    var n := WordsFor(s.length);
    var moved :=
      match s.direction
      case Dummy => b.(flash := Clocks(f, Floating(s.length, level), memory))
      case Transmit =>
        b.(tx := b.tx[n..], flash := SendAll(f, s.speed, Unpacked(b.tx[..n])[..s.length], memory))
      case Receive =>
        b.(rx := b.rx + Packed(ReceiveAll(f, s.speed, s.length, level, memory)),
           flash := AfterReceive(f, s.speed, s.length, level, memory))
      case Both =>
        var bytes := Unpacked(b.tx[..n])[..s.length];
        b.(tx := b.tx[n..], rx := b.rx + Packed(Echo(f, s.speed, bytes, memory)),
           flash := SendAll(f, s.speed, bytes, memory));
    if s.keepSelected then moved.(selected := true)
    else moved.(selected := false, flash := Deselect(moved.flash))
  }

  // ---------- The quad read ----------

  /** Deselected, not counting dummy cycles, and not in execute-in-place mode. */
  predicate Resting(f: Flash) {
    AtByte(f, Spi) && f.byteCount == 0 && f.xip == 0
  }

  /** No transaction is open, nothing is left in either FIFO, and the flash listens. */
  predicate Idle(b: Bus) {
    b.tx == [] && b.rx == [] && !b.selected && Resting(b.flash) && b.flash.poweredUp
  }

  /** The word both bootloaders send after the opcode: address high byte first, then the mode byte 0. */
  function AddressWord(addr: word): word {
    (((addr >> 16) & 0xff) << 0) | (((addr >> 8) & 0xff) << 8) | (((addr >> 0) & 0xff) << 16) | ((0x00 & 0xff) << 24)
  }

  lemma AddressWordBytes(addr: word)
    ensures WordBytes(AddressWord(addr)) == [ByteAt(addr, 2), ByteAt(addr, 1), ByteAt(addr, 0), 0]
  {
    var w := AddressWord(addr);
    assert ByteAt(w, 0) == ByteAt(addr, 2);
    assert ByteAt(w, 1) == ByteAt(addr, 1);
    assert ByteAt(w, 2) == ByteAt(addr, 0);
    assert ByteAt(w, 3) == 0;
  }

  /** The word stored at a flash address; addresses wrap at the end of the memory. */
  function FlashWord(memory: seq<byte>, addr: nat): word
    requires |memory| == MEMORY_SIZE
  {
    Le32(memory[addr % MEMORY_SIZE], memory[(addr + 1) % MEMORY_SIZE],
         memory[(addr + 2) % MEMORY_SIZE], memory[(addr + 3) % MEMORY_SIZE])
  }

  /** The number the word denotes: the byte at the address is the least significant. */
  lemma FlashWordValue(memory: seq<byte>, addr: nat)
    requires |memory| == 0x100_0000
    ensures NatOf(FlashWord(memory, addr))
         == Val(memory[addr % 0x100_0000]) + 0x100 * Val(memory[(addr + 1) % 0x100_0000])
          + 0x1_0000 * Val(memory[(addr + 2) % 0x100_0000]) + 0x100_0000 * Val(memory[(addr + 3) % 0x100_0000])
  {
    hide Le32, NatOf, Val;
    NatOfLe32(memory[addr % MEMORY_SIZE], memory[(addr + 1) % MEMORY_SIZE],
              memory[(addr + 2) % MEMORY_SIZE], memory[(addr + 3) % MEMORY_SIZE]);
  }

  lemma SendOne(f: Flash, b: byte, memory: seq<byte>)
    requires |memory| == MEMORY_SIZE && AtByte(f, Spi)
    ensures SendAll(f, Standard, [b], memory) == NextByte(f, b, memory)
  {
    hide NextByte, Clocks, SendByte;
    SendStandard(f, b, memory);
    var g := NextByte(f, b, memory);
    assert [b][1..] == [];
    assert SendAll(g, Standard, [], memory) == g;
  }

  /** After the opcode the flash reads quad nibbles. */
  lemma AfterOpcode(f: Flash, memory: seq<byte>)
    requires |memory| == MEMORY_SIZE && Resting(f) && f.poweredUp
    ensures SendAll(f, Standard, [READ_QUAD], memory)
         == f.(buffer := READ_QUAD, byteCount := 1, cmd := READ_QUAD, mode := QuadIn)
  {
    hide SendAll;
    SendOne(f, READ_QUAD, memory);
  }

  lemma SendFourQuad(f: Flash, b0: byte, b1: byte, b2: byte, b3: byte, memory: seq<byte>)
    requires |memory| == MEMORY_SIZE
    requires AtByte(f, QuadIn)
    requires var f1 := NextByte(f, b0, memory); var f2 := NextByte(f1, b1, memory); var f3 := NextByte(f2, b2, memory);
             AtByte(f1, QuadIn) && AtByte(f2, QuadIn) && AtByte(f3, QuadIn)
    ensures SendAll(f, Quad, [b0, b1, b2, b3], memory)
         == NextByte(NextByte(NextByte(NextByte(f, b0, memory), b1, memory), b2, memory), b3, memory)
  {
    hide NextByte, AtByte, Clocks, SendByte;
    var f1 := NextByte(f, b0, memory);
    var f2 := NextByte(f1, b1, memory);
    var f3 := NextByte(f2, b2, memory);
    SendQuad(f, b0, memory);
    SendQuad(f1, b1, memory);
    SendQuad(f2, b2, memory);
    SendQuad(f3, b3, memory);
    assert [b0, b1, b2, b3][1..] == [b1, b2, b3] && [b1, b2, b3][1..] == [b2, b3] && [b2, b3][1..] == [b3] && [b3][1..] == [];
    var f4 := NextByte(f3, b3, memory);
    assert SendAll(f4, Quad, [], memory) == f4;
    assert SendAll(f3, Quad, [b3], memory) == f4;
    assert SendAll(f2, Quad, [b2, b3], memory) == f4;
    assert SendAll(f1, Quad, [b1, b2, b3], memory) == f4;
  }

  function AddressOf(b2: byte, b1: byte, b0: byte): nat {
    Val(b2) * 0x1_0000 + Val(b1) * 0x100 + Val(b0)
  }

  lemma AddressAssembled(a: nat, b2: byte, b1: byte, b0: byte)
    ensures WithAddressByte(WithAddressByte(WithAddressByte(a, 2, b2), 3, b1), 4, b0) == AddressOf(b2, b1, b0)
    ensures AddressOf(b2, b1, b0) < MEMORY_SIZE
  {
    ByteOfVal(b2);
    ByteOfVal(b1);
    ByteOfVal(b0);
    hide Val;
    var x := WithAddressByte(a, 2, b2);
    assert x / 0x1_0000 == Val(b2);
    var y := WithAddressByte(x, 3, b1);
    assert y / 0x100 == Val(b2) * 0x100 + Val(b1);
  }

  /** After address and mode byte the flash has fetched the first byte and waits for the dummy cycles. */
  lemma AfterAddress(f: Flash, b2: byte, b1: byte, b0: byte, memory: seq<byte>)
    requires |memory| == MEMORY_SIZE
    requires AtByte(f, QuadIn) && f.byteCount == 1 && f.cmd == READ_QUAD && f.poweredUp
    ensures var a := AddressOf(b2, b1, b0);
            a < MEMORY_SIZE
            && SendAll(f, Quad, [b2, b1, b0, 0], memory)
            == f.(buffer := memory[a], byteCount := 5, dummyCount := LATENCY, xip := 0,
                  addr := (a + 1) % MEMORY_SIZE, mode := QuadOut)
  {
    hide SendAll, WithAddressByte, AddressOf;
    AddressAssembled(f.addr, b2, b1, b0);
    var a1 := WithAddressByte(f.addr, 2, b2);
    var a2 := WithAddressByte(a1, 3, b1);
    assert NextByte(f, b2, memory) == f.(buffer := b2, byteCount := 2, addr := a1);
    assert NextByte(f.(buffer := b2, byteCount := 2, addr := a1), b1, memory) == f.(buffer := b1, byteCount := 3, addr := a2);
    var g := f.(buffer := b0, byteCount := 4, addr := AddressOf(b2, b1, b0));
    assert NextByte(f.(buffer := b1, byteCount := 3, addr := a2), b0, memory) == g;
    SendFourQuad(f, b2, b1, b0, 0, memory);
    assert WithAddressByte(g.addr, 5, 0) == g.addr by { NoAddressByte(g.addr, 5, 0); }
  }

  lemma NoAddressByte(a: nat, k: nat, b: byte)
    requires k > 4
    ensures WithAddressByte(a, k, b) == a
  {
  }

  /** The flash is sending: its buffer holds the byte at a, and its address register points past it. */
  predicate Sending(f: Flash, a: nat, memory: seq<byte>)
    requires |memory| == MEMORY_SIZE
  {
    && AtByte(f, QuadOut) && f.byteCount >= 5 && f.cmd == READ_QUAD && f.poweredUp && f.xip == 0
    && f.buffer == memory[a % MEMORY_SIZE] && f.addr == (a + 1) % MEMORY_SIZE
  }

  lemma SendNext(f: Flash, a: nat, memory: seq<byte>)
    requires |memory| == MEMORY_SIZE && Sending(f, a, memory)
    ensures Sending(NextByte(f, f.buffer, memory), a + 1, memory)
  {
    NoAddressByte(f.addr, f.byteCount + 1, f.buffer);
    hide WithAddressByte;
    assert ((a + 1) % MEMORY_SIZE + 1) % MEMORY_SIZE == (a + 2) % MEMORY_SIZE;
  }

  /** Any number of quad bytes received are the memory's bytes from a on. */
  lemma {:induction false} ReceiveRun(f: Flash, a: nat, n: nat, level: byte, memory: seq<byte>)
    requires |memory| == MEMORY_SIZE && Sending(f, a, memory)
    ensures ReceiveAll(f, Quad, n, level, memory) == seq(n, i requires 0 <= i < n => memory[(a + i) % MEMORY_SIZE])
    ensures Sending(AfterReceive(f, Quad, n, level, memory), a + n, memory)
    decreases n
  {
    hide NextByte, Clocks, Levels, Sending, ReceiveByte;
    if n > 0 {
      var lines := Floating(2, level);
      assert f.buffer == memory[a % MEMORY_SIZE] && AtByte(f, QuadOut) by { SendingNow(f, a, memory); }
      ReceiveQuad(f, lines, memory);
      SendNext(f, a, memory);
      var g := NextByte(f, f.buffer, memory);
      ReceiveRun(g, a + 1, n - 1, level, memory);
    }
  }

  lemma SendingNow(f: Flash, a: nat, memory: seq<byte>)
    requires |memory| == MEMORY_SIZE && Sending(f, a, memory)
    ensures f.buffer == memory[a % MEMORY_SIZE] && AtByte(f, QuadOut)
  {
  }
}

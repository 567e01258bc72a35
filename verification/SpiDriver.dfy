/** The register interface of the SPI host as software sees it, and the polling drivers of both bootloaders
    on top of it. The host works in its own time: a command stays pending for any number of status reads. */
module SpiDriver {
  import opened Bytes
  import opened SpiFlash
  import opened SpiHost
  import opened Wrappers

  const SPIEN: word := 0x8000_0000
  const SW_RST: word := 0x4000_0000
  const OUTPUT_EN: word := 0x2000_0000

  const STATUS_READY: word := 0x8000_0000
  const STATUS_ACTIVE: word := 0x4000_0000
  const STATUS_TXFULL: word := 0x2000_0000
  const STATUS_RXEMPTY: word := 0x0100_0000

  const SEGMENT_OPCODE: Segment := Segment(Transmit, Standard, true, 1)
  const SEGMENT_ADDRESS: Segment := Segment(Transmit, Quad, true, 4)
  const SEGMENT_DUMMY: Segment := Segment(Dummy, Quad, true, 8)
  const SEGMENT_DATA: Segment := Segment(Receive, Quad, false, 4)
  const SEGMENT_WAKE: Segment := Segment(Transmit, Standard, false, 1)

  predicate Enabled(control: word) {
    control & SPIEN != 0 && control & OUTPUT_EN != 0 && control & SW_RST == 0
  }

  /** A status word: four flags the drivers look at, and other fields they ignore. */
  function StatusWord(ready: bool, active: bool, txFull: bool, rxEmpty: bool, others: word): word {
    (if ready then STATUS_READY else 0) | (if active then STATUS_ACTIVE else 0)
    | (if txFull then STATUS_TXFULL else 0) | (if rxEmpty then STATUS_RXEMPTY else 0) | (others & 0x1eff_ffff)
  }

  lemma StatusFlags(ready: bool, active: bool, txFull: bool, rxEmpty: bool, others: word)
    ensures var s := StatusWord(ready, active, txFull, rxEmpty, others);
            && (s & 0x8000_0000 != 0 <==> ready) && (s & 0x4000_0000 != 0 <==> active)
            && (s & 0x2000_0000 != 0 <==> txFull) && (s & 0x0100_0000 != 0 <==> rxEmpty)
  {
  }

  lemma Commands()
    ensures DecodeCommand(MakeCommand(2, 0, 1, 1)) == SEGMENT_OPCODE
    ensures DecodeCommand(MakeCommand(2, 2, 1, 4)) == SEGMENT_ADDRESS
    ensures DecodeCommand(MakeCommand(0, 2, 1, 8)) == SEGMENT_DUMMY
    ensures DecodeCommand(MakeCommand(1, 2, 0, 4)) == SEGMENT_DATA
    ensures DecodeCommand(MakeCommand(2, 0, 0, 1)) == SEGMENT_WAKE
  {
    SmallNumbers();
    assert 2 & 3 as word == 2 && 0 & 3 as word == 0 && 1 & 3 as word == 1;
    hide NatOf, MakeCommand, DirectionField, SpeedField, CsaatField, LengthField;
    CommandFields(2, 0, 1, 1);
    CommandFields(2, 2, 1, 4);
    CommandFields(0, 2, 1, 8);
    CommandFields(1, 2, 0, 4);
    CommandFields(2, 0, 0, 1);
  }

  /** The words themselves: direction in bits 13 and 12, speed in 11 and 10, chip select kept in 9, length - 1 below. */
  lemma CommandWords()
    ensures MakeCommand(2, 0, 1, 1) == 0x2200 && MakeCommand(2, 2, 1, 4) == 0x2a03 && MakeCommand(0, 2, 1, 8) == 0x0a07
    ensures MakeCommand(1, 2, 0, 4) == 0x1803 && MakeCommand(2, 0, 0, 1) == 0x2000
  {
  }

  /** simulate_flash.c builds the same five command words without masking. */
  lemma SimulatorCommands()
    ensures UnmaskedCommand(2, 0, 1, 1) == MakeCommand(2, 0, 1, 1)
    ensures UnmaskedCommand(2, 2, 1, 4) == MakeCommand(2, 2, 1, 4)
    ensures UnmaskedCommand(0, 2, 1, 8) == MakeCommand(0, 2, 1, 8)
    ensures UnmaskedCommand(1, 2, 0, 4) == MakeCommand(1, 2, 0, 4)
    ensures UnmaskedCommand(2, 0, 0, 1) == MakeCommand(2, 0, 0, 1)
  {
    hide UnmaskedCommand, MakeCommand;
    SameCommand(2, 0, 1, 1);
    SameCommand(2, 2, 1, 4);
    SameCommand(0, 2, 1, 8);
    SameCommand(1, 2, 0, 4);
    SameCommand(2, 0, 0, 1);
  }

  lemma SmallNumbers()
    ensures NatOf(1) == 1 && NatOf(4) == 4 && NatOf(8) == 8
  {
    hide ByteAt, Val;
    NatOfLe32(1, 0, 0, 0);
    NatOfLe32(4, 0, 0, 0);
    NatOfLe32(8, 0, 0, 0);
    assert Le32(1, 0, 0, 0) == 1 && Le32(4, 0, 0, 0) == 4 && Le32(8, 0, 0, 0) == 8;
    assert Val(0) == 0 && Val(1) == 1 && Val(4) == 4 && Val(8) == 8 by { SmallVals(); }
  }

  lemma SmallVals()
    ensures Val(0) == 0 && Val(1) == 1 && Val(4) == 4 && Val(8) == 8
  {
  }

  // ---------- The whole read as four segments ----------

  function Pushed(b: Bus, w: word): Bus {
    b.(tx := b.tx + [w])
  }

  lemma OpcodeSegment(b: Bus, level: byte, memory: seq<byte>)
    requires |memory| == MEMORY_SIZE && Idle(b)
    ensures CanRun(Pushed(b, 0xEB), SEGMENT_OPCODE)
    ensures RunSegment(Pushed(b, 0xEB), SEGMENT_OPCODE, level, memory)
         == b.(selected := true, flash := b.flash.(buffer := READ_QUAD, byteCount := 1, cmd := READ_QUAD, mode := QuadIn))
  {
    hide SendAll, Action, WordBytes;
    OneWord(0xEB);
    assert WordBytes(0xEB)[..1] == [READ_QUAD] by { OpcodeBytes(); }
    AfterOpcode(b.flash, memory);
    var p := Pushed(b, 0xEB);
    assert p.tx[..1] == [0xEB] && p.tx[1..] == [];
  }

  lemma OneWord(w: word)
    ensures Unpacked([w]) == WordBytes(w)
  {
    assert [w][1..] == [];
  }

  lemma OpcodeBytes()
    ensures WordBytes(0xEB)[..1] == [READ_QUAD] && WordBytes(0xAB)[..1] == [POWER_UP]
  {
  }

  lemma AddressSegment(b: Bus, addr: word, level: byte, memory: seq<byte>)
    requires |memory| == MEMORY_SIZE && b.tx == [] && b.selected
    requires AtByte(b.flash, QuadIn) && b.flash.byteCount == 1 && b.flash.cmd == READ_QUAD && b.flash.poweredUp
    ensures CanRun(Pushed(b, AddressWord(addr)), SEGMENT_ADDRESS)
    ensures var a := NatOf(addr) % MEMORY_SIZE;
            RunSegment(Pushed(b, AddressWord(addr)), SEGMENT_ADDRESS, level, memory)
            == b.(flash := b.flash.(buffer := memory[a], byteCount := 5, dummyCount := LATENCY, xip := 0,
                                    addr := (a + 1) % MEMORY_SIZE, mode := QuadOut))
  {
    hide SendAll, WordBytes, AddressWord, ByteAt, Val;
    var w := AddressWord(addr);
    var s := [ByteAt(addr, 2), ByteAt(addr, 1), ByteAt(addr, 0), 0];
    OneWord(w);
    AddressWordBytes(addr);
    AfterAddress(b.flash, ByteAt(addr, 2), ByteAt(addr, 1), ByteAt(addr, 0), memory);
    AddressNumber(addr);
    var p := Pushed(b, w);
    assert p.tx[..1] == [w] && p.tx[1..] == [] && s[..4] == s;
  }

  lemma AddressNumber(addr: word)
    ensures AddressOf(ByteAt(addr, 2), ByteAt(addr, 1), ByteAt(addr, 0)) == NatOf(addr) % MEMORY_SIZE
  {
    hide ByteAt, Val;
    ByteOfVal(ByteAt(addr, 0));
    ByteOfVal(ByteAt(addr, 1));
    ByteOfVal(ByteAt(addr, 2));
    var n := AddressOf(ByteAt(addr, 2), ByteAt(addr, 1), ByteAt(addr, 0));
    assert NatOf(addr) == n + MEMORY_SIZE * Val(ByteAt(addr, 3));
    assert n < MEMORY_SIZE;
  }

  lemma DummySegment(b: Bus, level: byte, memory: seq<byte>)
    requires |memory| == MEMORY_SIZE && b.selected && b.flash.dummyCount == LATENCY
    ensures CanRun(b, SEGMENT_DUMMY)
    ensures RunSegment(b, SEGMENT_DUMMY, level, memory) == b.(flash := b.flash.(dummyCount := 0))
  {
    hide Clocks;
    DummyClocks(b.flash, Floating(8, level), memory);
  }

  lemma DataSegment(b: Bus, a: nat, level: byte, memory: seq<byte>)
    requires |memory| == MEMORY_SIZE && b.tx == [] && b.rx == [] && b.selected && Sending(b.flash, a, memory)
    ensures CanRun(b, SEGMENT_DATA)
    ensures var c := RunSegment(b, SEGMENT_DATA, level, memory);
            && c.tx == [] && c.rx == [FlashWord(memory, a)] && !c.selected
            && Resting(c.flash) && c.flash.poweredUp
  {
    hide ReceiveAll, AfterReceive, Le32;
    ReceiveRun(b.flash, a, 4, level, memory);
    var r := ReceiveAll(b.flash, Quad, 4, level, memory);
    assert r[4..] == [];
    assert Packed(r) == [ReadWord(r, 0)] + Packed(r[4..]);
    assert Packed(r[4..]) == [];
    assert r[0] == memory[(a + 0) % MEMORY_SIZE] && r[1] == memory[(a + 1) % MEMORY_SIZE];
    assert r[2] == memory[(a + 2) % MEMORY_SIZE] && r[3] == memory[(a + 3) % MEMORY_SIZE];
  }

  /** The oldest received word was taken out. */
  predicate Took(before: Bus, w: word, after: Bus) {
    before.rx != [] && w == before.rx[0] && after == before.(rx := before.rx[1..])
  }

  lemma WakeSegment(b: Bus, level: byte, memory: seq<byte>)
    requires |memory| == MEMORY_SIZE && b.tx == [] && b.rx == [] && !b.selected && Resting(b.flash)
    ensures CanRun(Pushed(b, 0xAB), SEGMENT_WAKE)
    ensures Idle(RunSegment(Pushed(b, 0xAB), SEGMENT_WAKE, level, memory))
  {
    hide SendAll, WordBytes;
    OneWord(0xAB);
    OpcodeBytes();
    SendOne(b.flash, POWER_UP, memory);
    var p := Pushed(b, 0xAB);
    assert p.tx[..1] == [0xAB] && p.tx[1..] == [];
  }

  // ---------- Registers and drivers ----------

  class Host {
    const memory: seq<byte>
    /** Level of the lines nobody drives. */
    const floating: byte
    var control: word
    var bus: Bus
    /** The command written last, while it has not been carried out. */
    var pending: Option<Segment>
    /** How many more status reads it will take; chosen by the hardware. */
    var delay: nat

    ghost predicate Valid()
      reads this
    {
      |memory| == MEMORY_SIZE && (pending.Some? ==> Enabled(control) && CanRun(bus, pending.value))
    }

    /** Where the bus will be once the pending command has run. */
    ghost function Settled(): Bus
      reads this
      requires Valid()
    {
      if pending.Some? then RunSegment(bus, pending.value, floating, memory) else bus
    }

    /** Any state the host and flash can be in before the drivers run. */
    constructor (memory: seq<byte>, floating: byte, control: word, bus: Bus)
      requires |memory| == MEMORY_SIZE
      ensures Valid() && this.memory == memory && this.control == control && this.bus == bus && pending == None
    {
      this.memory := memory;
      this.floating := floating;
      this.control := control;
      this.bus := bus;
      pending := None;
      delay := 0;
    }

    /** A status read; the hardware may finish the pending command first. */
    method ReadStatus() returns (status: word)
      requires Valid()
      modifies this
      ensures Valid() && control == old(control)
      ensures (pending == old(pending) && bus == old(bus)) || (pending == None && bus == old(Settled()))
      ensures pending.Some? ==> delay < old(delay)
      ensures status & STATUS_ACTIVE != 0 <==> pending.Some?
      ensures pending == None ==> status & STATUS_READY != 0
      ensures status & STATUS_TXFULL != 0 <==> |bus.tx| >= TX_DEPTH
      ensures status & STATUS_RXEMPTY != 0 <==> bus.rx == []
    {
      if pending.Some? {
        if delay == 0 {
          bus := RunSegment(bus, pending.value, floating, memory);
          pending := None;
        } else {
          delay := delay - 1;
        }
      }
      var queueFree: bool, others: word := *, *;
      StatusFlags(pending.None? || queueFree, pending.Some?, |bus.tx| >= TX_DEPTH, bus.rx == [], others);
      status := StatusWord(pending.None? || queueFree, pending.Some?, |bus.tx| >= TX_DEPTH, bus.rx == [], others);
    }

    /** A software reset empties the FIFOs, drops the command and releases chip select. */
    method WriteControl(value: word)
      requires Valid() && (pending == None || value & SW_RST != 0)
      modifies this
      ensures Valid() && control == value && pending == None
      ensures bus == if value & SW_RST != 0 then Bus([], [], false, Deselect(old(bus).flash)) else old(bus)
    {
      control := value;
      pending := None;
      if value & SW_RST != 0 {
        bus := Bus([], [], false, Deselect(bus.flash));
      }
    }

    method WriteCommand(command: word)
      requires Valid() && pending == None && Enabled(control) && CanRun(bus, DecodeCommand(command))
      modifies this
      ensures Valid() && control == old(control) && bus == old(bus) && pending == Some(DecodeCommand(command))
    {
      pending := Some(DecodeCommand(command));
      delay := *;
    }

    method WriteTxData(w: word)
      requires Valid() && |bus.tx| < TX_DEPTH
      modifies this
      ensures Valid() && control == old(control) && bus == Pushed(old(bus), w) && pending == old(pending)
    {
      bus := Pushed(bus, w);
    }

    method ReadRxData() returns (w: word)
      requires Valid() && bus.rx != []
      modifies this
      ensures Valid() && control == old(control) && pending == old(pending)
      ensures w == old(bus).rx[0] && bus == old(bus).(rx := old(bus).rx[1..])
    {
      w := bus.rx[0];
      bus := bus.(rx := bus.rx[1..]);
    }

    // Drivers.

    method WaitReady()
      requires Valid()
      modifies this
      ensures Valid() && control == old(control) && pending == None && bus == old(Settled())
    {
      var status := ReadStatus();
      while status & STATUS_READY == 0 || status & STATUS_ACTIVE != 0
        invariant Valid() && control == old(control)
        invariant (pending == old(pending) && bus == old(bus)) || (pending == None && bus == old(Settled()))
        invariant status & STATUS_ACTIVE != 0 <==> pending.Some?
        invariant pending == None ==> status & STATUS_READY != 0
        decreases if pending.Some? then delay + 1 else 0
      {
        status := ReadStatus();
      }
    }

    /** Waits for room in the transmit FIFO, which a pending command may have to make. */
    method TransmitWord(w: word)
      requires Valid() && (|bus.tx| < TX_DEPTH || |Settled().tx| < TX_DEPTH)
      modifies this
      ensures Valid() && control == old(control)
      ensures (pending == old(pending) && bus == Pushed(old(bus), w))
           || (pending == None && bus == Pushed(old(Settled()), w))
    {
      var status := ReadStatus();
      while status & STATUS_TXFULL != 0
        invariant Valid() && control == old(control)
        invariant (pending == old(pending) && bus == old(bus)) || (pending == None && bus == old(Settled()))
        invariant status & STATUS_TXFULL != 0 <==> |bus.tx| >= TX_DEPTH
        decreases if pending.Some? then delay + 1 else 0
      {
        status := ReadStatus();
      }
      WriteTxData(w);
    }

    /** Waits for a received word, which a pending command may have to bring. */
    method ReceiveWord() returns (w: word)
      requires Valid() && (bus.rx != [] || Settled().rx != [])
      modifies this
      ensures Valid() && control == old(control)
      ensures (pending == old(pending) && Took(old(bus), w, bus)) || (pending == None && Took(old(Settled()), w, bus))
    {
      var status := ReadStatus();
      while status & STATUS_RXEMPTY != 0
        invariant Valid() && control == old(control)
        invariant (pending == old(pending) && bus == old(bus)) || (pending == None && bus == old(Settled()))
        invariant status & STATUS_RXEMPTY != 0 <==> bus.rx == []
        decreases if pending.Some? then delay + 1 else 0
      {
        status := ReadStatus();
      }
      w := ReadRxData();
    }

    method RunCommand(direction: word, speed: word, csaat: word, length: word)
      requires Valid() && Enabled(control)
      requires CanRun(Settled(), DecodeCommand(MakeCommand(direction, speed, csaat, length)))
      modifies this
      ensures Valid() && control == old(control) && pending == None
      ensures bus == RunSegment(old(Settled()), DecodeCommand(MakeCommand(direction, speed, csaat, length)), floating, memory)
    {
      WaitReady();
      WriteCommand(MakeCommand(direction, speed, csaat, length));
      WaitReady();
    }

    /** Reset, configure, enable: afterwards the FIFOs are empty and chip select is released. */
    method SpiInit()
      requires Valid()
      modifies this
      ensures Valid() && Enabled(control) && control == 0xa000_0000 && pending == None
      ensures bus == Bus([], [], false, Deselect(old(bus).flash))
    {
      ControlBits();
      WriteControl(SW_RST);
      WriteControl(0);
      WaitReady();
      WaitReady();
      WriteControl(SPIEN | OUTPUT_EN);
      WaitReady();
    }

    method FlashPowerUp()
      requires Valid() && Enabled(control) && pending == None
      requires bus.tx == [] && bus.rx == [] && !bus.selected && Resting(bus.flash)
      modifies this
      ensures Valid() && control == old(control) && pending == None && Idle(bus)
    {
      hide RunSegment;
      Commands();
      WakeSegment(bus, floating, memory);
      TransmitWord(0xAB);
      RunCommand(2, 0, 0, 1);
    }

    /** The fast quad read: returns the little-endian word at the address and leaves everything as it found it. */
    method FlashReadWord(addr: word) returns (w: word)
      requires Valid() && Enabled(control) && pending == None && Idle(bus)
      modifies this
      ensures Valid() && control == old(control) && pending == None && Idle(bus)
      ensures w == FlashWord(memory, NatOf(addr))
    {
      hide RunSegment, MakeCommand, DecodeCommand, NatOf, AddressWord, FlashWord;
      Commands();
      ghost var a := NatOf(addr) % MEMORY_SIZE;
      OpcodeSegment(bus, floating, memory);
      TransmitWord(0xEB);
      RunCommand(2, 0, 1, 1);
      AddressSegment(bus, addr, floating, memory);
      TransmitWord(AddressWord(addr));
      RunCommand(2, 2, 1, 4);
      DummySegment(bus, floating, memory);
      RunCommand(0, 2, 1, 8);
      DataSegment(bus, a, floating, memory);
      RunCommand(1, 2, 0, 4);
      ghost var full := bus;
      w := ReceiveWord();
      assert full.rx[1..] == [];
      assert FlashWord(memory, a) == FlashWord(memory, NatOf(addr)) by { FlashWordWraps(memory, NatOf(addr)); }
    }

    // The drivers of simulate_flash.c where they differ.

    /** Writes the command at once and waits only afterwards, so nothing may be pending. */
    method SendCommand(length: word, csaat: word, speed: word, direction: word)
      requires Valid() && Enabled(control) && pending == None
      requires CanRun(bus, DecodeCommand(UnmaskedCommand(direction, speed, csaat, length)))
      modifies this
      ensures Valid() && control == old(control) && pending == None
      ensures bus == RunSegment(old(bus), DecodeCommand(UnmaskedCommand(direction, speed, csaat, length)), floating, memory)
    {
      WriteCommand(UnmaskedCommand(direction, speed, csaat, length));
      WaitReady();
    }

    /** The mask of this poll is 1 >> 24, which is 0, so the status is read once and nothing is awaited: the word has to
        be there already. */
    method ReadRxDataAtOnce() returns (w: word)
      requires Valid() && pending == None && bus.rx != []
      modifies this
      ensures Valid() && control == old(control) && pending == None && Took(old(bus), w, bus)
    {
      var status := ReadStatus();
      w := ReadRxData();
    }

    method SimulatorPowerUp()
      requires Valid() && Enabled(control) && pending == None
      requires bus.tx == [] && bus.rx == [] && !bus.selected && Resting(bus.flash)
      modifies this
      ensures Valid() && control == old(control) && pending == None && Idle(bus)
    {
      hide RunSegment, UnmaskedCommand, MakeCommand;
      Commands();
      SimulatorCommands();
      WakeSegment(bus, floating, memory);
      TransmitWord(0xAB);
      SendCommand(1, 0, 0, 2);
    }

    /** Waiting before each command and before the received word is not needed: this form reads the same words. */
    method SimulatorReadWord(addr: word) returns (w: word)
      requires Valid() && Enabled(control) && pending == None && Idle(bus)
      modifies this
      ensures Valid() && control == old(control) && pending == None && Idle(bus)
      ensures w == FlashWord(memory, NatOf(addr))
    {
      hide RunSegment, MakeCommand, UnmaskedCommand, DecodeCommand, NatOf, AddressWord, FlashWord;
      Commands();
      SimulatorCommands();
      ghost var a := NatOf(addr) % MEMORY_SIZE;
      OpcodeSegment(bus, floating, memory);
      TransmitWord(0xEB);
      SendCommand(1, 1, 0, 2);
      AddressSegment(bus, addr, floating, memory);
      TransmitWord(AddressWord(addr));
      SendCommand(4, 1, 2, 2);
      DummySegment(bus, floating, memory);
      SendCommand(8, 1, 2, 0);
      DataSegment(bus, a, floating, memory);
      SendCommand(4, 0, 2, 1);
      ghost var full := bus;
      w := ReadRxDataAtOnce();
      assert full.rx[1..] == [];
      assert FlashWord(memory, a) == FlashWord(memory, NatOf(addr)) by { FlashWordWraps(memory, NatOf(addr)); }
    }
  }

  lemma ControlBits()
    ensures SW_RST & SW_RST != 0
    ensures (0 as word) & SW_RST == 0
    ensures Enabled(SPIEN | OUTPUT_EN) && (SPIEN | OUTPUT_EN) & SW_RST == 0 && SPIEN | OUTPUT_EN == 0xa000_0000
  {
  }

  lemma FlashWordWraps(memory: seq<byte>, n: nat)
    requires |memory| == MEMORY_SIZE
    ensures FlashWord(memory, n % MEMORY_SIZE) == FlashWord(memory, n)
  {
    var a := n % MEMORY_SIZE;
    var q := n / MEMORY_SIZE;
    assert n == MEMORY_SIZE * q + a;
    assert (a + 1) % MEMORY_SIZE == (n + 1) % MEMORY_SIZE;
    assert (a + 2) % MEMORY_SIZE == (n + 2) % MEMORY_SIZE;
    assert (a + 3) % MEMORY_SIZE == (n + 3) % MEMORY_SIZE;
  }
}

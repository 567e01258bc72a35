/** The flash image of mkflash.py and the two bootloaders that load it. */
module Boot {
  import opened Bytes
  import opened Wrappers
  import opened Crc32
  import opened Crc32Bits
  import opened Crc32Impl
  import opened SpiFlash
  import opened SpiHost
  import opened SpiDriver

  const BOOT_MAGIC: word := 0xB007_C0DE
  const MAX_PAYLOAD: nat := 0x1_0000
  const HEADER_SIZE: nat := 12

  datatype Outcome = BadMagic | BadSize | BadCrc | Jump

  // ---------- The image ----------

  /** Magic, size and check sequence, each a little-endian word. */
  function Header(app: seq<byte>): (h: seq<byte>)
    ensures |h| == HEADER_SIZE
  {
    WordBytes(BOOT_MAGIC) + WordBytes(WordOf(|app|)) + WordBytes(Crc(app))
  }

  /** The header and the application; packing fails when the size does not fit a word. */
  function MakeImage(app: seq<byte>): Option<seq<byte>> {
    if |app| >= TWO_32 then None
    else Some(Header(app) + app)
  }

  /** The flash holds the image from address 0 on. */
  predicate Holds(memory: seq<byte>, image: seq<byte>) {
    |image| <= |memory| == MEMORY_SIZE && memory[..|image|] == image
  }

  lemma WordAt(memory: seq<byte>, s: seq<byte>, i: nat, w: word)
    requires Holds(memory, s) && i + 4 <= |s| && s[i..i + 4] == WordBytes(w)
    ensures FlashWord(memory, i) == w
  {
    hide WordBytes, Le32;
    StoreLoad(w);
    WordBytesAt(w);
    var b := WordBytes(w);
    assert memory[i] == s[i] && memory[i + 1] == s[i + 1] && memory[i + 2] == s[i + 2] && memory[i + 3] == s[i + 3];
    assert s[i] == s[i..i + 4][0] && s[i + 1] == s[i..i + 4][1] && s[i + 2] == s[i..i + 4][2] && s[i + 3] == s[i..i + 4][3];
  }

  lemma WordBytesAt(w: word)
    ensures WordBytes(w) == [ByteAt(w, 0), ByteAt(w, 1), ByteAt(w, 2), ByteAt(w, 3)]
  {
  }

  /** The header words read back as what was packed, whatever payload follows. */
  lemma HeaderReadsBack(memory: seq<byte>, app: seq<byte>, payload: seq<byte>)
    requires |app| < TWO_32 && Holds(memory, Header(app) + payload)
    ensures FlashWord(memory, 0) == BOOT_MAGIC
    ensures NatOf(FlashWord(memory, 4)) == |app|
    ensures FlashWord(memory, 8) == Crc(app)
    ensures memory[HEADER_SIZE..HEADER_SIZE + |payload|] == payload
  {
    hide WordBytes, WordOf, NatOf, Crc, FlashWord;
    var image := Header(app) + payload;
    assert image[0..4] == WordBytes(BOOT_MAGIC) && image[4..8] == WordBytes(WordOf(|app|));
    assert image[8..12] == WordBytes(Crc(app)) && image[12..12 + |payload|] == payload;
    WordAt(memory, image, 0, BOOT_MAGIC);
    WordAt(memory, image, 4, WordOf(|app|));
    WordAt(memory, image, 8, Crc(app));
    NatWordNat(|app|);
    assert memory[12..12 + |payload|] == memory[..|image|][12..12 + |payload|];
  }

  /** The image byte by byte: little-endian 0xB007C0DE, the size, the CRC, and the application; there is one exactly if the
      size fits a word. */
  lemma ImageLayout(app: seq<byte>)
    ensures MakeImage(app) == None <==> |app| >= 0x1_0000_0000
    ensures MakeImage(app).Some? ==>
              var image := MakeImage(app).value;
              && |image| == 12 + |app|
              && image[..4] == [0xde, 0xc0, 0x07, 0xb0]
              && NatOf(ReadWord(image, 4)) == |app| && ReadWord(image, 8) == Crc(app)
              && image[12..] == app
  {
    MagicBytes();
    hide WordBytes, WordOf, NatOf, Crc, Le32;
    if |app| < TWO_32 {
      var image, h := Header(app) + app, Header(app);
      var size, crc := WordBytes(WordOf(|app|)), WordBytes(Crc(app));
      assert image[..4] == WordBytes(BOOT_MAGIC);
      assert h == WordBytes(BOOT_MAGIC) + size + crc;
      assert image[4] == size[0] && image[5] == size[1] && image[6] == size[2] && image[7] == size[3];
      assert image[8] == crc[0] && image[9] == crc[1] && image[10] == crc[2] && image[11] == crc[3];
      StoreLoad(WordOf(|app|));
      StoreLoad(Crc(app));
      NatWordNat(|app|);
    }
  }

  lemma MagicBytes()
    ensures WordBytes(BOOT_MAGIC) == [0xde, 0xc0, 0x07, 0xb0]
  {
  }

  // ---------- What a bootloader does with any flash content ----------

  /** The bytes of a payload that whole words cover. */
  function WholeWords(size: nat): (n: nat)
    ensures n <= size < n + 4 && n % 4 == 0
  {
    size / 4 * 4
  }

  /** RAM after k words have been copied. */
  function CopiedWords(memory: seq<byte>, sram: seq<byte>, k: nat): (r: seq<byte>)
    requires |memory| == MEMORY_SIZE && k * 4 <= MAX_PAYLOAD == |sram|
    ensures |r| == |sram|
  {
    memory[HEADER_SIZE..HEADER_SIZE + k * 4] + sram[k * 4..]
  }

  /** RAM after the copy loop, which moves whole words only. */
  function Copied(memory: seq<byte>, sram: seq<byte>, size: nat): (r: seq<byte>)
    requires |memory| == MEMORY_SIZE && size <= MAX_PAYLOAD == |sram|
    ensures |r| == |sram|
  {
    CopiedWords(memory, sram, WholeWords(size) / 4)
  }

  predicate SizeRejected(size: nat, wholeWords: bool) {
    size == 0 || size > MAX_PAYLOAD || (wholeWords && size % 4 != 0)
  }

  /** The outcome; wholeWords says whether sizes that are not a multiple of 4 are rejected. */
  function BootOutcome(memory: seq<byte>, sram: seq<byte>, wholeWords: bool): Outcome
    requires |memory| == MEMORY_SIZE && |sram| == MAX_PAYLOAD
  {
    var size := NatOf(FlashWord(memory, 4));
    if FlashWord(memory, 0) != BOOT_MAGIC then BadMagic
    else if SizeRejected(size, wholeWords) then BadSize
    else if Crc(Copied(memory, sram, size)[..size]) != FlashWord(memory, 8) then BadCrc
    else Jump
  }

  function SramAfter(memory: seq<byte>, sram: seq<byte>, wholeWords: bool): seq<byte>
    requires |memory| == MEMORY_SIZE && |sram| == MAX_PAYLOAD
  {
    var size := NatOf(FlashWord(memory, 4));
    if FlashWord(memory, 0) != BOOT_MAGIC || SizeRejected(size, wholeWords) then sram
    else Copied(memory, sram, size)
  }

  /** The checking bootloader jumps just when magic, size and CRC of the flash payload all match. */
  lemma CheckedJump(memory: seq<byte>, sram: seq<byte>)
    requires |memory| == MEMORY_SIZE && |sram| == MAX_PAYLOAD
    ensures BootOutcome(memory, sram, true) == Jump <==>
              var size := NatOf(FlashWord(memory, 4));
              && FlashWord(memory, 0) == 0xB007_C0DE
              && 0 < size <= 0x1_0000 && size % 4 == 0
              && Crc(memory[12..12 + size]) == FlashWord(memory, 8)
  {
    hide NatOf, FlashWord, Crc;
    var size := NatOf(FlashWord(memory, 4));
    if 0 < size <= MAX_PAYLOAD && size % 4 == 0 {
      assert Copied(memory, sram, size)[..size] == memory[HEADER_SIZE..HEADER_SIZE + size];
    }
  }

  /** The bytes the CRC is taken over: the payload as far as whole words go, and what was in RAM behind it. */
  lemma LoadedBytes(memory: seq<byte>, sram: seq<byte>, size: nat)
    requires |memory| == MEMORY_SIZE && |sram| == MAX_PAYLOAD && size <= MAX_PAYLOAD
    ensures var n := size / 4 * 4;
            && n <= size <= 0x1_0000 && 12 + n <= |memory|
            && Copied(memory, sram, size) == memory[12..12 + n] + sram[n..]
            && Copied(memory, sram, size)[..size] == memory[12..12 + n] + sram[n..size]
  {
    var n := WholeWords(size);
    assert n / 4 * 4 == n;
    assert (memory[12..12 + n] + sram[n..])[..size] == memory[12..12 + n] + sram[n..size];
  }

  /** bootloader.c jumps just when the magic is right, the size is in range, and the CRC of what is then in RAM matches. */
  lemma UncheckedJump(memory: seq<byte>, sram: seq<byte>)
    requires |memory| == MEMORY_SIZE && |sram| == MAX_PAYLOAD
    ensures BootOutcome(memory, sram, false) == Jump <==>
              var size := NatOf(FlashWord(memory, 4));
              var n := size / 4 * 4;
              && FlashWord(memory, 0) == 0xB007_C0DE
              && 0 < size <= 0x1_0000
              && Crc(memory[12..12 + n] + sram[n..size]) == FlashWord(memory, 8)
  {
    hide NatOf, FlashWord, Crc, Copied;
    var size := NatOf(FlashWord(memory, 4));
    if size <= MAX_PAYLOAD {
      LoadedBytes(memory, sram, size);
    }
  }

  /** Every other outcome of both bootloaders, for any flash and RAM content: a wrong magic or size leaves RAM alone, a wrong
      CRC leaves the loaded payload. */
  lemma RefusedExactly(memory: seq<byte>, sram: seq<byte>, wholeWords: bool)
    requires |memory| == MEMORY_SIZE && |sram| == MAX_PAYLOAD
    ensures var o, after := BootOutcome(memory, sram, wholeWords), SramAfter(memory, sram, wholeWords);
            var size := NatOf(FlashWord(memory, 4));
            var n := size / 4 * 4;
            var sized := 0 < size <= 0x1_0000 && (wholeWords ==> size % 4 == 0);
            && (o == BadMagic <==> FlashWord(memory, 0) != 0xB007_C0DE)
            && (o == BadSize <==> FlashWord(memory, 0) == 0xB007_C0DE && !sized)
            && (o == BadCrc <==> FlashWord(memory, 0) == 0xB007_C0DE && sized
                                 && Crc(memory[12..12 + n] + sram[n..size]) != FlashWord(memory, 8))
            && (o == BadMagic || o == BadSize ==> after == sram)
            && (o == BadCrc || o == Jump ==> size <= 0x1_0000 && after == memory[12..12 + n] + sram[n..])
  {
    hide NatOf, FlashWord, Crc, Copied;
    var size := NatOf(FlashWord(memory, 4));
    if size <= MAX_PAYLOAD {
      LoadedBytes(memory, sram, size);
    }
  }

  /** End to end for the checking bootloader: an image boots just when its size is allowed, and then RAM holds it. */
  lemma CheckedBootsImage(app: seq<byte>, image: seq<byte>, memory: seq<byte>, sram: seq<byte>)
    requires MakeImage(app) == Some(image) && Holds(memory, image) && |sram| == MAX_PAYLOAD
    ensures BootOutcome(memory, sram, true)
         == if 0 < |app| <= MAX_PAYLOAD && |app| % 4 == 0 then Jump else BadSize
    ensures BootOutcome(memory, sram, true) == Jump ==> SramAfter(memory, sram, true) == app + sram[|app|..]
  {
    hide NatOf, FlashWord, Crc, Header;
    HeaderReadsBack(memory, app, app);
    if 0 < |app| <= MAX_PAYLOAD && |app| % 4 == 0 {
      assert Copied(memory, sram, |app|)[..|app|] == app;
    }
  }

  lemma PrefixOfSlice(s: seq<byte>, a: nat, n: nat, m: nat)
    requires n <= m && a + m <= |s|
    ensures s[a..a + n] == s[a..a + m][..n]
  {
  }

  /** End to end for bootloader.c, which copies size / 4 words whatever the size: an image of allowed length boots
      just when the up to three bytes it does not copy are already in RAM. It never jumps into anything else. */
  lemma UncheckedBootsImage(app: seq<byte>, image: seq<byte>, memory: seq<byte>, sram: seq<byte>)
    requires MakeImage(app) == Some(image) && Holds(memory, image) && |sram| == MAX_PAYLOAD
    ensures !(0 < |app| <= MAX_PAYLOAD) ==> BootOutcome(memory, sram, false) == BadSize
    ensures 0 < |app| <= MAX_PAYLOAD ==>
              var n := WholeWords(|app|);
              BootOutcome(memory, sram, false) == if sram[n..|app|] == app[n..] then Jump else BadCrc
    ensures BootOutcome(memory, sram, false) == Jump ==> SramAfter(memory, sram, false)[..|app|] == app
  {
    hide NatOf, FlashWord, Crc, Header;
    HeaderReadsBack(memory, app, app);
    if 0 < |app| <= MAX_PAYLOAD {
      var n := WholeWords(|app|);
      var loaded := Copied(memory, sram, |app|)[..|app|];
      PrefixOfSlice(memory, HEADER_SIZE, n, |app|);
      assert loaded == app[..n] + sram[n..|app|] + [] && app == app[..n] + app[n..] + [];
      if sram[n..|app|] != app[n..] {
        FourBytesDetected(app[..n], sram[n..|app|], app[n..], []);
      }
    }
  }

  /** Images of whole words boot with either bootloader, from any RAM content. */
  lemma WholeWordImageBoots(app: seq<byte>, image: seq<byte>, memory: seq<byte>, sram: seq<byte>, wholeWords: bool)
    requires 0 < |app| <= MAX_PAYLOAD && |app| % 4 == 0
    requires MakeImage(app) == Some(image) && Holds(memory, image) && |sram| == MAX_PAYLOAD
    ensures BootOutcome(memory, sram, wholeWords) == Jump
    ensures SramAfter(memory, sram, wholeWords) == app + sram[|app|..]
  {
    hide NatOf, FlashWord, Crc, Header;
    HeaderReadsBack(memory, app, app);
    assert Copied(memory, sram, |app|)[..|app|] == app;
    assert Copied(memory, sram, |app|) == app + sram[|app|..];
  }

  /** A payload damaged only within 32 consecutive bits is refused by both bootloaders. */
  lemma DamagedPayloadRefused(app: seq<byte>, damaged: seq<byte>, memory: seq<byte>, sram: seq<byte>, from: nat, wholeWords: bool)
    requires 0 < |app| <= MAX_PAYLOAD && |app| % 4 == 0 && |sram| == MAX_PAYLOAD
    requires Holds(memory, Header(app) + damaged)
    requires DifferWithin(app, damaged, from, 32) && app != damaged
    ensures BootOutcome(memory, sram, wholeWords) == BadCrc
  {
    hide NatOf, FlashWord, Crc, Header, DifferWithin, BootOutcome, SramAfter;
    SameLength(app, damaged, from);
    HeaderReadsBack(memory, app, damaged);
    RefusedExactly(memory, sram, wholeWords);
    BurstDetected(app, damaged, from);
    WholeSize(|app|);
    assert memory[12..12 + |app|] + sram[|app|..|app|] == damaged;
  }

  lemma SameLength(s: seq<byte>, t: seq<byte>, from: nat)
    requires DifferWithin(s, t, from, 32)
    ensures |s| == |t|
  {
  }

  lemma WholeSize(size: nat)
    requires size % 4 == 0
    ensures size / 4 * 4 == size
  {
  }

  // ---------- The bootloaders ----------

  /** Stores one word in RAM. */
  method StoreWord(sram: array<byte>, i: nat, w: word)
    requires i + 4 <= sram.Length
    modifies sram
    ensures sram[..] == old(sram[..i]) + WordBytes(w) + old(sram[i + 4..])
  {
    hide ByteAt;
    var b := WordBytes(w);
    sram[i], sram[i + 1], sram[i + 2], sram[i + 3] := b[0], b[1], b[2], b[3];
    assert b == [b[0], b[1], b[2], b[3]];
  }

  lemma FlashWordBytes(memory: seq<byte>, a: nat)
    requires |memory| == MEMORY_SIZE && a + 4 <= MEMORY_SIZE
    ensures WordBytes(FlashWord(memory, a)) == memory[a..a + 4]
  {
    LoadStore(memory[a], memory[a + 1], memory[a + 2], memory[a + 3]);
  }

  lemma NextWordCopied(memory: seq<byte>, sram: seq<byte>, k: nat)
    requires |memory| == MEMORY_SIZE && |sram| == MAX_PAYLOAD && k * 4 + 4 <= MAX_PAYLOAD
    ensures var before := CopiedWords(memory, sram, k);
            CopiedWords(memory, sram, k + 1)
            == before[..k * 4] + WordBytes(FlashWord(memory, HEADER_SIZE + k * 4)) + before[k * 4 + 4..]
  {
    hide FlashWord, WordBytes;
    FlashWordBytes(memory, HEADER_SIZE + k * 4);
  }

  lemma NothingCopied(memory: seq<byte>, sram: seq<byte>)
    requires |memory| == MEMORY_SIZE && |sram| == MAX_PAYLOAD
    ensures CopiedWords(memory, sram, 0) == sram
  {
  }

  /** The copy loop of both bootloaders, each with its own read. */
  method CopyPayload(host: Host, sram: array<byte>, size: nat, simulator: bool)
    requires host.Valid() && Enabled(host.control) && host.pending == None && Idle(host.bus)
    requires sram.Length == MAX_PAYLOAD && size <= MAX_PAYLOAD
    modifies host, sram
    ensures host.Valid() && host.control == old(host.control) && host.pending == None && Idle(host.bus)
    ensures sram[..] == Copied(host.memory, old(sram[..]), size)
  {
    hide FlashWord, WordOf, NatOf, WordBytes, Idle, Enabled, CopiedWords;
    assert sram[..] == CopiedWords(host.memory, sram[..], 0) by { NothingCopied(host.memory, sram[..]); }
    var i := 0;
    while i < size / 4
      invariant i <= size / 4
      invariant host.Valid() && host.control == old(host.control) && host.pending == None && Idle(host.bus)
      invariant sram[..] == CopiedWords(host.memory, old(sram[..]), i)
    {
      NatWordNat(HEADER_SIZE + i * 4);
      NextWordCopied(host.memory, old(sram[..]), i);
      ghost var before := sram[..];
      var w;
      if simulator {
        w := host.SimulatorReadWord(WordOf(HEADER_SIZE + i * 4));
      } else {
        w := host.FlashReadWord(WordOf(HEADER_SIZE + i * 4));
      }
      assert sram[..i * 4] == before[..i * 4] && sram[i * 4 + 4..] == before[i * 4 + 4..];
      StoreWord(sram, i * 4, w);
      i := i + 1;
    }
  }

  /** The flash has just been powered: no dummy cycles outstanding, not in execute-in-place mode. */
  predicate ColdFlash(f: Flash) {
    f.dummyCount == 0 && f.xip == 0
  }

  lemma SmallAddresses()
    ensures NatOf(0) == 0 && NatOf(4) == 4 && NatOf(8) == 8
  {
    SmallNumbers();
    hide ByteAt, Val;
    NatOfLe32(0, 0, 0, 0);
    SmallVals();
    assert Le32(0, 0, 0, 0) == 0;
  }

  /** bootloader.c. */
  method BootLoader(host: Host, table: LazyTable, sram: array<byte>) returns (outcome: Outcome)
    requires host.Valid() && ColdFlash(host.bus.flash) && table.Valid() && sram.Length == MAX_PAYLOAD
    modifies host, sram, table, table.table
    ensures outcome == BootOutcome(host.memory, old(sram[..]), false)
    ensures sram[..] == SramAfter(host.memory, old(sram[..]), false)
    ensures host.Valid() && host.pending == None && Idle(host.bus)
    ensures outcome == Jump <==> !Enabled(host.control)
    ensures outcome == Jump ==> host.control == 0
  {
    SmallAddresses();
    DisabledWord();
    hide FlashWord, NatOf, Crc, Enabled;
    host.SpiInit();
    host.FlashPowerUp();
    var magic := host.FlashReadWord(0);
    var size := host.FlashReadWord(4);
    var storedCrc := host.FlashReadWord(8);
    if magic != BOOT_MAGIC {
      return BadMagic;
    }
    var n := NatOf(size);
    if n == 0 || n > MAX_PAYLOAD {
      return BadSize;
    }
    CopyPayload(host, sram, n, false);
    ghost var loaded := sram[..];
    var computedCrc := table.Compute(sram[..n]);
    assert sram[..n] == loaded[..n];
    if computedCrc != storedCrc {
      return BadCrc;
    }
    host.WriteControl(0);
    return Jump;
  }

  /** simulate_flash.c, with a table that holds eight shift steps per entry. */
  method SimulateFlash(host: Host, table: seq<word>, sram: array<byte>) returns (outcome: Outcome)
    requires host.Valid() && ColdFlash(host.bus.flash) && TableReady(table) && sram.Length == MAX_PAYLOAD
    modifies host, sram
    ensures outcome == BootOutcome(host.memory, old(sram[..]), true)
    ensures sram[..] == SramAfter(host.memory, old(sram[..]), true)
    ensures host.Valid() && host.pending == None && Idle(host.bus)
    ensures outcome == Jump <==> !Enabled(host.control)
    ensures outcome == Jump ==> host.control == 0
  {
    SmallAddresses();
    DisabledWord();
    hide FlashWord, NatOf, Crc, Enabled, TableReady;
    host.SpiInit();
    host.SimulatorPowerUp();
    var magic := host.SimulatorReadWord(0);
    if magic != BOOT_MAGIC {
      return BadMagic;
    }
    var size := host.SimulatorReadWord(4);
    var n := NatOf(size);
    if n == 0 || n > MAX_PAYLOAD || n % 4 != 0 {
      return BadSize;
    }
    var storedCrc := host.SimulatorReadWord(8);
    CopyPayload(host, sram, n, true);
    var computedCrc := ComputeFrom(sram[..n], table);
    if computedCrc != storedCrc {
      return BadCrc;
    }
    host.WriteControl(0);
    return Jump;
  }

  lemma DisabledWord()
    ensures !Enabled(0) && (0 as word) & SW_RST == 0
  {
  }
}

/** The three CRC-32 implementations in the repository, each proved to compute Crc32.Crc:
    the bit-by-bit library form with its aligned word loop, its crc32.b / crc32.w instruction form,
    and the bootloader's lazily built table. */
module Crc32Impl {
  import opened Bytes
  import opened Crc32
  import opened Crc32Bits
  import opened Crc32Poly

  const RESIDUE: word := 0xDEBB_20E3

  lemma ConsOddHalf(c: word)
    ensures Cons(Odd(c), Half(c)) == c
  {
  }

  lemma {:induction false} PackRegister(c: word, n: nat)
    requires n <= 32 && Halves(c, n) == 0
    ensures Pack(RegisterBits(c, n)) == c
    decreases n
  {
    hide Odd, Half, Cons;
    if n > 0 {
      PackRegister(Half(c), n - 1);
      ConsOddHalf(c);
    }
  }

  /** Four byte steps are one xor with the whole word and 32 shift steps. */
  lemma WordStep(c: word, w: word)
    ensures AddBytes(c, WordBytes(w)) == Shifts(Xor(c, w), 32)
  {
    hide Odd, Half, Xor, Bits, Pack, RegisterBits, WordBytes, AddBytes, AddBits, Shifts, Halves;
    BytesAsBits(c, WordBytes(w));
    RegisterAsBytes(w);
    Halves32(w);
    PackRegister(w, 32);
    AddBitsPacked(c, Bits(WordBytes(w)));
  }

  lemma FourSteps(c: word, n: nat)
    requires 4 <= n
    ensures Shifts(c, n) == Shifts(Shift(Shift(Shift(Shift(c)))), n - 4)
  {
    hide Shift;
    var c2 := Shift(Shift(c));
    assert Shifts(c, n) == Shifts(Shift(c), n - 1) == Shifts(c2, n - 2);
    assert Shifts(c2, n - 2) == Shifts(Shift(c2), n - 3) == Shifts(Shift(Shift(c2)), n - 4);
  }

  lemma ResidueSteps()
    ensures Shift(Shift(Shift(Shift(0xFFFF_FFFF)))) == 0xB242_0DE3
    ensures Shift(Shift(Shift(Shift(0xB242_0DE3)))) == 0x2DFD_1072
    ensures Shift(Shift(Shift(Shift(0x2DFD_1072)))) == 0x39B1_F1CF
    ensures Shift(Shift(Shift(Shift(0x39B1_F1CF)))) == 0xBE26_ED00
    ensures Shift(Shift(Shift(Shift(0xBE26_ED00)))) == 0x0BE2_6ED0
    ensures Shift(Shift(Shift(Shift(0x0BE2_6ED0)))) == 0x00BE_26ED
    ensures Shift(Shift(Shift(Shift(0x00BE_26ED)))) == 0x86D8_30BA
    ensures Shift(Shift(Shift(Shift(0x86D8_30BA)))) == 0xDEBB_20E3
  {
  }

  lemma ResidueValue()
    ensures Shifts(INIT, 32) == RESIDUE
  {
    ResidueSteps();
    hide Shift, Shifts;
    FourSteps(0xFFFF_FFFF, 32);
    FourSteps(0xB242_0DE3, 28);
    FourSteps(0x2DFD_1072, 24);
    FourSteps(0x39B1_F1CF, 20);
    FourSteps(0xBE26_ED00, 16);
    FourSteps(0x0BE2_6ED0, 12);
    FourSteps(0x00BE_26ED, 8);
    FourSteps(0x86D8_30BA, 4);
    NoSteps(RESIDUE);
  }

  lemma NoSteps(c: word)
    ensures Shifts(c, 0) == c
  {
  }

  /** A message followed by its own check sequence leaves a fixed register, whatever the message. */
  lemma FixedResidue(s: seq<byte>)
    ensures Crc(s + WordBytes(Crc(s))) == Xor(RESIDUE, INIT)
  {
    hide Xor, AddBytes, WordBytes, Shifts;
    var c := AddBytes(INIT, s);
    AddBytesConcat(INIT, s, WordBytes(Crc(s)));
    WordStep(c, Xor(c, INIT));
    XorCommutes(c, Xor(c, INIT));
    XorSwaps(c, INIT, c);
    XorSelf(c);
    XorCommutes(0, INIT);
    XorSelf(INIT);
    ResidueValue();
  }

  lemma AddBytesSnoc(c: word, s: seq<byte>, i: nat)
    requires i < |s|
    ensures AddBytes(c, s[..i + 1]) == Add8(AddBytes(c, s[..i]), s[i])
  {
    hide Add8;
    assert s[..i + 1] == s[..i] + [s[i]];
    AddBytesConcat(c, s[..i], [s[i]]);
    assert [s[i]][1..] == [];
  }

  lemma AddBytesWord(c: word, s: seq<byte>, i: nat)
    requires i + 4 <= |s|
    ensures AddBytes(c, s[..i + 4]) == AddBytes(AddBytes(c, s[..i]), WordBytes(ReadWord(s, i)))
  {
    hide AddBytes, WordBytes, ReadWord;
    ReadWordBytes(s, i);
    assert s[..i + 4] == s[..i] + s[i..i + 4];
    AddBytesConcat(c, s[..i], s[i..i + 4]);
  }

  lemma ShiftsStep(c: word, n: nat)
    requires n > 0
    ensures Shifts(c, n) == Shifts(if Odd(c) then Xor(Half(c), POLY) else Half(c), n - 1)
  {
    hide Odd, Xor, Half;
  }

  /** The context of crc32.c: a register updated through a pointer. */
  class Context {
    var value: word

    constructor ()
      ensures value == INIT
    {
      value := INIT;
    }

    method Init()
      modifies this
      ensures value == INIT
    {
      value := INIT;
    }

    /** The portable byte step: xor the byte in, then eight conditional shifts. */
    method Add8(b: byte)
      modifies this
      ensures value == Crc32.Add8(old(value), b)
    {
      value := Xor(value, b as word);
      var i := 0;
      while i < 8
        invariant i <= 8
        invariant Shifts(value, 8 - i) == Crc32.Add8(old(value), b)
      {
        ShiftsStep(value, 8 - i);
        var lsb := Odd(value);
        value := Half(value);
        if lsb {
          value := Xor(value, POLY);
        }
        i := i + 1;
      }
    }

    /** The portable word step: the word's bytes in memory order. */
    method Add32(w: word)
      modifies this
      ensures value == AddBytes(old(value), WordBytes(w))
    {
      var bytes := WordBytes(w);
      var i := 0;
      while i < 4
        invariant i <= 4
        invariant value == AddBytes(old(value), bytes[..i])
      {
        AddBytesSnoc(old(value), bytes, i);
        Add8(bytes[i]);
        i := i + 1;
      }
      assert bytes[..4] == bytes;
    }

    /** The word step as one crc32.w instruction: xor, then 32 shift steps. */
    method Add32Instruction(w: word)
      modifies this
      ensures value == AddBytes(old(value), WordBytes(w))
    {
      WordStep(value, w);
      value := Shifts(Xor(value, w), 32);
    }

    /** Feeds a buffer that starts at address addr: bytes up to the first aligned address, then whole words,
        then the rest. How the buffer is aligned does not show in the result. */
    method Add(buf: seq<byte>, addr: nat)
      modifies this
      ensures value == AddBytes(old(value), buf)
    {
      var i := 0;
      while i < |buf| && (addr + i) % 4 != 0
        invariant i <= |buf|
        invariant value == AddBytes(old(value), buf[..i])
      {
        AddBytesSnoc(old(value), buf, i);
        Add8(buf[i]);
        i := i + 1;
      }
      while |buf| - i >= 4
        invariant i <= |buf|
        invariant i < |buf| ==> (addr + i) % 4 == 0
        invariant value == AddBytes(old(value), buf[..i])
      {
        AddBytesWord(old(value), buf, i);
        Add32(ReadWord(buf, i));
        i := i + 4;
      }
      while i < |buf|
        invariant i <= |buf|
        invariant value == AddBytes(old(value), buf[..i])
      {
        AddBytesSnoc(old(value), buf, i);
        Add8(buf[i]);
        i := i + 1;
      }
      assert buf[..i] == buf;
    }

    /** The register turns into the CRC of whatever has been fed since Init. */
    method Finish() returns (r: word)
      ensures forall fed :: value == AddBytes(INIT, fed) ==> r == Crc(fed)
    {
      r := Xor(value, 0xFFFF_FFFF);
    }
  }

  /** crc32.c's one-shot entry point. */
  method Crc32OneShot(buf: seq<byte>, addr: nat) returns (r: word)
    ensures r == Crc(buf)
  {
    var ctx := new Context();
    ctx.Add(buf, addr);
    r := ctx.Finish();
  }

  function Entry(b: byte): word { Shifts(b as word, 8) }

  /** The first n entries of a table: entry b is eight shift steps on b. */
  ghost predicate FilledTo(table: seq<word>, n: nat) {
    n <= |table| == 256 && forall b: byte :: Val(b) < n ==> table[Val(b)] == Entry(b)
  }

  ghost predicate TableReady(table: seq<word>) {
    FilledTo(table, 256)
  }

  lemma NothingFilled(table: seq<word>)
    requires |table| == 256
    ensures FilledTo(table, 0)
  {
  }

  lemma FillNext(table: seq<word>, n: nat)
    requires n < 256 && FilledTo(table, n)
    ensures FilledTo(table[n := Entry(ByteOf(n))], n + 1)
  {
    var t := table[n := Entry(ByteOf(n))];
    hide Entry, Val, ByteOf;
    forall b: byte | Val(b) < n + 1
      ensures t[Val(b)] == Entry(b)
    {
      ByteOfVal(b);
    }
  }

  lemma IndexByte(x: word)
    ensures ByteAt(x, 0) as word == Low8(x)
  {
  }

  /** The table lookup of both bootloaders, from a ready table. */
  method ComputeFrom(data: seq<byte>, table: seq<word>) returns (r: word)
    requires TableReady(table)
    ensures r == Crc(data)
  {
    var crc: word := 0xFFFF_FFFF;
    var i := 0;
    while i < |data|
      invariant i <= |data|
      invariant crc == AddBytes(INIT, data[..i])
    {
      var x := Xor(crc, data[i] as word);
      var index := ByteAt(x, 0);
      ghost var before := crc;
      ByteOrder(index, index);
      crc := Xor(Down8(crc), table[Val(index)]);
      assert crc == Crc32.Add8(before, data[i]) by {
        hide Xor, Low8, Down8, Shifts, Crc32.Add8, ByteAt, Val;
        IndexByte(x);
        TableStep(before, data[i]);
      }
      AddBytesSnoc(INIT, data, i);
      i := i + 1;
    }
    assert data[..i] == data;
    r := Xor(crc, 0xFFFF_FFFF);
  }

  /** bootloader.c's CRC state: a table filled on first use. */
  class LazyTable {
    const table: array<word>
    var ready: bool

    ghost predicate Valid()
      reads this, table
    {
      table.Length == 256 && (ready ==> TableReady(table[..]))
    }

    constructor ()
      ensures Valid() && !ready && fresh(table)
    {
      table := new word[256];
      ready := false;
    }

    method InitTable()
      requires Valid()
      modifies this, table
      ensures Valid() && ready
    {
      hide Odd, Half, Xor, Shifts, Val, ByteOf, FilledTo;
      var i := 0;
      NothingFilled(table[..]);
      while i < 256
        invariant i <= 256
        invariant FilledTo(table[..], i)
      {
        var start := ByteOf(i) as word;
        var crc := start;
        ghost var filled := table[..];
        var bit := 0;
        while bit < 8
          invariant bit <= 8
          invariant Shifts(crc, 8 - bit) == Shifts(start, 8)
          invariant table[..] == filled
        {
          ShiftsStep(crc, 8 - bit);
          if Odd(crc) {
            crc := Xor(Half(crc), POLY);
          } else {
            crc := Half(crc);
          }
          bit := bit + 1;
        }
        NoSteps(crc);
        FillNext(table[..], i);
        ghost var next := table[..][i := crc];
        table[i] := crc;
        assert table[..] == next;
        i := i + 1;
      }
      ready := true;
    }

    method Compute(data: seq<byte>) returns (r: word)
      requires Valid()
      modifies this, table
      ensures Valid() && ready
      ensures r == Crc(data)
    {
      if !ready {
        InitTable();
      }
      r := ComputeFrom(data, table[..]);
    }
  }
}

/** The definition in section 3.2.9 of IEEE 802.3: the check sequence is the complement of the remainder of
    polynomial division over GF(2). The shift register computes exactly that remainder. */
module Crc32Poly {
  import opened Bytes
  import opened Crc32
  import opened Crc32Bits

  // A polynomial is the sequence of its coefficients, highest power first.
  type Poly = seq<bool>

  /** The powers of x in the generator polynomial of section 3.2.9. */
  predicate InGenerator(power: int) {
    || power == 32 || power == 26 || power == 23 || power == 22 || power == 16 || power == 12 || power == 11
    || power == 10 || power == 8 || power == 7 || power == 5 || power == 4 || power == 2 || power == 1 || power == 0
  }

  function Generator(): (g: Poly)
    ensures |g| == 33
  {
    seq(33, k => InGenerator(32 - k))
  }

  function Zeros(n: nat): (p: Poly)
    ensures |p| == n
  {
    seq(n, _ => false)
  }

  function Ones(n: nat): (p: Poly)
    ensures |p| == n
  {
    seq(n, _ => true)
  }

  function Plus(p: Poly, q: Poly): (r: Poly)
    requires |p| == |q|
    ensures |r| == |p|
  {
    seq(|p|, i requires 0 <= i < |p| => p[i] != q[i])
  }

  function Scaled(b: bool, p: Poly): (r: Poly)
    ensures |r| == |p|
  {
    seq(|p|, i requires 0 <= i < |p| => b && p[i])
  }

  /** The product of a polynomial and the generator. */
  function TimesGenerator(q: Poly): (r: Poly)
    ensures |r| == |q| + 32
  {
    if q == [] then Zeros(32)
    else Plus(Scaled(q[0], Generator()) + Zeros(|q| - 1), [false] + TimesGenerator(q[1..]))
  }

  /** r is a remainder of d divided by the generator. */
  ghost predicate IsRemainder(d: Poly, r: Poly) {
    && |r| == 32 <= |d|
    && exists q: Poly :: |q| == |d| - 32 && d == Plus(TimesGenerator(q), Zeros(|q|) + r)
  }

  /** A message times x^32, plus a 32-bit register pattern aligned with the message's first bit. Adding all ones
      there complements the message's first 32 bits, as section 3.2.9 asks. */
  function Dividend(initial: Poly, message: Poly): (d: Poly)
    requires |initial| == 32
    ensures |d| == |message| + 32
  {
    Plus(message + Zeros(32), initial + Zeros(|message|))
  }

  /** The first n coefficients held in a register: its lowest bit is the highest power. */
  function RegisterBits(c: word, n: nat): (p: Poly)
    ensures |p| == n
    decreases n
  {
    if n == 0 then [] else [Odd(c)] + RegisterBits(Half(c), n - 1)
  }

  function Halves(c: word, n: nat): word
    decreases n
  {
    if n == 0 then c else Halves(Half(c), n - 1)
  }

  lemma {:induction false} HalvesAdd(c: word, m: nat, n: nat)
    ensures Halves(Halves(c, m), n) == Halves(c, m + n)
    decreases m
  {
    hide Half;
    if m > 0 {
      HalvesAdd(Half(c), m - 1, n);
    }
  }

  lemma TwoShifts(c: word)
    ensures (c >> 1) >> 1 == c >> 2 && (c >> 2) >> 2 == c >> 4 && (c >> 4) >> 4 == c >> 8
  {
  }

  lemma TwoHalves(c: word)
    ensures Half(Half(c)) == c >> 2
  {
    TwoShifts(c);
  }

  lemma FourHalves(c: word)
    ensures Half(Half(Half(Half(c)))) == c >> 4
  {
    hide Half;
    TwoHalves(c);
    TwoHalves(c >> 2);
    TwoShifts(c);
  }

  lemma EightHalvesDown(c: word)
    ensures Half(Half(Half(Half(Half(Half(Half(Half(c)))))))) == Down8(c)
  {
    hide Half;
    FourHalves(c);
    FourHalves(c >> 4);
    TwoShifts(c);
  }

  lemma HalvesEight(c: word)
    ensures Halves(c, 8) == Down8(c)
  {
    EightHalvesDown(c);
    hide Half, Down8;
    var c4 := Half(Half(Half(Half(c))));
    assert Halves(c, 8) == Halves(Half(c), 7) == Halves(Half(Half(c)), 6) == Halves(c4, 4);
    assert Halves(c4, 4) == Halves(Half(c4), 3) == Halves(Half(Half(c4)), 2);
  }

  lemma FourDowns(c: word)
    ensures Down8(Down8(Down8(Down8(c)))) == 0
  {
  }

  lemma Halves32(c: word)
    ensures Halves(c, 32) == 0
  {
    hide Half, Halves, Down8;
    HalvesEight(c);
    HalvesEight(Down8(c));
    HalvesEight(Down8(Down8(c)));
    HalvesEight(Down8(Down8(Down8(c))));
    HalvesAdd(c, 8, 8);
    HalvesAdd(c, 16, 8);
    HalvesAdd(c, 24, 8);
    FourDowns(c);
  }

  lemma {:induction false} RegisterBitAt(c: word, n: nat, k: nat)
    requires k < n
    ensures RegisterBits(c, n)[k] <==> Odd(Halves(c, k))
    decreases k
  {
    hide Half, Odd;
    if k > 0 {
      RegisterBitAt(Half(c), n - 1, k - 1);
    }
  }

  lemma {:induction false} HalvesXor(a: word, b: word, n: nat)
    ensures Halves(Xor(a, b), n) == Xor(Halves(a, n), Halves(b, n))
    decreases n
  {
    hide Xor, Half;
    if n > 0 {
      HalfXor(a, b);
      HalvesXor(Half(a), Half(b), n - 1);
    }
  }

  lemma FeedBit(c: word, x: bool)
    ensures Half(Xor(c, BitWord(x))) == Half(c)
    ensures Odd(Xor(c, BitWord(x))) <==> Odd(c) != x
  {
  }

  lemma OddZero()
    ensures !Odd(0)
  {
  }

  // Coefficient k + 1 of a register, with nothing below its 32 bits.
  predicate Below(c: word, k: nat) { k < 31 && RegisterBits(c, 32)[k + 1] }

  lemma BelowIsHalf(c: word, k: nat)
    requires k < 32
    ensures Below(c, k) <==> Odd(Halves(Half(c), k))
  {
    hide Half, Odd;
    if k < 31 {
      RegisterBitAt(c, 32, k + 1);
    } else {
      assert Halves(Half(c), 31) == Halves(c, 32);
      Halves32(c);
      OddZero();
    }
  }

  /** One step of the register, coefficient by coefficient: bring down the next one and subtract the generator
      when the leading coefficient is one. */
  lemma StepCoefficient(c: word, x: bool, k: nat)
    requires k < 32
    ensures RegisterBits(Step(c, x), 32)[k] == (Below(c, k) != ((Odd(c) != x) && RegisterBits(POLY, 32)[k]))
  {
    hide Xor, Half, Odd, BitWord, Below, RegisterBits, Halves;
    FeedBit(c, x);
    RegisterBitAt(Step(c, x), 32, k);
    RegisterBitAt(POLY, 32, k);
    BelowIsHalf(c, k);
    if Odd(c) != x {
      HalvesXor(Half(c), POLY, k);
      OddXor(Halves(Half(c), k), Halves(POLY, k));
    }
  }

  // ---------- A register's coefficients are the bits of its bytes ----------

  lemma LowByteBits(c: word)
    ensures [Odd(c), Odd(Half(c)), Odd(Half(Half(c))), Odd(Half(Half(Half(c)))), Odd(Half(Half(Half(Half(c))))),
             Odd(Half(Half(Half(Half(Half(c)))))), Odd(Half(Half(Half(Half(Half(Half(c))))))),
             Odd(Half(Half(Half(Half(Half(Half(Half(c))))))))] == ByteBits(ByteAt(c, 0))
  {
  }

  lemma RegisterTwo(c: word, n: nat)
    requires 2 <= n
    ensures RegisterBits(c, n) == [Odd(c), Odd(Half(c))] + RegisterBits(Half(Half(c)), n - 2)
  {
    hide Half, Odd;
    assert RegisterBits(Half(c), n - 1) == [Odd(Half(c))] + RegisterBits(Half(Half(c)), n - 2);
  }

  lemma RegisterByte(c: word, n: nat)
    requires 8 <= n
    ensures RegisterBits(c, n) == ByteBits(ByteAt(c, 0)) + RegisterBits(Down8(c), n - 8)
  {
    LowByteBits(c);
    EightHalvesDown(c);
    hide Half, Odd, ByteBits, ByteAt, Down8, RegisterBits;
    var c2 := Half(Half(c));
    var c4 := Half(Half(c2));
    var c6 := Half(Half(c4));
    RegisterTwo(c, n);
    RegisterTwo(c2, n - 2);
    RegisterTwo(c4, n - 4);
    RegisterTwo(c6, n - 6);
    EightInTwos(Odd(c), Odd(Half(c)), Odd(c2), Odd(Half(c2)), Odd(c4), Odd(Half(c4)), Odd(c6), Odd(Half(c6)),
                RegisterBits(Down8(c), n - 8));
  }

  lemma EightInTwos(a: bool, b: bool, c: bool, d: bool, e: bool, f: bool, g: bool, h: bool, r: Poly)
    ensures [a, b] + ([c, d] + ([e, f] + ([g, h] + r))) == [a, b, c, d, e, f, g, h] + r
  {
  }

  lemma DownByteAt(c: word)
    ensures ByteAt(Down8(c), 0) == ByteAt(c, 1)
    ensures ByteAt(Down8(Down8(c)), 0) == ByteAt(c, 2)
    ensures ByteAt(Down8(Down8(Down8(c))), 0) == ByteAt(c, 3)
  {
  }

  lemma BitsOfFour(b0: byte, b1: byte, b2: byte, b3: byte)
    ensures Bits([b0, b1, b2, b3]) == ByteBits(b0) + (ByteBits(b1) + (ByteBits(b2) + ByteBits(b3)))
  {
    hide ByteBits;
    var s := [b0, b1, b2, b3];
    assert s[1..] == [b1, b2, b3] && s[2..] == [b2, b3] && s[3..] == [b3];
    assert s[1..][1..] == s[2..] && s[2..][1..] == s[3..];
    assert Bits(s[3..]) == ByteBits(b3);
    assert Bits(s[2..]) == ByteBits(b2) + ByteBits(b3);
    assert Bits(s[1..]) == ByteBits(b1) + (ByteBits(b2) + ByteBits(b3));
  }

  lemma RegisterAsBytes(c: word)
    ensures RegisterBits(c, 32) == Bits(WordBytes(c))
  {
    hide Half, Odd, ByteBits, ByteAt, Down8, RegisterBits, Bits;
    var c1 := Down8(c);
    var c2 := Down8(c1);
    var c3 := Down8(c2);
    DownByteAt(c);
    RegisterByte(c, 32);
    RegisterByte(c1, 24);
    RegisterByte(c2, 16);
    RegisterByte(c3, 8);
    assert RegisterBits(Down8(c3), 0) == [];
    assert RegisterBits(c3, 8) == ByteBits(ByteAt(c, 3));
    BitsOfFour(ByteAt(c, 0), ByteAt(c, 1), ByteAt(c, 2), ByteAt(c, 3));
  }

  /** The generator written as in the standard is the constant in the code. */
  lemma GeneratorIsPoly()
    ensures Generator() == [true] + RegisterBits(POLY, 32)
  {
    var g := Generator();
    GeneratorSlices();
    PolyBytes();
    hide Odd, Half, Generator, ByteBits, Bits, ByteAt, RegisterBits;
    assert g[0] by { GeneratorLeads(); }
    RegisterAsBytes(POLY);
    BitsOfFour(0x20, 0x83, 0xB8, 0xED);
    assert g == [true] + (g[1..9] + (g[9..17] + (g[17..25] + g[25..33])));
  }

  lemma GeneratorSlices()
    ensures var g := Generator();
            && g[1..9] == [false, false, false, false, false, true, false, false]
            && g[9..17] == [true, true, false, false, false, false, false, true]
            && g[17..25] == [false, false, false, true, true, true, false, true]
            && g[25..33] == [true, false, true, true, false, true, true, true]
  {
  }

  lemma GeneratorLeads()
    ensures Generator()[0]
  {
  }

  lemma PolyBytes()
    ensures WordBytes(POLY) == [0x20, 0x83, 0xB8, 0xED]
    ensures ByteBits(0x20) == [false, false, false, false, false, true, false, false]
    ensures ByteBits(0x83) == [true, true, false, false, false, false, false, true]
    ensures ByteBits(0xB8) == [false, false, false, true, true, true, false, true]
    ensures ByteBits(0xED) == [true, false, true, true, false, true, true, true]
  {
  }

  // ---------- The register holds the remainder ----------

  /** The quotient the register steps produce, one coefficient per message bit. */
  function Quotient(c: word, message: Poly): (q: Poly)
    ensures |q| == |message|
    decreases |message|
  {
    if message == [] then []
    else [Odd(c) != message[0]] + Quotient(Step(c, message[0]), message[1..])
  }

  /** One division step on the whole dividend. */
  lemma DividendStep(c: word, message: Poly)
    requires message != []
    ensures Dividend(RegisterBits(c, 32), message)
         == Plus(Scaled(Odd(c) != message[0], Generator()) + Zeros(|message| - 1),
                 [false] + Dividend(RegisterBits(Step(c, message[0]), 32), message[1..]))
  {
    hide Odd, Half, Step, Generator, RegisterBits;
    var x, t := message[0], message[1..];
    var d, e := Dividend(RegisterBits(c, 32), message), Dividend(RegisterBits(Step(c, x), 32), t);
    var s := Scaled(Odd(c) != x, Generator()) + Zeros(|t|);
    assert |d| == |s| == |e| + 1;
    forall k | 0 <= k < |d|
      ensures d[k] == (s[k] != ([false] + e)[k])
    {
      DividendStepAt(c, message, k);
    }
  }

  lemma DividendStepAt(c: word, message: Poly, k: nat)
    requires message != [] && k < |message| + 32
    ensures Dividend(RegisterBits(c, 32), message)[k]
         == ((Scaled(Odd(c) != message[0], Generator()) + Zeros(|message| - 1))[k]
             != ([false] + Dividend(RegisterBits(Step(c, message[0]), 32), message[1..]))[k])
  {
    hide Odd, Half, Step, RegisterBits, Generator, Dividend, Scaled, Zeros, Below;
    var x, t := message[0], message[1..];
    DividendAt(RegisterBits(c, 32), message, k);
    ScaledAt(Odd(c) != x, |t|, k);
    GeneratorAt(k);
    if k == 0 {
      FirstCoefficient(c);
    } else {
      DividendAt(RegisterBits(Step(c, x), 32), t, k - 1);
      if k <= 32 {
        StepCoefficient(c, x, k - 1);
        BelowAt(c, k - 1);
      }
    }
  }

  lemma FirstCoefficient(c: word)
    ensures RegisterBits(c, 32)[0] == Odd(c)
  {
  }

  lemma BelowAt(c: word, k: nat)
    ensures Below(c, k) == (k < 31 && RegisterBits(c, 32)[k + 1])
  {
  }

  lemma GeneratorAt(k: nat)
    ensures k == 0 ==> Generator()[0]
    ensures 0 < k <= 32 ==> Generator()[k] == RegisterBits(POLY, 32)[k - 1]
  {
    GeneratorIsPoly();
  }

  lemma DividendAt(initial: Poly, message: Poly, k: nat)
    requires |initial| == 32 && k < |message| + 32
    ensures Dividend(initial, message)[k] == ((k < |message| && message[k]) != (k < 32 && initial[k]))
  {
  }

  lemma ScaledAt(b: bool, n: nat, k: nat)
    requires k < n + 33
    ensures (Scaled(b, Generator()) + Zeros(n))[k] == (b && k < 33 && Generator()[k])
  {
    hide Generator;
  }

  lemma {:induction false} RegisterHoldsRemainder(c: word, message: Poly)
    ensures Dividend(RegisterBits(c, 32), message)
         == Plus(TimesGenerator(Quotient(c, message)),
                 Zeros(|message|) + RegisterBits(AddBits(c, message), 32))
    decreases |message|
  {
    hide Odd, Half, Step, Generator, RegisterBits;
    if message == [] {
    } else {
      var x, t := message[0], message[1..];
      var q := Quotient(c, message);
      DividendStep(c, message);
      RegisterHoldsRemainder(Step(c, x), t);
      var z := Zeros(|t|) + RegisterBits(AddBits(c, message), 32);
      assert q[1..] == Quotient(Step(c, x), t);
      PlusShuffle(Scaled(q[0], Generator()) + Zeros(|t|), TimesGenerator(q[1..]), z);
      assert [false] + z == Zeros(|message|) + RegisterBits(AddBits(c, message), 32);
    }
  }

  lemma PlusShuffle(s: Poly, p: Poly, z: Poly)
    requires |s| == |p| + 1 == |z| + 1
    ensures Plus(s, [false] + Plus(p, z)) == Plus(Plus(s, [false] + p), [false] + z)
  {
    var a, b := [false] + Plus(p, z), Plus(s, [false] + p);
    assert forall k :: 0 <= k < |s| ==> Plus(s, a)[k] == Plus(b, [false] + z)[k];
  }

  lemma PlusCancels(s: Poly, p1: Poly, z1: Poly, p2: Poly, z2: Poly)
    requires |s| == |p1| + 1 == |z1| + 1 == |p2| + 1 == |z2| + 1
    requires Plus(s, [false] + Plus(p1, z1)) == Plus(s, [false] + Plus(p2, z2))
    ensures Plus(p1, z1) == Plus(p2, z2)
  {
    var a, b := Plus(p1, z1), Plus(p2, z2);
    forall k | 0 <= k < |a|
      ensures a[k] == b[k]
    {
      assert Plus(s, [false] + a)[k + 1] == (s[k + 1] != a[k]);
      assert Plus(s, [false] + b)[k + 1] == (s[k + 1] != b[k]);
    }
  }

  /** Division by the generator leaves one remainder only. */
  lemma {:induction false} RemainderUnique(q1: Poly, r1: Poly, q2: Poly, r2: Poly)
    requires |q1| == |q2| && |r1| == |r2| == 32
    requires Plus(TimesGenerator(q1), Zeros(|q1|) + r1) == Plus(TimesGenerator(q2), Zeros(|q2|) + r2)
    ensures q1 == q2 && r1 == r2
  {
    if q1 == [] {
      RemainderAlone(r1);
      RemainderAlone(r2);
      assert q2 == [] && Zeros(0) + r1 == r1 && Zeros(0) + r2 == r2;
    } else {
      var n := |q1| - 1;
      HeadOfDividend(q1, r1);
      HeadOfDividend(q2, r2);
      hide Plus, TimesGenerator;
      var s := Scaled(q1[0], Generator()) + Zeros(n);
      PlusCancels(s, TimesGenerator(q1[1..]), Zeros(n) + r1, TimesGenerator(q2[1..]), Zeros(n) + r2);
      RemainderUnique(q1[1..], r1, q2[1..], r2);
      assert q1 == [q1[0]] + q1[1..] && q2 == [q2[0]] + q2[1..];
    }
  }

  lemma RemainderAlone(r: Poly)
    requires |r| == 32
    ensures Plus(TimesGenerator([]), Zeros(0) + r) == r
  {
  }

  lemma HeadOfDividend(q: Poly, r: Poly)
    requires q != [] && |r| == 32
    ensures var d := Plus(TimesGenerator(q), Zeros(|q|) + r);
            && d[0] == q[0]
            && d == Plus(Scaled(q[0], Generator()) + Zeros(|q| - 1),
                         [false] + Plus(TimesGenerator(q[1..]), Zeros(|q| - 1) + r))
  {
    hide Generator, TimesGenerator, Plus, Scaled;
    var n := |q| - 1;
    var s, t, z := Scaled(q[0], Generator()) + Zeros(n), TimesGenerator(q[1..]), Zeros(n) + r;
    TimesGeneratorHead(q);
    ZerosShift(n, r);
    hide Zeros;
    PlusShuffle(s, t, z);
    LeadingCoefficient(q[0], n, Plus(t, z));
  }

  lemma ZerosShift(n: nat, r: Poly)
    ensures [false] + (Zeros(n) + r) == Zeros(n + 1) + r
  {
  }

  lemma LeadingCoefficient(b: bool, n: nat, p: Poly)
    requires |p| == n + 32
    ensures Plus(Scaled(b, Generator()) + Zeros(n), [false] + p)[0] == b
  {
    assert Generator()[0];
  }

  lemma TimesGeneratorHead(q: Poly)
    requires q != []
    ensures TimesGenerator(q)
         == Plus(Scaled(q[0], Generator()) + Zeros(|q| - 1), [false] + TimesGenerator(q[1..]))
  {
  }

  /** The check sequence of section 3.2.9: r is the remainder of the dividend of a message, with the message's
      first 32 bits complemented, just when the complement of the message's CRC has the coefficients r. */
  lemma CrcIsRemainder(s: seq<byte>, r: Poly)
    ensures IsRemainder(Dividend(Ones(32), Bits(s)), r) <==> r == Bits(WordBytes(Xor(Crc(s), INIT)))
  {
    hide Odd, Half, Step, Generator, TimesGenerator, ByteBits, Bits, WordBytes, AddBytes, Xor;
    var m := Bits(s);
    var c := AddBytes(INIT, s);
    BytesAsBits(INIT, s);
    XorCancels(c, INIT);
    InitBits();
    RegisterHoldsRemainder(INIT, m);
    RegisterAsBytes(c);
    var q := Quotient(INIT, m);
    var d := Dividend(Ones(32), m);
    var r0 := Bits(WordBytes(c));
    if IsRemainder(d, r) {
      var p: Poly :| |p| == |d| - 32 && d == Plus(TimesGenerator(p), Zeros(|p|) + r);
      RemainderUnique(p, r, q, r0);
    }
    assert IsRemainder(d, r0) by {
      assert |q| == |d| - 32 && d == Plus(TimesGenerator(q), Zeros(|q|) + r0);
    }
  }

  lemma InitBits()
    ensures RegisterBits(INIT, 32) == Ones(32)
  {
    assert WordBytes(INIT) == [0xff, 0xff, 0xff, 0xff];
    assert ByteBits(0xff) == Ones(8);
    hide Odd, Half, ByteAt, ByteBits, Bits, RegisterBits;
    RegisterAsBytes(INIT);
    BitsOfFour(0xff, 0xff, 0xff, 0xff);
  }
}

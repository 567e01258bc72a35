/** The CRC-32 of section 3.2.9 of IEEE 802.3, as a fold of one-bit shift steps.
    Everything here is about the mathematical function; the three implementations in the repository
    (crc32.c, bootloader.c, simulate_flash.c) are proved against it in Crc32Impl. */
module Crc32 {
  import opened Bytes

  const POLY: word := 0xEDB8_8320
  const INIT: word := 0xFFFF_FFFF

  // Register operations under names: the proofs below use only the algebra stated here.
  function Xor(a: word, b: word): word { a ^ b }

  function Half(c: word): word { c >> 1 }

  predicate Odd(c: word) { c & 1 == 1 }

  /** One step of the reflected shift register. */
  function Shift(c: word): word {
    if Odd(c) then Xor(Half(c), POLY) else Half(c)
  }

  function Shifts(c: word, n: nat): word
    decreases n
  {
    if n == 0 then c else Shifts(Shift(c), n - 1)
  }

  /** Feeding one byte: xor it into the low end, then eight shift steps. */
  function Add8(c: word, b: byte): word {
    Shifts(Xor(c, b as word), 8)
  }

  function AddBytes(c: word, s: seq<byte>): word
    decreases |s|
  {
    if s == [] then c else AddBytes(Add8(c, s[0]), s[1..])
  }

  function Crc(s: seq<byte>): word {
    Xor(AddBytes(INIT, s), INIT)
  }

  // ---------- The algebra of xor ----------

  lemma XorCommutes(a: word, b: word)
    ensures Xor(a, b) == Xor(b, a)
  {
  }

  lemma XorAssociates(a: word, b: word, c: word)
    ensures Xor(Xor(a, b), c) == Xor(a, Xor(b, c))
  {
  }

  lemma XorSwaps(a: word, b: word, c: word)
    ensures Xor(Xor(a, b), c) == Xor(Xor(a, c), b)
  {
    hide Xor;
    XorAssociates(a, b, c);
    XorCommutes(b, c);
    XorAssociates(a, c, b);
  }

  lemma XorCancels(a: word, b: word)
    ensures Xor(Xor(a, b), b) == a
  {
  }

  lemma XorSelf(a: word)
    ensures Xor(a, a) == 0 && Xor(a, 0) == a
  {
  }

  lemma HalfXor(a: word, b: word)
    ensures Half(Xor(a, b)) == Xor(Half(a), Half(b))
  {
  }

  lemma OddXor(a: word, b: word)
    ensures Odd(Xor(a, b)) <==> Odd(a) != Odd(b)
  {
    assert (a ^ b) & 1 == (a & 1) ^ (b & 1);
  }

  // ---------- The shift step is linear over GF(2) and invertible ----------

  lemma ShiftXor(a: word, b: word)
    ensures Shift(Xor(a, b)) == Xor(Shift(a), Shift(b))
  {
    hide Xor, Half, Odd;
    var p, q := Half(a), Half(b);
    HalfXor(a, b);
    OddXor(a, b);
    XorAssociates(p, q, POLY);
    XorSwaps(p, q, POLY);
    XorSwaps(p, POLY, Xor(q, POLY));
    XorAssociates(p, POLY, Xor(q, POLY));
    XorAssociates(p, q, POLY);
    XorCancels(Xor(p, q), POLY);
    XorAssociates(Xor(p, POLY), q, POLY);
    XorSwaps(p, POLY, q);
  }

  lemma ShiftInjective(a: word, b: word)
    requires Shift(a) == Shift(b)
    ensures a == b
  {
  }

  lemma {:induction false} ShiftsXor(a: word, b: word, n: nat)
    ensures Shifts(Xor(a, b), n) == Xor(Shifts(a, n), Shifts(b, n))
    decreases n
  {
    hide Xor, Shift;
    if n > 0 {
      ShiftXor(a, b);
      ShiftsXor(Shift(a), Shift(b), n - 1);
    }
  }

  lemma {:induction false} ShiftsInjective(a: word, b: word, n: nat)
    requires Shifts(a, n) == Shifts(b, n)
    ensures a == b
    decreases n
  {
    hide Shift;
    if n > 0 {
      ShiftsInjective(Shift(a), Shift(b), n - 1);
      ShiftInjective(a, b);
    }
  }

  lemma {:induction false} ShiftsAdd(c: word, m: nat, n: nat)
    ensures Shifts(Shifts(c, m), n) == Shifts(c, m + n)
    decreases m
  {
    hide Shift;
    if m > 0 {
      ShiftsAdd(Shift(c), m - 1, n);
    }
  }

  lemma Add8Injective(c: word, d: word, b: byte)
    requires Add8(c, b) == Add8(d, b)
    ensures c == d
  {
    hide Shifts, Xor;
    ShiftsInjective(Xor(c, b as word), Xor(d, b as word), 8);
    XorCancels(c, b as word);
    XorCancels(d, b as word);
  }

  /** Feeding the same bytes never merges two different register states. */
  lemma {:induction false} AddBytesInjective(c: word, d: word, s: seq<byte>)
    requires AddBytes(c, s) == AddBytes(d, s)
    ensures c == d
    decreases |s|
  {
    hide Add8;
    if s != [] {
      AddBytesInjective(Add8(c, s[0]), Add8(d, s[0]), s[1..]);
      Add8Injective(c, d, s[0]);
    }
  }

  lemma {:induction false} AddBytesConcat(c: word, s: seq<byte>, t: seq<byte>)
    ensures AddBytes(c, s + t) == AddBytes(AddBytes(c, s), t)
    decreases |s|
  {
    hide Add8;
    if s == [] {
      assert s + t == t;
    } else {
      assert (s + t)[0] == s[0] && (s + t)[1..] == s[1..] + t;
      AddBytesConcat(Add8(c, s[0]), s[1..], t);
    }
  }

  // ---------- A table can hold eight steps ----------

  function Low8(x: word): word { x & 0xff }

  function High24(x: word): word { x & 0xffff_ff00 }

  function Down8(x: word): word { x >> 8 }

  lemma EightHalves(x: word)
    requires Low8(x) == 0
    ensures var x1 := Half(x); var x2 := Half(x1); var x3 := Half(x2); var x4 := Half(x3);
            var x5 := Half(x4); var x6 := Half(x5); var x7 := Half(x6);
            && !Odd(x) && !Odd(x1) && !Odd(x2) && !Odd(x3) && !Odd(x4) && !Odd(x5) && !Odd(x6) && !Odd(x7)
            && Half(x7) == Down8(x)
  {
  }

  lemma EightEven(x: word)
    requires Low8(x) == 0
    ensures Shifts(x, 8) == Down8(x)
  {
    EightHalves(x);
    hide Half, Odd, Low8, Down8, Xor;
    var x4 := Half(Half(Half(Half(x))));
    assert Shifts(x, 8) == Shifts(Half(x), 7) == Shifts(Half(Half(x)), 6) == Shifts(Half(Half(Half(x))), 5) == Shifts(x4, 4);
    assert Shifts(x4, 4) == Shifts(Half(x4), 3) == Shifts(Half(Half(x4)), 2) == Shifts(Half(Half(Half(x4))), 1);
  }

  lemma SplitLow8(x: word)
    ensures x == Xor(Low8(x), High24(x)) && Low8(High24(x)) == 0 && Down8(High24(x)) == Down8(x)
  {
  }

  /** Eight steps act on the low byte only; the rest just moves down. */
  lemma EightSteps(x: word)
    ensures Shifts(x, 8) == Xor(Shifts(Low8(x), 8), Down8(x))
  {
    hide Shifts, Xor, Low8, High24, Down8;
    SplitLow8(x);
    ShiftsXor(Low8(x), High24(x), 8);
    EightEven(High24(x));
  }

  lemma DownXorByte(c: word, b: byte)
    ensures Down8(Xor(c, b as word)) == Down8(c)
  {
  }

  /** The table-driven step equals the bit-by-bit step, for every register state and byte. */
  lemma TableStep(c: word, b: byte)
    ensures Add8(c, b) == Xor(Down8(c), Shifts(Low8(Xor(c, b as word)), 8))
  {
    hide Shifts, Xor, Low8, Down8;
    var x := Xor(c, b as word);
    EightSteps(x);
    DownXorByte(c, b);
    XorCommutes(Shifts(Low8(x), 8), Down8(x));
  }
}

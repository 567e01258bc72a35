/** The CRC seen bit by bit, and the errors it is guaranteed to catch. */
module Crc32Bits {
  import opened Bytes
  import opened Crc32

  function BitWord(x: bool): word { if x then 1 else 0 }

  function Step(c: word, x: bool): word {
    Shift(Xor(c, BitWord(x)))
  }

  /** The register after a message given as bits, first transmitted bit first. */
  function AddBits(c: word, bits: seq<bool>): word
    decreases |bits|
  {
    if bits == [] then c else AddBits(Step(c, bits[0]), bits[1..])
  }

  predicate OddByte(b: byte) { b & 1 == 1 }

  /** The bits of a byte in transmission order: least significant first. */
  function ByteBits(b: byte): (r: seq<bool>)
    ensures |r| == 8
  {
    [OddByte(b), OddByte(b >> 1), OddByte(b >> 2), OddByte(b >> 3),
     OddByte(b >> 4), OddByte(b >> 5), OddByte(b >> 6), OddByte(b >> 7)]
  }

  function Bits(s: seq<byte>): (r: seq<bool>)
    ensures |r| == 8 * |s|
  {
    if s == [] then [] else ByteBits(s[0]) + Bits(s[1..])
  }

  // ---------- Up to 32 bits fit into the register at once ----------

  function Double(p: word): word { p << 1 }

  function Cons(x: bool, p: word): word {
    Xor(Double(p), BitWord(x))
  }

  predicate TopClear(p: word) { p & 0x8000_0000 == 0 }

  /** At most 32 bits as one word, first bit least significant. */
  function Pack(w: seq<bool>): word
    requires |w| <= 32
  {
    if w == [] then 0 else Cons(w[0], Pack(w[1..]))
  }

  function Next(m: word): word { (m << 1) | 1 }

  // The word with the n lowest bits set.
  function Mask(n: nat): word {
    if n == 0 then 0 else Next(Mask(n - 1))
  }

  predicate Within(p: word, m: word) { p & m == p }

  lemma WithinDouble(p: word, m: word)
    requires Within(p, m)
    ensures Within(Double(p), Next(m))
  {
  }

  lemma WithinBit(x: bool, m: word)
    ensures Within(BitWord(x), Next(m))
  {
  }

  lemma WithinXor(p: word, q: word, m: word)
    requires Within(p, m) && Within(q, m)
    ensures Within(Xor(p, q), m)
  {
    assert (p ^ q) & m == (p & m) ^ (q & m);
  }

  lemma WithinNext(m: word, n: word)
    requires Within(m, n)
    ensures Within(Next(m), Next(n))
  {
  }

  lemma WithinTrans(p: word, m: word, n: word)
    requires Within(p, m) && Within(m, n)
    ensures Within(p, n)
  {
    assert (p & m) & n == p & (m & n);
  }

  lemma {:induction false} MaskMonotone(m: nat, n: nat)
    requires m <= n
    ensures Within(Mask(m), Mask(n))
  {
    hide Next;
    if m > 0 {
      hide Within;
      MaskMonotone(m - 1, n - 1);
      WithinNext(Mask(m - 1), Mask(n - 1));
    }
  }

  lemma {:induction false} PackWithin(w: seq<bool>)
    requires |w| <= 32
    ensures Within(Pack(w), Mask(|w|))
  {
    if w == [] {
    } else {
      hide Within, Xor, Double, BitWord, Next;
      PackWithin(w[1..]);
      var p, m := Pack(w[1..]), Mask(|w| - 1);
      WithinDouble(p, m);
      WithinBit(w[0], m);
      WithinXor(Double(p), BitWord(w[0]), Next(m));
    }
  }

  lemma Mask31()
    ensures Mask(31) == 0x7fff_ffff
  {
    assert Mask(4) == 0xf;
    assert Mask(8) == 0xff;
    assert Mask(12) == 0xfff;
    assert Mask(16) == 0xffff;
    assert Mask(20) == 0xf_ffff;
    assert Mask(24) == 0xff_ffff;
    assert Mask(28) == 0xfff_ffff;
  }

  lemma PackTopClear(w: seq<bool>)
    requires |w| <= 31
    ensures TopClear(Pack(w))
  {
    assert Within(Pack(w), 0x7fff_ffff) by {
      hide Within, Pack, Mask;
      Mask31();
      PackWithin(w);
      MaskMonotone(|w|, 31);
      WithinTrans(Pack(w), Mask(|w|), Mask(31));
    }
  }

  lemma ShiftDouble(p: word)
    requires TopClear(p)
    ensures Shift(Double(p)) == p
  {
  }

  lemma ConsInjective(x: bool, p: word, y: bool, q: word)
    requires TopClear(p) && TopClear(q) && Cons(x, p) == Cons(y, q)
    ensures x == y && p == q
  {
  }

  lemma {:induction false} PackInjective(v: seq<bool>, w: seq<bool>)
    requires |v| == |w| <= 32 && Pack(v) == Pack(w)
    ensures v == w
  {
    hide Cons, TopClear;
    if v != [] {
      PackTopClear(v[1..]);
      PackTopClear(w[1..]);
      ConsInjective(v[0], Pack(v[1..]), w[0], Pack(w[1..]));
      PackInjective(v[1..], w[1..]);
      assert v == [v[0]] + v[1..] && w == [w[0]] + w[1..];
    }
  }

  /** Feeding at most 32 bits is xoring them in at once and shifting as often. */
  lemma {:induction false} AddBitsPacked(c: word, w: seq<bool>)
    requires |w| <= 32
    ensures AddBits(c, w) == Shifts(Xor(c, Pack(w)), |w|)
    decreases |w|
  {
    if w == [] {
      XorSelf(c);
    } else {
      hide Xor, Shift, Double, BitWord, TopClear;
      var p, x := Pack(w[1..]), BitWord(w[0]);
      AddBitsPacked(Step(c, w[0]), w[1..]);
      PackTopClear(w[1..]);
      ShiftDouble(p);
      ShiftXor(Xor(c, x), Double(p));
      XorAssociates(c, x, Double(p));
      XorCommutes(x, Double(p));
    }
  }

  lemma {:induction false} AddBitsConcat(c: word, v: seq<bool>, w: seq<bool>)
    ensures AddBits(c, v + w) == AddBits(AddBits(c, v), w)
    decreases |v|
  {
    hide Step;
    if v == [] {
      assert v + w == w;
    } else {
      assert (v + w)[0] == v[0] && (v + w)[1..] == v[1..] + w;
      AddBitsConcat(Step(c, v[0]), v[1..], w);
    }
  }

  lemma StepInjective(c: word, d: word, x: bool)
    requires Step(c, x) == Step(d, x)
    ensures c == d
  {
    hide Xor, Shift;
    ShiftInjective(Xor(c, BitWord(x)), Xor(d, BitWord(x)));
    XorCancels(c, BitWord(x));
    XorCancels(d, BitWord(x));
  }

  lemma {:induction false} AddBitsInjective(c: word, d: word, w: seq<bool>)
    requires AddBits(c, w) == AddBits(d, w)
    ensures c == d
    decreases |w|
  {
    hide Step;
    if w != [] {
      AddBitsInjective(Step(c, w[0]), Step(d, w[0]), w[1..]);
      StepInjective(c, d, w[0]);
    }
  }

  // ---------- The byte-wise fold is the bit-wise fold ----------

  lemma EightConses(b: byte)
    ensures var r := ByteBits(b);
            Cons(r[0], Cons(r[1], Cons(r[2], Cons(r[3], Cons(r[4], Cons(r[5], Cons(r[6], Cons(r[7], 0)))))))) == b as word
  {
  }

  lemma PackByteBits(b: byte)
    ensures Pack(ByteBits(b)) == b as word
  {
    EightConses(b);
    hide Cons, OddByte;
    var r := ByteBits(b);
    assert r[1..][1..] == r[2..] && r[2..][1..] == r[3..] && r[3..][1..] == r[4..] && r[4..][1..] == r[5..];
    assert r[5..][1..] == r[6..] && r[6..][1..] == r[7..] && r[7..][1..] == [];
    assert Pack(r[7..]) == Cons(r[7], 0);
    assert Pack(r[6..]) == Cons(r[6], Pack(r[7..]));
    assert Pack(r[5..]) == Cons(r[5], Pack(r[6..]));
    assert Pack(r[4..]) == Cons(r[4], Pack(r[5..]));
    assert Pack(r[3..]) == Cons(r[3], Pack(r[4..]));
    assert Pack(r[2..]) == Cons(r[2], Pack(r[3..]));
    assert Pack(r[1..]) == Cons(r[1], Pack(r[2..]));
    assert Pack(r) == Cons(r[0], Pack(r[1..]));
  }

  lemma {:induction false} BytesAsBits(c: word, s: seq<byte>)
    ensures AddBytes(c, s) == AddBits(c, Bits(s))
    decreases |s|
  {
    hide Xor, Shifts, ByteBits, Step;
    if s != [] {
      PackByteBits(s[0]);
      AddBitsPacked(c, ByteBits(s[0]));
      AddBitsConcat(c, ByteBits(s[0]), Bits(s[1..]));
      BytesAsBits(Add8(c, s[0]), s[1..]);
    }
  }

  lemma {:induction false} BitsConcat(s: seq<byte>, t: seq<byte>)
    ensures Bits(s + t) == Bits(s) + Bits(t)
  {
    hide ByteBits;
    if s == [] {
      assert s + t == t;
    } else {
      assert (s + t)[0] == s[0] && (s + t)[1..] == s[1..] + t;
      BitsConcat(s[1..], t);
    }
  }

  lemma WidenInjective(a: byte, b: byte)
    requires a as word == b as word
    ensures a == b
  {
  }

  lemma {:induction false} BitsInjective(s: seq<byte>, t: seq<byte>)
    requires |s| == |t| && Bits(s) == Bits(t)
    ensures s == t
  {
    hide ByteBits;
    if s != [] {
      assert Bits(s)[..8] == ByteBits(s[0]) && Bits(t)[..8] == ByteBits(t[0]);
      assert Bits(s)[8..] == Bits(s[1..]) && Bits(t)[8..] == Bits(t[1..]);
      BitsInjective(s[1..], t[1..]);
      PackByteBits(s[0]);
      PackByteBits(t[0]);
      WidenInjective(s[0], t[0]);
      assert s == [s[0]] + s[1..] && t == [t[0]] + t[1..];
    }
  }

  // ---------- Error detection ----------

  /** Two equally long messages agree on every bit outside positions [from, from + n). */
  ghost predicate DifferWithin(s: seq<byte>, t: seq<byte>, from: nat, n: nat) {
    && |s| == |t|
    && forall k {:trigger Bits(s)[k]} {:trigger Bits(t)[k]} ::
         0 <= k < 8 * |s| && !(from <= k < from + n) ==> Bits(s)[k] == Bits(t)[k]
  }

  /** Different windows of at most 32 bits always lead to different registers. */
  lemma WindowDistinct(c: word, v: seq<bool>, w: seq<bool>)
    requires |v| == |w| <= 32 && AddBits(c, v) == AddBits(c, w)
    ensures v == w
  {
    hide Xor, Shifts;
    AddBitsPacked(c, v);
    AddBitsPacked(c, w);
    ShiftsInjective(Xor(c, Pack(v)), Xor(c, Pack(w)), |v|);
    XorCommutes(c, Pack(v));
    XorCommutes(c, Pack(w));
    XorCancels(Pack(v), c);
    XorCancels(Pack(w), c);
    PackInjective(v, w);
  }

  lemma WindowInContext(c: word, v: seq<bool>, w: seq<bool>, from: nat)
    requires |v| == |w| && AddBits(c, v) == AddBits(c, w)
    requires forall k :: 0 <= k < |v| && !(from <= k < from + 32) ==> v[k] == w[k]
    ensures v == w
  {
    hide AddBits;
    var i := if from <= |v| then from else |v|;
    var j := if i + 32 <= |v| then i + 32 else |v|;
    var x, y, z := v[i..j], w[i..j], v[j..];
    assert v == v[..i] + (x + z) && w == v[..i] + (y + z);
    var d := AddBits(c, v[..i]);
    AddBitsConcat(c, v[..i], x + z);
    AddBitsConcat(c, v[..i], y + z);
    AddBitsConcat(d, x, z);
    AddBitsConcat(d, y, z);
    AddBitsInjective(AddBits(d, x), AddBits(d, y), z);
    WindowDistinct(d, x, y);
  }

  /** Every corruption confined to 32 consecutive bits, at any position, changes the CRC. */
  lemma BurstDetected(s: seq<byte>, t: seq<byte>, from: nat)
    requires DifferWithin(s, t, from, 32) && s != t
    ensures Crc(s) != Crc(t)
  {
    hide Xor, AddBytes, AddBits, Bits;
    if Crc(s) == Crc(t) {
      XorCancels(AddBytes(INIT, s), INIT);
      XorCancels(AddBytes(INIT, t), INIT);
      BytesAsBits(INIT, s);
      BytesAsBits(INIT, t);
      WindowInContext(INIT, Bits(s), Bits(t), from);
      BitsInjective(s, t);
    }
  }

  /** Four consecutive bytes are such a window, whatever stands before and after them. */
  lemma FourBytesDetected(pre: seq<byte>, a: seq<byte>, b: seq<byte>, post: seq<byte>)
    requires |a| == |b| <= 4 && a != b
    ensures Crc(pre + a + post) != Crc(pre + b + post)
  {
    hide ByteBits, Bits, Crc;
    var s, t := pre + a + post, pre + b + post;
    BitsConcat(pre + a, post);
    BitsConcat(pre, a);
    BitsConcat(pre + b, post);
    BitsConcat(pre, b);
    assert s[|pre|..|pre| + |a|] == a && t[|pre|..|pre| + |a|] == b;
    BurstDetected(s, t, 8 * |pre|);
  }

  /** The bound is exact: two windows of 33 bits collide just when they are equal or differ by the generator. */
  lemma WindowOf33(c: word, v: seq<bool>, w: seq<bool>)
    requires |v| == |w| == 33
    ensures AddBits(c, v) == AddBits(c, w) <==> v == w || (v[0] != w[0] && Pack(w[1..]) == Xor(Pack(v[1..]), POLY))
  {
    hide Xor, Shifts, Shift, BitWord;
    var p, q := Pack(v[1..]), Pack(w[1..]);
    var d, e := Step(c, v[0]), Step(c, w[0]);
    AddBitsPacked(d, v[1..]);
    AddBitsPacked(e, w[1..]);
    if Shifts(Xor(d, p), 32) == Shifts(Xor(e, q), 32) {
      ShiftsInjective(Xor(d, p), Xor(e, q), 32);
    }
    assert AddBits(c, v) == AddBits(c, w) <==> Xor(d, p) == Xor(e, q);
    if v[0] == w[0] {
      XorCommutes(d, p);
      XorCommutes(d, q);
      XorCancels(p, d);
      XorCancels(q, d);
      if p == q {
        PackInjective(v[1..], w[1..]);
        assert v == [v[0]] + v[1..] && w == [w[0]] + w[1..];
      }
    } else {
      FlippedStep(c, v[0]);
      assert e == Xor(d, POLY);
      XorAssociates(d, POLY, q);
      XorCommutes(POLY, q);
      XorCommutes(d, p);
      XorCommutes(d, Xor(q, POLY));
      XorCancels(p, d);
      XorCancels(Xor(q, POLY), d);
      XorCancels(q, POLY);
      XorCancels(p, POLY);
    }
  }

  lemma FlippedStep(c: word, x: bool)
    ensures Step(c, !x) == Xor(Step(c, x), POLY)
  {
    hide Xor, Shift;
    var d := Xor(c, BitWord(x));
    assert BitWord(!x) == Xor(BitWord(x), 1) by { FlipBit(x); }
    XorAssociates(c, BitWord(x), 1);
    ShiftXor(d, 1);
    ShiftOne();
  }

  lemma FlipBit(x: bool)
    ensures BitWord(!x) == Xor(BitWord(x), 1)
  {
  }

  lemma ShiftOne()
    ensures Shift(1) == POLY
  {
  }
}

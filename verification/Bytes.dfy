/** Little-endian words: how four bytes of memory and a 32-bit register value determine each other,
    and how a word relates to the natural number it denotes. Every other module builds on these facts. */
module Bytes {

  type byte = bv8
  type word = bv32

  const TWO_32: nat := 0x1_0000_0000

  /** The word a little-endian machine loads from four consecutive bytes. */
  function Le32(b0: byte, b1: byte, b2: byte, b3: byte): word {
    ((b3 as word) << 24) | (((b2 as word) << 16) | (((b1 as word) << 8) | (b0 as word)))
  }

  /** Byte k of a word in memory, least significant first. */
  function ByteAt(w: word, k: nat): byte
    requires k < 4
  {
    if k == 0 then (w & 0xff) as byte
    else if k == 1 then ((w >> 8) & 0xff) as byte
    else if k == 2 then ((w >> 16) & 0xff) as byte
    else ((w >> 24) & 0xff) as byte
  }

  /** The four bytes a little-endian machine stores for a word. */
  function WordBytes(w: word): (s: seq<byte>)
    ensures |s| == 4
  {
    [ByteAt(w, 0), ByteAt(w, 1), ByteAt(w, 2), ByteAt(w, 3)]
  }

  /** The word stored at byte offset i of a buffer. */
  function ReadWord(s: seq<byte>, i: nat): word
    requires i + 4 <= |s|
  {
    Le32(s[i], s[i + 1], s[i + 2], s[i + 3])
  }

  /** The number a byte denotes. */
  function Val(b: byte): nat { b as nat }

  /** The byte that denotes a number below 256. */
  function ByteOf(n: nat): byte
    requires n < 0x100
  {
    n as byte
  }

  /** The number a word denotes. */
  function NatOf(w: word): nat {
    Val(ByteAt(w, 0)) + 0x100 * Val(ByteAt(w, 1)) + 0x1_0000 * Val(ByteAt(w, 2)) + 0x100_0000 * Val(ByteAt(w, 3))
  }

  /** The word that denotes n modulo 2^32. */
  function WordOf(n: nat): word {
    var q1 := n / 0x100;
    var q2 := q1 / 0x100;
    var q3 := q2 / 0x100;
    Le32(ByteOf(n % 0x100), ByteOf(q1 % 0x100), ByteOf(q2 % 0x100), ByteOf(q3 % 0x100))
  }

  lemma LoadStore(b0: byte, b1: byte, b2: byte, b3: byte)
    ensures WordBytes(Le32(b0, b1, b2, b3)) == [b0, b1, b2, b3]
  {
    var w := Le32(b0, b1, b2, b3);
    assert ByteAt(w, 0) == b0;
    assert ByteAt(w, 1) == b1;
    assert ByteAt(w, 2) == b2;
    assert ByteAt(w, 3) == b3;
  }

  lemma StoreLoad(w: word)
    ensures ReadWord(WordBytes(w), 0) == w
    ensures Le32(ByteAt(w, 0), ByteAt(w, 1), ByteAt(w, 2), ByteAt(w, 3)) == w
  {
    assert Le32(ByteAt(w, 0), ByteAt(w, 1), ByteAt(w, 2), ByteAt(w, 3)) == w;
  }

  lemma ReadWordBytes(s: seq<byte>, i: nat)
    requires i + 4 <= |s|
    ensures WordBytes(ReadWord(s, i)) == s[i..i + 4]
  {
    LoadStore(s[i], s[i + 1], s[i + 2], s[i + 3]);
  }

  lemma ByteOfVal(b: byte)
    ensures Val(b) < 0x100
    ensures ByteOf(Val(b)) == b
  {
  }

  lemma SuccessorByte(b: byte)
    requires b != 0xff
    ensures Val(b + 1) == Val(b) + 1
  {
  }

  lemma {:induction false} ValByteOf(n: nat)
    requires n < 0x100
    ensures Val(ByteOf(n)) == n
  {
    hide Val, ByteOf;
    var b := ByteWithVal(n);
    ByteOfVal(b);
  }

  // Val reaches every number below 256.
  lemma {:induction false} ByteWithVal(n: nat) returns (b: byte)
    requires n < 0x100
    ensures Val(b) == n
  {
    if n == 0 {
      b := 0;
    } else {
      var p := ByteWithVal(n - 1);
      assert p != 0xff by { assert Val(0xff) == 0xff; }
      SuccessorByte(p);
      b := p + 1;
    }
  }

  lemma ByteOrder(a: byte, b: byte)
    ensures ByteLess(a, b) <==> Val(a) < Val(b)
    ensures a == b <==> Val(a) == Val(b)
    ensures Val(a) < 0x100
  {
  }

  lemma NatOfLe32(b0: byte, b1: byte, b2: byte, b3: byte)
    ensures NatOf(Le32(b0, b1, b2, b3)) == Val(b0) + 0x100 * Val(b1) + 0x1_0000 * Val(b2) + 0x100_0000 * Val(b3)
  {
    hide ByteAt, Le32, Val;
    LoadStore(b0, b1, b2, b3);
    var s := WordBytes(Le32(b0, b1, b2, b3));
    assert s[0] == b0 && s[1] == b1 && s[2] == b2 && s[3] == b3;
  }

  lemma DigitSum(n: nat)
    ensures var q1 := n / 0x100; var q2 := q1 / 0x100; var q3 := q2 / 0x100;
            n % TWO_32 == n % 0x100 + 0x100 * (q1 % 0x100) + 0x1_0000 * (q2 % 0x100) + 0x100_0000 * (q3 % 0x100)
  {
    var q1 := n / 0x100;
    var q2 := q1 / 0x100;
    var q3 := q2 / 0x100;
    assert n == 0x100 * q1 + n % 0x100;
    assert q1 == 0x100 * q2 + q1 % 0x100;
    assert q2 == 0x100 * q3 + q2 % 0x100;
    assert q3 == 0x100 * (q3 / 0x100) + q3 % 0x100;
  }

  lemma NatWordNat(n: nat)
    ensures NatOf(WordOf(n)) == n % TWO_32
  {
    hide Le32, NatOf, Val, ByteOf;
    var q1 := n / 0x100;
    var q2 := q1 / 0x100;
    var q3 := q2 / 0x100;
    NatOfLe32(ByteOf(n % 0x100), ByteOf(q1 % 0x100), ByteOf(q2 % 0x100), ByteOf(q3 % 0x100));
    ValByteOf(n % 0x100);
    ValByteOf(q1 % 0x100);
    ValByteOf(q2 % 0x100);
    ValByteOf(q3 % 0x100);
    DigitSum(n);
  }

  lemma Digits(d0: nat, d1: nat, d2: nat, d3: nat)
    requires d0 < 0x100 && d1 < 0x100 && d2 < 0x100 && d3 < 0x100
    ensures var n := d0 + 0x100 * d1 + 0x1_0000 * d2 + 0x100_0000 * d3;
            && n < TWO_32
            && n % 0x100 == d0 && n / 0x100 % 0x100 == d1
            && n / 0x100 / 0x100 % 0x100 == d2 && n / 0x100 / 0x100 / 0x100 % 0x100 == d3
  {
    var n := d0 + 0x100 * d1 + 0x1_0000 * d2 + 0x100_0000 * d3;
    var q1 := d1 + 0x100 * d2 + 0x1_0000 * d3;
    var q2 := d2 + 0x100 * d3;
    assert n == 0x100 * q1 + d0;
    assert n / 0x100 == q1;
    assert q1 == 0x100 * q2 + d1;
    assert q1 / 0x100 == q2;
    assert q2 / 0x100 == d3;
  }

  lemma WordNatWord(w: word)
    ensures NatOf(w) < TWO_32
    ensures WordOf(NatOf(w)) == w
  {
    hide ByteAt, Le32, Val, ByteOf;
    var b0, b1, b2, b3 := ByteAt(w, 0), ByteAt(w, 1), ByteAt(w, 2), ByteAt(w, 3);
    ByteOfVal(b0);
    ByteOfVal(b1);
    ByteOfVal(b2);
    ByteOfVal(b3);
    Digits(Val(b0), Val(b1), Val(b2), Val(b3));
    StoreLoad(w);
  }

  lemma NatOfInjective(v: word, w: word)
    ensures NatOf(v) == NatOf(w) <==> v == w
  {
    hide NatOf, WordOf;
    WordNatWord(v);
    WordNatWord(w);
  }

  // Comparison under names, so that the facts below compose by substitution.
  predicate WordLess(v: word, w: word) { v < w }

  predicate ByteLess(a: byte, b: byte) { a < b }

  lemma JoinBounds(b0: byte, b1: byte, b2: byte)
    ensures ((b1 as word) << 8) | (b0 as word) <= 0xffff
    ensures ((b2 as word) << 16) | (((b1 as word) << 8) | (b0 as word)) <= 0xff_ffff
  {
  }

  // Unsigned comparison peels off the most significant byte.
  lemma OrderTop(a: byte, c: word, b: byte, d: word)
    requires c <= 0xff_ffff && d <= 0xff_ffff
    ensures (((a as word) << 24) | c) < (((b as word) << 24) | d) <==> a < b || (a == b && c < d)
  {
  }

  lemma OrderMiddle(a: byte, c: word, b: byte, d: word)
    requires c <= 0xffff && d <= 0xffff
    ensures (((a as word) << 16) | c) < (((b as word) << 16) | d) <==> a < b || (a == b && c < d)
  {
  }

  lemma OrderLow(a: byte, c: byte, b: byte, d: byte)
    ensures (((a as word) << 8) | (c as word)) < (((b as word) << 8) | (d as word)) <==> a < b || (a == b && c < d)
  {
  }

  lemma LessTop(a: byte, c: word, b: byte, d: word)
    requires c <= 0xff_ffff && d <= 0xff_ffff
    ensures WordLess(((a as word) << 24) | c, ((b as word) << 24) | d)
       <==> ByteLess(a, b) || (a == b && WordLess(c, d))
  {
    OrderTop(a, c, b, d);
  }

  lemma LessMiddle(a: byte, c: word, b: byte, d: word)
    requires c <= 0xffff && d <= 0xffff
    ensures WordLess(((a as word) << 16) | c, ((b as word) << 16) | d)
       <==> ByteLess(a, b) || (a == b && WordLess(c, d))
  {
    OrderMiddle(a, c, b, d);
  }

  lemma LessLow(a: byte, c: byte, b: byte, d: byte)
    ensures WordLess(((a as word) << 8) | (c as word), ((b as word) << 8) | (d as word))
       <==> ByteLess(a, b) || (a == b && ByteLess(c, d))
  {
    OrderLow(a, c, b, d);
  }

  /** Four bytes compared from the last one down: what an unsigned word comparison must decide. */
  predicate Below(a0: byte, a1: byte, a2: byte, a3: byte, b0: byte, b1: byte, b2: byte, b3: byte) {
    ByteLess(a3, b3)
    || (a3 == b3 && (ByteLess(a2, b2) || (a2 == b2 && (ByteLess(a1, b1) || (a1 == b1 && ByteLess(a0, b0))))))
  }

  /** Comparing two words compares their bytes from the most significant down. */
  lemma WordOrderByBytes(a0: byte, a1: byte, a2: byte, a3: byte, b0: byte, b1: byte, b2: byte, b3: byte)
    ensures WordLess(Le32(a0, a1, a2, a3), Le32(b0, b1, b2, b3)) <==> Below(a0, a1, a2, a3, b0, b1, b2, b3)
  {
    hide WordLess, ByteLess;
    var a10, b10 := ((a1 as word) << 8) | (a0 as word), ((b1 as word) << 8) | (b0 as word);
    JoinBounds(a0, a1, a2);
    JoinBounds(b0, b1, b2);
    LessTop(a3, ((a2 as word) << 16) | a10, b3, ((b2 as word) << 16) | b10);
    LessMiddle(a2, a10, b2, b10);
    LessLow(a1, a0, b1, b0);
  }

  lemma BelowOrder(a0: byte, a1: byte, a2: byte, a3: byte, b0: byte, b1: byte, b2: byte, b3: byte)
    ensures Below(a0, a1, a2, a3, b0, b1, b2, b3)
       <==> Val(a0) + 0x100 * Val(a1) + 0x1_0000 * Val(a2) + 0x100_0000 * Val(a3)
            < Val(b0) + 0x100 * Val(b1) + 0x1_0000 * Val(b2) + 0x100_0000 * Val(b3)
  {
    hide Val, ByteLess;
    ByteOrder(a0, b0);
    ByteOrder(a1, b1);
    ByteOrder(a2, b2);
    ByteOrder(a3, b3);
    ByteOrder(b0, a0);
    ByteOrder(b1, a1);
    ByteOrder(b2, a2);
    ByteOrder(b3, a3);
  }

  /** Unsigned comparison of words is comparison of the numbers they denote. */
  lemma WordOrder(v: word, w: word)
    ensures v < w <==> NatOf(v) < NatOf(w)
  {
    assert WordLess(v, w) <==> v < w;
    hide ByteAt, Below, Val, Le32, WordLess;
    StoreLoad(v);
    StoreLoad(w);
    WordOrderByBytes(ByteAt(v, 0), ByteAt(v, 1), ByteAt(v, 2), ByteAt(v, 3),
                     ByteAt(w, 0), ByteAt(w, 1), ByteAt(w, 2), ByteAt(w, 3));
    BelowOrder(ByteAt(v, 0), ByteAt(v, 1), ByteAt(v, 2), ByteAt(v, 3),
               ByteAt(w, 0), ByteAt(w, 1), ByteAt(w, 2), ByteAt(w, 3));
  }
}

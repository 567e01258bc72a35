/** The constant-time comparisons of hardened.h. Laundering is the identity here. */
module Hardened {
  import opened Bytes

  const TRUE32: word := 0xFFFF_FFFF
  const FALSE32: word := 0

  /** The all-ones or all-zeros word for a condition. */
  function MaskOf(c: bool): word { if c then TRUE32 else FALSE32 }

  predicate TopBit(a: word) { a & 0x8000_0000 != 0 }

  /** Smears the sign bit: an arithmetic right shift by 31. */
  function CtSltz32(a: word): word {
    if TopBit(a) then 0xFFFF_FFFF else a >> 31
  }

  function CtSltu32(a: word, b: word): word {
    CtSltz32((!a & b) | ((!a | b) & (a - b)))
  }

  function CtSeqz32(a: word): word {
    CtSltz32(!a & (a - 1))
  }

  function CtSeq32(a: word, b: word): word {
    CtSeqz32(a ^ b)
  }

  function CtCmov32(c: word, a: word, b: word): word {
    (c & a) | (!c & b)
  }

  /** The pointer-sized comparison, which uses a different formula. */
  function CtSltuw(a: word, b: word): word {
    CtSltz32((a & !b) | ((a ^ !b) & (a - b)))
  }

  // ---------- Subtraction and order ----------

  // Differences of numbers that are in order stay small; shown one byte at a time, from the low end.

  predicate AtMost(x: word, m: word) { x <= m }

  function Minus(x: word, y: word): word { x - y }

  /** Whichever of the two is larger, the difference is at most m. */
  predicate Near(x: word, y: word, m: word) {
    (!WordLess(x, y) ==> AtMost(Minus(x, y), m)) && (!WordLess(y, x) ==> AtMost(Minus(y, x), m))
  }

  lemma NearSwaps(x: word, y: word, m: word)
    requires Near(x, y, m)
    ensures Near(y, x, m)
  {
    hide AtMost, WordLess, Minus;
  }

  lemma NotBoth(x: word, y: word)
    ensures !(x < y) || !(y < x)
  {
  }

  lemma NotSame(x: word, y: word)
    ensures !(x < y) || x != y
  {
  }

  lemma Asymmetric(x: word, y: word)
    ensures WordLess(x, y) ==> !WordLess(y, x) && x != y
  {
    assert (WordLess(x, y) <==> x < y) && (WordLess(y, x) <==> y < x);
    hide WordLess;
    NotBoth(x, y);
    NotSame(x, y);
  }

  lemma ZeroDifference(x: word, y: word)
    ensures x - y == 0 <==> x == y
  {
  }

  lemma MinusZero(x: word, y: word)
    ensures Minus(x, y) == 0 <==> x == y
  {
    assert Minus(x, y) == x - y;
    hide Minus;
    ZeroDifference(x, y);
  }

  function At8(a: word, c: word): word { (a << 8) + c }

  function Under8(e: word, f: word): word { (e << 8) - f }

  lemma Order8(a: word, c: word, b: word, d: word)
    requires c <= 0xff && d <= 0xff && a <= 0xff && b <= 0xff
    ensures WordLess((a << 8) + c, (b << 8) + d) <==> a < b || (a == b && c < d)
  {
  }

  lemma OrderParts8(a: word, c: word, b: word, d: word)
    requires AtMost(c, 0xff) && AtMost(d, 0xff) && AtMost(a, 0xff) && AtMost(b, 0xff)
    ensures WordLess((a << 8) + c, (b << 8) + d) <==> WordLess(a, b) || (a == b && WordLess(c, d))
  {
    Order8(a, c, b, d);
  }

  lemma Less8(a: word, c: word, b: word, d: word)
    requires AtMost(c, 0xff) && AtMost(d, 0xff) && AtMost(a, 0xff) && AtMost(b, 0xff)
    ensures WordLess(At8(a, c), At8(b, d)) <==> WordLess(a, b) || (a == b && WordLess(c, d))
  {
    hide WordLess, AtMost;
    OrderParts8(a, c, b, d);
  }

  lemma Carry8(e: word, f: word)
    requires e <= 0xff && f <= 0xff
    ensures (e << 8) + f <= 0xffff
    ensures e != 0 ==> (e << 8) - f <= 0xffff
  {
  }

  lemma CarryParts8(e: word, f: word)
    requires AtMost(e, 0xff) && AtMost(f, 0xff)
    ensures AtMost((e << 8) + f, 0xffff)
    ensures e != 0 ==> AtMost((e << 8) - f, 0xffff)
  {
    Carry8(e, f);
  }

  lemma Bounded8(e: word, f: word)
    requires AtMost(e, 0xff) && AtMost(f, 0xff)
    ensures AtMost(At8(e, f), 0xffff)
    ensures e != 0 ==> AtMost(Under8(e, f), 0xffff)
  {
    hide AtMost;
    CarryParts8(e, f);
  }

  lemma Regroup8(a: word, c: word, b: word, d: word)
    ensures ((a << 8) + c) - ((b << 8) + d) == ((a - b) << 8) + (c - d)
    ensures ((a << 8) + c) - ((b << 8) + d) == ((a - b) << 8) - (d - c)
  {
  }

  lemma MinusShifted8(a: word, c: word, b: word, d: word)
    ensures Minus((a << 8) + c, (b << 8) + d) == ((a - b) << 8) + (c - d)
    ensures Minus((a << 8) + c, (b << 8) + d) == ((a - b) << 8) - (d - c)
  {
    Regroup8(a, c, b, d);
  }

  lemma MinusAt8(a: word, c: word, b: word, d: word)
    ensures Minus(At8(a, c), At8(b, d)) == ((a - b) << 8) + (c - d)
    ensures Minus(At8(a, c), At8(b, d)) == ((a - b) << 8) - (d - c)
  {
    hide Minus;
    MinusShifted8(a, c, b, d);
  }

  lemma MinusParts8(a: word, c: word, b: word, d: word)
    ensures Minus(At8(a, c), At8(b, d)) == At8(a - b, c - d)
    ensures Minus(At8(a, c), At8(b, d)) == Under8(a - b, d - c)
  {
    MinusAt8(a, c, b, d);
    hide Minus;
  }

  lemma Split8(a: word, c: word, b: word, d: word)
    ensures Minus(At8(a, c), At8(b, d)) == At8(Minus(a, b), Minus(c, d))
    ensures Minus(At8(a, c), At8(b, d)) == Under8(Minus(a, b), Minus(d, c))
  {
    MinusParts8(a, c, b, d);
    hide At8, Under8;
  }

  /** If the parts differ by little, so do the words, in the direction in which they are ordered. */
  lemma Difference8(a: word, c: word, b: word, d: word)
    requires AtMost(c, 0xff) && AtMost(d, 0xff) && AtMost(a, 0xff) && AtMost(b, 0xff)
    requires Near(a, b, 0xff) && Near(c, d, 0xff) && !WordLess(At8(a, c), At8(b, d))
    ensures AtMost(Minus(At8(a, c), At8(b, d)), 0xffff)
  {
    hide AtMost, WordLess, Minus, At8, Under8;
    Less8(a, c, b, d);
    Split8(a, c, b, d);
    Asymmetric(c, d);
    MinusZero(a, b);
    if !WordLess(c, d) {
      Bounded8(Minus(a, b), Minus(c, d));
    } else {
      Bounded8(Minus(a, b), Minus(d, c));
    }
  }

  lemma Near8(a: word, c: word, b: word, d: word)
    requires AtMost(c, 0xff) && AtMost(d, 0xff) && AtMost(a, 0xff) && AtMost(b, 0xff)
    requires Near(a, b, 0xff) && Near(c, d, 0xff)
    ensures Near(At8(a, c), At8(b, d), 0xffff)
  {
    hide AtMost, WordLess, Minus, At8;
    NearSwaps(a, b, 0xff);
    NearSwaps(c, d, 0xff);
    if !WordLess(At8(a, c), At8(b, d)) {
      Difference8(a, c, b, d);
    }
    if !WordLess(At8(b, d), At8(a, c)) {
      Difference8(b, d, a, c);
    }
  }

  function At16(a: word, c: word): word { (a << 16) + c }

  function Under16(e: word, f: word): word { (e << 16) - f }

  lemma Order16(a: word, c: word, b: word, d: word)
    requires c <= 0xffff && d <= 0xffff && a <= 0xff && b <= 0xff
    ensures WordLess((a << 16) + c, (b << 16) + d) <==> a < b || (a == b && c < d)
  {
  }

  lemma OrderParts16(a: word, c: word, b: word, d: word)
    requires AtMost(c, 0xffff) && AtMost(d, 0xffff) && AtMost(a, 0xff) && AtMost(b, 0xff)
    ensures WordLess((a << 16) + c, (b << 16) + d) <==> WordLess(a, b) || (a == b && WordLess(c, d))
  {
    Order16(a, c, b, d);
  }

  lemma Less16(a: word, c: word, b: word, d: word)
    requires AtMost(c, 0xffff) && AtMost(d, 0xffff) && AtMost(a, 0xff) && AtMost(b, 0xff)
    ensures WordLess(At16(a, c), At16(b, d)) <==> WordLess(a, b) || (a == b && WordLess(c, d))
  {
    hide WordLess, AtMost;
    OrderParts16(a, c, b, d);
  }

  lemma Carry16(e: word, f: word)
    requires e <= 0xff && f <= 0xffff
    ensures (e << 16) + f <= 0xff_ffff
    ensures e != 0 ==> (e << 16) - f <= 0xff_ffff
  {
  }

  lemma CarryParts16(e: word, f: word)
    requires AtMost(e, 0xff) && AtMost(f, 0xffff)
    ensures AtMost((e << 16) + f, 0xff_ffff)
    ensures e != 0 ==> AtMost((e << 16) - f, 0xff_ffff)
  {
    Carry16(e, f);
  }

  lemma Bounded16(e: word, f: word)
    requires AtMost(e, 0xff) && AtMost(f, 0xffff)
    ensures AtMost(At16(e, f), 0xff_ffff)
    ensures e != 0 ==> AtMost(Under16(e, f), 0xff_ffff)
  {
    hide AtMost;
    CarryParts16(e, f);
  }

  lemma Regroup16(a: word, c: word, b: word, d: word)
    ensures ((a << 16) + c) - ((b << 16) + d) == ((a - b) << 16) + (c - d)
    ensures ((a << 16) + c) - ((b << 16) + d) == ((a - b) << 16) - (d - c)
  {
  }

  lemma MinusShifted16(a: word, c: word, b: word, d: word)
    ensures Minus((a << 16) + c, (b << 16) + d) == ((a - b) << 16) + (c - d)
    ensures Minus((a << 16) + c, (b << 16) + d) == ((a - b) << 16) - (d - c)
  {
    Regroup16(a, c, b, d);
  }

  lemma MinusAt16(a: word, c: word, b: word, d: word)
    ensures Minus(At16(a, c), At16(b, d)) == ((a - b) << 16) + (c - d)
    ensures Minus(At16(a, c), At16(b, d)) == ((a - b) << 16) - (d - c)
  {
    hide Minus;
    MinusShifted16(a, c, b, d);
  }

  lemma MinusParts16(a: word, c: word, b: word, d: word)
    ensures Minus(At16(a, c), At16(b, d)) == At16(a - b, c - d)
    ensures Minus(At16(a, c), At16(b, d)) == Under16(a - b, d - c)
  {
    MinusAt16(a, c, b, d);
    hide Minus;
  }

  lemma Split16(a: word, c: word, b: word, d: word)
    ensures Minus(At16(a, c), At16(b, d)) == At16(Minus(a, b), Minus(c, d))
    ensures Minus(At16(a, c), At16(b, d)) == Under16(Minus(a, b), Minus(d, c))
  {
    MinusParts16(a, c, b, d);
    hide At16, Under16;
  }

  /** If the parts differ by little, so do the words, in the direction in which they are ordered. */
  lemma Difference16(a: word, c: word, b: word, d: word)
    requires AtMost(c, 0xffff) && AtMost(d, 0xffff) && AtMost(a, 0xff) && AtMost(b, 0xff)
    requires Near(a, b, 0xff) && Near(c, d, 0xffff) && !WordLess(At16(a, c), At16(b, d))
    ensures AtMost(Minus(At16(a, c), At16(b, d)), 0xff_ffff)
  {
    hide AtMost, WordLess, Minus, At16, Under16;
    Less16(a, c, b, d);
    Split16(a, c, b, d);
    Asymmetric(c, d);
    MinusZero(a, b);
    if !WordLess(c, d) {
      Bounded16(Minus(a, b), Minus(c, d));
    } else {
      Bounded16(Minus(a, b), Minus(d, c));
    }
  }

  lemma Near16(a: word, c: word, b: word, d: word)
    requires AtMost(c, 0xffff) && AtMost(d, 0xffff) && AtMost(a, 0xff) && AtMost(b, 0xff)
    requires Near(a, b, 0xff) && Near(c, d, 0xffff)
    ensures Near(At16(a, c), At16(b, d), 0xff_ffff)
  {
    hide AtMost, WordLess, Minus, At16;
    NearSwaps(a, b, 0xff);
    NearSwaps(c, d, 0xffff);
    if !WordLess(At16(a, c), At16(b, d)) {
      Difference16(a, c, b, d);
    }
    if !WordLess(At16(b, d), At16(a, c)) {
      Difference16(b, d, a, c);
    }
  }

  function At24(a: word, c: word): word { (a << 24) + c }

  function Under24(e: word, f: word): word { (e << 24) - f }

  lemma Order24(a: word, c: word, b: word, d: word)
    requires c <= 0xff_ffff && d <= 0xff_ffff && a <= 0x7f && b <= 0x7f
    ensures WordLess((a << 24) + c, (b << 24) + d) <==> a < b || (a == b && c < d)
  {
  }

  lemma OrderParts24(a: word, c: word, b: word, d: word)
    requires AtMost(c, 0xff_ffff) && AtMost(d, 0xff_ffff) && AtMost(a, 0x7f) && AtMost(b, 0x7f)
    ensures WordLess((a << 24) + c, (b << 24) + d) <==> WordLess(a, b) || (a == b && WordLess(c, d))
  {
    Order24(a, c, b, d);
  }

  lemma Less24(a: word, c: word, b: word, d: word)
    requires AtMost(c, 0xff_ffff) && AtMost(d, 0xff_ffff) && AtMost(a, 0x7f) && AtMost(b, 0x7f)
    ensures WordLess(At24(a, c), At24(b, d)) <==> WordLess(a, b) || (a == b && WordLess(c, d))
  {
    hide WordLess, AtMost;
    OrderParts24(a, c, b, d);
  }

  lemma Carry24(e: word, f: word)
    requires e <= 0x7f && f <= 0xff_ffff
    ensures (e << 24) + f <= 0x7fff_ffff
    ensures e != 0 ==> (e << 24) - f <= 0x7fff_ffff
  {
  }

  lemma CarryParts24(e: word, f: word)
    requires AtMost(e, 0x7f) && AtMost(f, 0xff_ffff)
    ensures AtMost((e << 24) + f, 0x7fff_ffff)
    ensures e != 0 ==> AtMost((e << 24) - f, 0x7fff_ffff)
  {
    Carry24(e, f);
  }

  lemma Bounded24(e: word, f: word)
    requires AtMost(e, 0x7f) && AtMost(f, 0xff_ffff)
    ensures AtMost(At24(e, f), 0x7fff_ffff)
    ensures e != 0 ==> AtMost(Under24(e, f), 0x7fff_ffff)
  {
    hide AtMost;
    CarryParts24(e, f);
  }

  lemma Regroup24(a: word, c: word, b: word, d: word)
    ensures ((a << 24) + c) - ((b << 24) + d) == ((a - b) << 24) + (c - d)
    ensures ((a << 24) + c) - ((b << 24) + d) == ((a - b) << 24) - (d - c)
  {
  }

  lemma MinusShifted24(a: word, c: word, b: word, d: word)
    ensures Minus((a << 24) + c, (b << 24) + d) == ((a - b) << 24) + (c - d)
    ensures Minus((a << 24) + c, (b << 24) + d) == ((a - b) << 24) - (d - c)
  {
    Regroup24(a, c, b, d);
  }

  lemma MinusAt24(a: word, c: word, b: word, d: word)
    ensures Minus(At24(a, c), At24(b, d)) == ((a - b) << 24) + (c - d)
    ensures Minus(At24(a, c), At24(b, d)) == ((a - b) << 24) - (d - c)
  {
    hide Minus;
    MinusShifted24(a, c, b, d);
  }

  lemma MinusParts24(a: word, c: word, b: word, d: word)
    ensures Minus(At24(a, c), At24(b, d)) == At24(a - b, c - d)
    ensures Minus(At24(a, c), At24(b, d)) == Under24(a - b, d - c)
  {
    MinusAt24(a, c, b, d);
    hide Minus;
  }

  lemma Split24(a: word, c: word, b: word, d: word)
    ensures Minus(At24(a, c), At24(b, d)) == At24(Minus(a, b), Minus(c, d))
    ensures Minus(At24(a, c), At24(b, d)) == Under24(Minus(a, b), Minus(d, c))
  {
    MinusParts24(a, c, b, d);
    hide At24, Under24;
  }

  /** If the parts differ by little, so do the words, in the direction in which they are ordered. */
  lemma Difference24(a: word, c: word, b: word, d: word)
    requires AtMost(c, 0xff_ffff) && AtMost(d, 0xff_ffff) && AtMost(a, 0x7f) && AtMost(b, 0x7f)
    requires Near(a, b, 0x7f) && Near(c, d, 0xff_ffff) && !WordLess(At24(a, c), At24(b, d))
    ensures AtMost(Minus(At24(a, c), At24(b, d)), 0x7fff_ffff)
  {
    hide AtMost, WordLess, Minus, At24, Under24;
    Less24(a, c, b, d);
    Split24(a, c, b, d);
    Asymmetric(c, d);
    MinusZero(a, b);
    if !WordLess(c, d) {
      Bounded24(Minus(a, b), Minus(c, d));
    } else {
      Bounded24(Minus(a, b), Minus(d, c));
    }
  }

  lemma Near24(a: word, c: word, b: word, d: word)
    requires AtMost(c, 0xff_ffff) && AtMost(d, 0xff_ffff) && AtMost(a, 0x7f) && AtMost(b, 0x7f)
    requires Near(a, b, 0x7f) && Near(c, d, 0xff_ffff)
    ensures Near(At24(a, c), At24(b, d), 0x7fff_ffff)
  {
    hide AtMost, WordLess, Minus, At24;
    NearSwaps(a, b, 0x7f);
    NearSwaps(c, d, 0xff_ffff);
    if !WordLess(At24(a, c), At24(b, d)) {
      Difference24(a, c, b, d);
    }
    if !WordLess(At24(b, d), At24(a, c)) {
      Difference24(b, d, a, c);
    }
  }

  lemma NearBytes(c: word, d: word)
    requires AtMost(c, 0xff) && AtMost(d, 0xff)
    ensures Near(c, d, 0xff)
  {
  }

  lemma NearSmall(c: word, d: word)
    requires AtMost(c, 0x7f) && AtMost(d, 0x7f)
    ensures Near(c, d, 0x7f)
  {
  }

  function Field(v: word, k: nat): word {
    if k == 0 then v & 0xff else if k == 1 then (v >> 8) & 0xff else if k == 2 then (v >> 16) & 0xff else v >> 24
  }

  lemma Fields(v: word)
    requires !TopBit(v)
    ensures v == At24(Field(v, 3), At16(Field(v, 2), At8(Field(v, 1), Field(v, 0))))
    ensures AtMost(Field(v, 0), 0xff) && AtMost(Field(v, 1), 0xff) && AtMost(Field(v, 2), 0xff) && AtMost(Field(v, 3), 0x7f)
    ensures AtMost(At8(Field(v, 1), Field(v, 0)), 0xffff)
    ensures AtMost(At16(Field(v, 2), At8(Field(v, 1), Field(v, 0))), 0xff_ffff)
  {
  }

  /** Below 2^31 a difference has its top bit set just when it went below zero. */
  lemma NearWords(v: word, w: word)
    requires !TopBit(v) && !TopBit(w)
    ensures Near(v, w, 0x7fff_ffff)
  {
    hide Near, AtMost, At8, At16, At24, Field, TopBit;
    Fields(v);
    Fields(w);
    NearBytes(Field(v, 0), Field(w, 0));
    NearBytes(Field(v, 1), Field(w, 1));
    NearBytes(Field(v, 2), Field(w, 2));
    NearSmall(Field(v, 3), Field(w, 3));
    var v1, w1 := At8(Field(v, 1), Field(v, 0)), At8(Field(w, 1), Field(w, 0));
    Near8(Field(v, 1), Field(v, 0), Field(w, 1), Field(w, 0));
    Near16(Field(v, 2), v1, Field(w, 2), w1);
    Near24(Field(v, 3), At16(Field(v, 2), v1), Field(w, 3), At16(Field(w, 2), w1));
  }

  // ---------- The laws ----------

  function Low31(a: word): word { a & 0x7fff_ffff }

  lemma BothSet(a: word, b: word)
    requires a & 0x8000_0000 != 0 && b & 0x8000_0000 != 0
    ensures a - b == (a & 0x7fff_ffff) - (b & 0x7fff_ffff)
    ensures a < b <==> (a & 0x7fff_ffff) < (b & 0x7fff_ffff)
  {
  }

  lemma Clear(a: word)
    requires a & 0x8000_0000 == 0
    ensures a & 0x7fff_ffff == a
  {
  }

  lemma LowClear(a: word)
    ensures !TopBit(Low31(a))
  {
  }

  lemma SameTop(a: word, b: word)
    requires TopBit(a) == TopBit(b)
    ensures Minus(a, b) == Minus(Low31(a), Low31(b))
    ensures WordLess(a, b) <==> WordLess(Low31(a), Low31(b))
  {
    if TopBit(a) {
      NamedBothSet(a, b);
    } else {
      Clear(a);
      Clear(b);
      hide Minus, WordLess;
    }
  }

  lemma NamedBothSet(a: word, b: word)
    requires TopBit(a) && TopBit(b)
    ensures Minus(a, b) == Minus(Low31(a), Low31(b))
    ensures WordLess(a, b) <==> WordLess(Low31(a), Low31(b))
  {
    ShownBothSet(a, b);
    hide Minus, WordLess;
  }

  lemma ShownBothSet(a: word, b: word)
    requires TopBit(a) && TopBit(b)
    ensures Minus(a, b) == Minus(a & 0x7fff_ffff, b & 0x7fff_ffff)
    ensures WordLess(a, b) <==> WordLess(a & 0x7fff_ffff, b & 0x7fff_ffff)
  {
    BothSet(a, b);
  }

  lemma DifferentTop(a: word, b: word)
    requires TopBit(a) != TopBit(b)
    ensures WordLess(a, b) <==> TopBit(b)
  {
  }

  lemma Opposite(x: word, y: word)
    ensures x - y == 0 - (y - x)
  {
  }

  lemma MinusOpposite(x: word, y: word)
    ensures Minus(x, y) == 0 - (y - x)
  {
    Opposite(x, y);
  }

  lemma MinusFromZero(x: word, y: word)
    ensures Minus(x, y) == Minus(0, y - x)
  {
    MinusOpposite(x, y);
    assert Minus(0, y - x) == 0 - (y - x);
    hide Minus;
  }

  lemma MinusSwaps(x: word, y: word)
    ensures Minus(x, y) == Minus(0, Minus(y, x))
    ensures Minus(y, x) == 0 <==> x == y
  {
    MinusFromZero(x, y);
    assert Minus(y, x) == y - x;
    hide Minus;
    MinusZero(y, x);
  }

  lemma Negated(d: word)
    requires d != 0 && d <= 0x7fff_ffff
    ensures (0 - d) & 0x8000_0000 != 0
  {
  }

  lemma NegatedTop(d: word)
    requires d != 0 && AtMost(d, 0x7fff_ffff)
    ensures TopBit(Minus(0, d))
  {
    Negated(d);
  }

  lemma SmallTop(d: word)
    ensures AtMost(d, 0x7fff_ffff) <==> !TopBit(d)
  {
  }

  lemma NearNamed(x: word, y: word, m: word)
    requires Near(x, y, m)
    ensures WordLess(x, y) ==> x != y && AtMost(Minus(y, x), m)
    ensures !WordLess(x, y) ==> AtMost(Minus(x, y), m)
  {
    hide AtMost, WordLess, Minus;
    Asymmetric(x, y);
  }

  lemma NearMinus(x: word, y: word)
    requires !TopBit(x) && !TopBit(y)
    ensures WordLess(x, y) ==> x != y && AtMost(Minus(y, x), 0x7fff_ffff)
    ensures !WordLess(x, y) ==> AtMost(Minus(x, y), 0x7fff_ffff)
  {
    hide *;
    NearWords(x, y);
    NearNamed(x, y, 0x7fff_ffff);
  }

  /** The sign of a difference decides the order of two words whose top bits agree. */
  lemma DifferenceSign(a: word, b: word)
    requires TopBit(a) == TopBit(b)
    ensures TopBit(Minus(a, b)) <==> WordLess(a, b)
  {
    hide TopBit, Minus, WordLess, AtMost, Low31;
    var x, y := Low31(a), Low31(b);
    SameTop(a, b);
    LowClear(a);
    LowClear(b);
    NearMinus(x, y);
    SmallTop(Minus(x, y));
    MinusSwaps(x, y);
    if WordLess(x, y) {
      NegatedTop(Minus(y, x));
    }
  }

  lemma UnsignedFormula(a: word, b: word)
    ensures TopBit((!a & b) | ((!a | b) & (a - b))) <==> if TopBit(a) == TopBit(b) then TopBit(Minus(a, b)) else TopBit(b)
  {
  }

  lemma SignedFormula(a: word, b: word)
    ensures TopBit((a & !b) | ((a ^ !b) & (a - b))) <==> if TopBit(a) == TopBit(b) then TopBit(Minus(a, b)) else TopBit(a)
  {
  }

  lemma SltzLaw(a: word)
    ensures CtSltz32(a) == MaskOf(TopBit(a))
  {
  }

  lemma SltuNamed(a: word, b: word)
    ensures CtSltu32(a, b) == MaskOf(WordLess(a, b))
  {
    hide TopBit, CtSltz32, MaskOf, Minus, WordLess;
    UnsignedFormula(a, b);
    SltzLaw((!a & b) | ((!a | b) & (a - b)));
    if TopBit(a) == TopBit(b) {
      DifferenceSign(a, b);
    } else {
      DifferentTop(a, b);
    }
  }

  /** ct_sltu32 is unsigned less-than, for every two words. */
  lemma SltuLaw(a: word, b: word)
    ensures CtSltu32(a, b) == MaskOf(a < b)
  {
    hide CtSltu32, MaskOf;
    SltuNamed(a, b);
  }

  lemma MasksDiffer()
    ensures MaskOf(true) != MaskOf(false)
  {
  }

  lemma SltuwNamed(a: word, b: word)
    ensures CtSltuw(a, b) == MaskOf(if TopBit(a) == TopBit(b) then WordLess(a, b) else !WordLess(a, b))
  {
    hide TopBit, CtSltz32, MaskOf, Minus, WordLess;
    SignedFormula(a, b);
    SltzLaw((a & !b) | ((a ^ !b) & (a - b)));
    if TopBit(a) == TopBit(b) {
      DifferenceSign(a, b);
    } else {
      DifferentTop(a, b);
    }
  }

  /** ct_sltuw, documented as unsigned less-than too, computes it exactly when the top bits agree;
      otherwise it gives the opposite answer, because its formula is the one for signed numbers. */
  lemma SltuwLaw(a: word, b: word)
    ensures CtSltuw(a, b) == MaskOf(if TopBit(a) == TopBit(b) then a < b else !(a < b))
    ensures CtSltuw(a, b) == MaskOf(a < b) <==> TopBit(a) == TopBit(b)
  {
    hide CtSltuw, MaskOf, TopBit;
    MasksDiffer();
    SltuwNamed(a, b);
  }

  lemma ZeroFormula(a: word)
    ensures TopBit(!a & (a - 1)) <==> a == 0
  {
  }

  lemma SeqzLaw(a: word)
    ensures CtSeqz32(a) == MaskOf(a == 0)
  {
    hide TopBit, CtSltz32, MaskOf;
    ZeroFormula(a);
    SltzLaw(!a & (a - 1));
  }

  lemma SeqLaw(a: word, b: word)
    ensures CtSeq32(a, b) == MaskOf(a == b)
  {
    assert a ^ b == 0 <==> a == b;
    hide CtSeqz32, MaskOf;
    SeqzLaw(a ^ b);
  }

  lemma SelectsFirst(a: word, b: word)
    ensures CtCmov32(TRUE32, a, b) == a
  {
  }

  lemma SelectsSecond(a: word, b: word)
    ensures CtCmov32(FALSE32, a, b) == b
  {
  }

  lemma CmovLaw(c: bool, a: word, b: word)
    ensures CtCmov32(MaskOf(c), a, b) == if c then a else b
  {
    hide CtCmov32;
    SelectsFirst(a, b);
    SelectsSecond(a, b);
  }
}

/** The memory routines of memory.c: each walks an unaligned head, a body of aligned words, and a tail. */
module Memory {
  import opened Bytes
  import opened Wrappers

  const NULL: nat := 0

  /** Where the body and the tail start. The body is a whole number of words that are aligned in both buffers;
      buffers that are not aligned alike, or shorter than a word, are all head. */
  function Alignment(left: nat, right: nat, len: nat): (r: (nat, nat))
    ensures r.0 <= r.1 <= len && (r.1 - r.0) % 4 == 0 && len < r.1 + 4
    ensures r.0 < r.1 ==> (left + r.0) % 4 == 0 && (right != NULL ==> (right + r.0) % 4 == 0)
    ensures 4 <= len && (right == NULL || left % 4 == right % 4) ==> r.0 < 4
  {
    var leading :=
      if len < 4 then len
      else if right == NULL || left % 4 == right % 4 then (4 - left % 4) % 4
      else len;
    (leading, leading + (len - leading) / 4 * 4)
  }

  /** i is on a word boundary of the body. */
  ghost predicate OnWord(left: nat, right: nat, tail: nat, i: nat) {
    i <= tail && (tail - i) % 4 == 0 && (i < tail ==> i + 4 <= tail && (left + i) % 4 == 0 && (right != NULL ==> (right + i) % 4 == 0))
  }

  lemma BodyStarts(left: nat, right: nat, len: nat)
    ensures var (body, tail) := Alignment(left, right, len); OnWord(left, right, tail, body)
  {
    hide Alignment;
  }

  lemma NextOnWord(left: nat, right: nat, tail: nat, i: nat)
    requires OnWord(left, right, tail, i) && i < tail
    ensures OnWord(left, right, tail, i + 4)
  {
  }

  lemma OnWordAligned(left: nat, right: nat, tail: nat, i: nat)
    requires OnWord(left, right, tail, i) && i < tail
    ensures i + 4 <= tail && (left + i) % 4 == 0 && (right != NULL ==> (right + i) % 4 == 0)
  {
  }

  /** The same for a walk from the tail down to the body's start. */
  ghost predicate OnWordBack(left: nat, right: nat, body: nat, end: nat) {
    body <= end && (end - body) % 4 == 0
    && (body < end ==> body + 4 <= end && (left + end) % 4 == 0 && (right != NULL ==> (right + end) % 4 == 0))
  }

  lemma BodyEnds(left: nat, right: nat, len: nat)
    ensures var (body, tail) := Alignment(left, right, len); OnWordBack(left, right, body, tail)
  {
    hide Alignment;
  }

  lemma PreviousWord(left: nat, right: nat, body: nat, end: nat)
    requires OnWordBack(left, right, body, end) && body < end
    ensures body + 4 <= end && (left + end - 4) % 4 == 0 && (right != NULL ==> (right + end - 4) % 4 == 0)
    ensures OnWordBack(left, right, body, end - 4)
  {
  }

  /** A word load; the address must be aligned and the whole word inside the buffer. */
  function Load(s: seq<byte>, addr: nat, i: nat): word
    requires i + 4 <= |s| && (addr + i) % 4 == 0
  {
    ReadWord(s, i)
  }

  // ---------- Comparison ----------

  const LESS: int := -42
  const EQUAL: int := 0
  const GREATER: int := 42

  /** Byte-wise lexicographic order: at the first difference the left byte is smaller. */
  ghost predicate LexLess(l: seq<byte>, r: seq<byte>)
    requires |l| == |r|
  {
    exists k :: 0 <= k < |l| && ByteLess(l[k], r[k]) && forall i :: 0 <= i < k ==> l[i] == r[i]
  }

  lemma LexLessAt(l: seq<byte>, r: seq<byte>, k: nat)
    requires k < |l| == |r| && l[..k] == r[..k] && ByteLess(l[k], r[k])
    ensures LexLess(l, r) && !LexLess(r, l) && l != r
  {
    assert forall i :: 0 <= i < k ==> l[i] == l[..k][i] == r[..k][i];
    forall j | 0 <= j < |r| && forall i :: 0 <= i < j ==> r[i] == l[i]
      ensures !ByteLess(r[j], l[j])
    {
      if j == k {
        LessAsymmetric(l[k], r[k]);
      } else {
        NotLessSelf(l[k]);
        NotLessSelf(l[j]);
      }
    }
    NotLessSelf(l[k]);
  }

  lemma LessAsymmetric(a: byte, b: byte)
    ensures ByteLess(a, b) ==> !ByteLess(b, a)
  {
  }

  lemma LexIrreflexive(l: seq<byte>)
    ensures !LexLess(l, l)
  {
  }

  /** The number a buffer denotes, least significant byte first. */
  function LeValue(s: seq<byte>): nat {
    if s == [] then 0 else Val(s[0]) + 0x100 * LeValue(s[1..])
  }

  /** Comparing from the end: the last difference decides the order of the numbers. */
  lemma {:induction false} LeValueLess(l: seq<byte>, r: seq<byte>, k: nat)
    requires k < |l| == |r| && l[k + 1..] == r[k + 1..] && ByteLess(l[k], r[k])
    ensures LeValue(l) < LeValue(r)
    decreases k
  {
    hide Val, ByteLess;
    ByteOrder(l[0], r[0]);
    ByteOrder(r[0], l[0]);
    if k == 0 {
      assert l[1..] == r[1..];
    } else {
      assert l[1..][k..] == l[k + 1..] && r[1..][k..] == r[k + 1..];
      LeValueLess(l[1..], r[1..], k - 1);
    }
  }

  function ByteSwap(w: word): word {
    Le32(ByteAt(w, 3), ByteAt(w, 2), ByteAt(w, 1), ByteAt(w, 0))
  }

  lemma SwappedLoad(b0: byte, b1: byte, b2: byte, b3: byte)
    ensures ByteSwap(Le32(b0, b1, b2, b3)) == Le32(b3, b2, b1, b0)
  {
    hide Le32, ByteAt;
    LoadStore(b0, b1, b2, b3);
    assert WordBytes(Le32(b0, b1, b2, b3))[0] == b0 && WordBytes(Le32(b0, b1, b2, b3))[1] == b1;
    assert WordBytes(Le32(b0, b1, b2, b3))[2] == b2 && WordBytes(Le32(b0, b1, b2, b3))[3] == b3;
  }

  lemma Le32Injective(a: seq<byte>, b: seq<byte>)
    requires |a| == |b| == 4 && Le32(a[0], a[1], a[2], a[3]) == Le32(b[0], b[1], b[2], b[3])
    ensures a == b
  {
    hide Le32, ByteAt, WordBytes;
    LoadStore(a[0], a[1], a[2], a[3]);
    LoadStore(b[0], b[1], b[2], b[3]);
    assert a == [a[0], a[1], a[2], a[3]] && b == [b[0], b[1], b[2], b[3]];
  }

  lemma Le32InjectiveReversed(a: seq<byte>, b: seq<byte>)
    requires |a| == |b| == 4 && Le32(a[3], a[2], a[1], a[0]) == Le32(b[3], b[2], b[1], b[0])
    ensures a == b
  {
    hide Le32;
    Le32Injective([a[3], a[2], a[1], a[0]], [b[3], b[2], b[1], b[0]]);
    assert [a[3], a[2], a[1], a[0]][0] == a[3] && [a[3], a[2], a[1], a[0]][1] == a[2];
    assert [a[3], a[2], a[1], a[0]][2] == a[1] && [a[3], a[2], a[1], a[0]][3] == a[0];
    assert [b[3], b[2], b[1], b[0]][0] == b[3] && [b[3], b[2], b[1], b[0]][1] == b[2];
    assert [b[3], b[2], b[1], b[0]][2] == b[1] && [b[3], b[2], b[1], b[0]][3] == b[0];
  }

  /** Swapped words compare as their four bytes do lexicographically. */
  lemma SwappedWordLess(l: seq<byte>, r: seq<byte>, i: nat)
    requires i + 4 <= |l| == |r| && l[..i] == r[..i]
    requires WordLess(ByteSwap(ReadWord(l, i)), ByteSwap(ReadWord(r, i)))
    ensures LexLess(l, r) && !LexLess(r, l) && l != r
  {
    hide Le32, WordLess, ByteLess, ByteSwap, LexLess;
    SwappedLoad(l[i], l[i + 1], l[i + 2], l[i + 3]);
    SwappedLoad(r[i], r[i + 1], r[i + 2], r[i + 3]);
    WordOrderByBytes(l[i + 3], l[i + 2], l[i + 1], l[i], r[i + 3], r[i + 2], r[i + 1], r[i]);
    var k := if l[i] != r[i] then i else if l[i + 1] != r[i + 1] then i + 1
             else if l[i + 2] != r[i + 2] then i + 2 else i + 3;
    NotLessSelf(l[i]);
    NotLessSelf(l[i + 1]);
    NotLessSelf(l[i + 2]);
    assert l[..k] == r[..k] by {
      assert forall j :: 0 <= j < i ==> l[j] == l[..i][j] == r[..i][j] == r[j];
    }
    LexLessAt(l, r, k);
  }

  lemma NotLessSelf(b: byte)
    ensures !ByteLess(b, b)
  {
  }

  lemma SwappedWordsEqual(l: seq<byte>, r: seq<byte>, i: nat)
    requires i + 4 <= |l| == |r| && l[..i] == r[..i]
    requires ByteSwap(ReadWord(l, i)) == ByteSwap(ReadWord(r, i))
    ensures l[..i + 4] == r[..i + 4]
  {
    hide Le32, ByteSwap;
    SwappedLoad(l[i], l[i + 1], l[i + 2], l[i + 3]);
    SwappedLoad(r[i], r[i + 1], r[i + 2], r[i + 3]);
    Le32InjectiveReversed(l[i..i + 4], r[i..i + 4]);
    assert l[..i + 4] == l[..i] + l[i..i + 4] && r[..i + 4] == r[..i] + r[i..i + 4];
  }

  /** Words compare as the numbers their four bytes denote, when everything after them is equal. */
  lemma LoadedWordLess(l: seq<byte>, r: seq<byte>, i: nat)
    requires i + 4 <= |l| == |r| && l[i + 4..] == r[i + 4..]
    requires WordLess(ReadWord(l, i), ReadWord(r, i))
    ensures LeValue(l) < LeValue(r)
  {
    hide Le32, WordLess, ByteLess, LeValue;
    WordOrderByBytes(l[i], l[i + 1], l[i + 2], l[i + 3], r[i], r[i + 1], r[i + 2], r[i + 3]);
    var k := if l[i + 3] != r[i + 3] then i + 3 else if l[i + 2] != r[i + 2] then i + 2
             else if l[i + 1] != r[i + 1] then i + 1 else i;
    NotLessSelf(l[i + 3]);
    NotLessSelf(l[i + 2]);
    NotLessSelf(l[i + 1]);
    assert l[k + 1..] == l[k + 1..i + 4] + l[i + 4..] && r[k + 1..] == r[k + 1..i + 4] + r[i + 4..];
    LeValueLess(l, r, k);
  }

  lemma LoadedWordsEqual(l: seq<byte>, r: seq<byte>, i: nat)
    requires i + 4 <= |l| == |r| && l[i + 4..] == r[i + 4..]
    requires ReadWord(l, i) == ReadWord(r, i)
    ensures l[i..] == r[i..]
  {
    hide Le32;
    Le32Injective(l[i..i + 4], r[i..i + 4]);
    assert l[i..] == l[i..i + 4] + l[i + 4..] && r[i..] == r[i..i + 4] + r[i + 4..];
  }

  lemma WordTrichotomy(v: word, w: word)
    ensures !WordLess(v, w) && !WordLess(w, v) ==> v == w
  {
    assert (WordLess(v, w) <==> v < w) && (WordLess(w, v) <==> w < v);
    hide WordLess, NatOf;
    WordOrder(v, w);
    WordOrder(w, v);
    NatOfInjective(v, w);
  }

  lemma ByteTrichotomy(a: byte, b: byte)
    ensures !ByteLess(a, b) && !ByteLess(b, a) ==> a == b
  {
  }

  /** Section 7.24.4.1 of ISO C11: the sign of byte-wise lexicographic order, for every alignment and length. */
  method MemCmp(lhs: seq<byte>, lhsAddr: nat, rhs: seq<byte>, rhsAddr: nat) returns (order: int)
    requires |lhs| == |rhs|
    requires rhs != [] ==> rhsAddr != NULL
    ensures order == 0 <==> lhs == rhs
    ensures order < 0 <==> LexLess(lhs, rhs)
    ensures order > 0 <==> LexLess(rhs, lhs)
    ensures order in {-42, 0, 42}
  {
    hide WordLess, ByteLess, ByteSwap, ReadWord, LexLess, Alignment, OnWord;
    var len := |lhs|;
    var (body, tail) := Alignment(lhsAddr, rhsAddr, len);
    var i := 0;
    while i < body
      invariant i <= body
      invariant lhs[..i] == rhs[..i]
    {
      ByteTrichotomy(lhs[i], rhs[i]);
      if ByteLess(lhs[i], rhs[i]) {
        LexLessAt(lhs, rhs, i);
        return LESS;
      } else if ByteLess(rhs[i], lhs[i]) {
        LexLessAt(rhs, lhs, i);
        return GREATER;
      }
      i := i + 1;
    }
    BodyStarts(lhsAddr, rhsAddr, len);
    while i < tail
      invariant body <= i <= tail && OnWord(lhsAddr, rhsAddr, tail, i)
      invariant lhs[..i] == rhs[..i]
    {
      OnWordAligned(lhsAddr, rhsAddr, tail, i);
      NextOnWord(lhsAddr, rhsAddr, tail, i);
      var l := ByteSwap(Load(lhs, lhsAddr, i));
      var r := ByteSwap(Load(rhs, rhsAddr, i));
      WordTrichotomy(l, r);
      if WordLess(l, r) {
        SwappedWordLess(lhs, rhs, i);
        return LESS;
      } else if WordLess(r, l) {
        SwappedWordLess(rhs, lhs, i);
        return GREATER;
      }
      SwappedWordsEqual(lhs, rhs, i);
      i := i + 4;
    }
    while i < len
      invariant tail <= i <= len
      invariant lhs[..i] == rhs[..i]
    {
      ByteTrichotomy(lhs[i], rhs[i]);
      if ByteLess(lhs[i], rhs[i]) {
        LexLessAt(lhs, rhs, i);
        return LESS;
      } else if ByteLess(rhs[i], lhs[i]) {
        LexLessAt(rhs, lhs, i);
        return GREATER;
      }
      i := i + 1;
    }
    assert lhs[..len] == lhs && rhs[..len] == rhs;
    LexIrreflexive(lhs);
    return EQUAL;
  }

  lemma OneByteMore(l: seq<byte>, r: seq<byte>, i: nat)
    requires i < |l| == |r| && l[i] == r[i] && l[i + 1..] == r[i + 1..]
    ensures l[i..] == r[i..]
  {
    assert l[i..] == [l[i]] + l[i + 1..] && r[i..] == [r[i]] + r[i + 1..];
  }

  /** The same from the end: arithmetic comparison of little-endian buffers of any length. */
  method MemRCmp(lhs: seq<byte>, lhsAddr: nat, rhs: seq<byte>, rhsAddr: nat) returns (order: int)
    requires |lhs| == |rhs|
    requires rhs != [] ==> rhsAddr != NULL
    ensures order == 0 <==> lhs == rhs
    ensures order < 0 <==> LeValue(lhs) < LeValue(rhs)
    ensures order > 0 <==> LeValue(rhs) < LeValue(lhs)
    ensures order in {-42, 0, 42}
  {
    hide WordLess, ByteLess, ReadWord, LeValue, Alignment, OnWordBack;
    var len := |lhs|;
    var (body, tail) := Alignment(lhsAddr, rhsAddr, len);
    var end := len;
    while end > tail
      invariant tail <= end <= len
      invariant lhs[end..] == rhs[end..]
    {
      var i := end - 1;
      ByteTrichotomy(lhs[i], rhs[i]);
      if ByteLess(lhs[i], rhs[i]) {
        LeValueLess(lhs, rhs, i);
        return LESS;
      } else if ByteLess(rhs[i], lhs[i]) {
        LeValueLess(rhs, lhs, i);
        return GREATER;
      }
      OneByteMore(lhs, rhs, i);
      end := end - 1;
    }
    BodyEnds(lhsAddr, rhsAddr, len);
    while end > body
      invariant body <= end <= tail && OnWordBack(lhsAddr, rhsAddr, body, end)
      invariant lhs[end..] == rhs[end..]
    {
      PreviousWord(lhsAddr, rhsAddr, body, end);
      var i := end - 4;
      var l := Load(lhs, lhsAddr, i);
      var r := Load(rhs, rhsAddr, i);
      WordTrichotomy(l, r);
      if WordLess(l, r) {
        LoadedWordLess(lhs, rhs, i);
        return LESS;
      } else if WordLess(r, l) {
        LoadedWordLess(rhs, lhs, i);
        return GREATER;
      }
      LoadedWordsEqual(lhs, rhs, i);
      end := end - 4;
    }
    while end > 0
      invariant 0 <= end <= body
      invariant lhs[end..] == rhs[end..]
    {
      var i := end - 1;
      ByteTrichotomy(lhs[i], rhs[i]);
      if ByteLess(lhs[i], rhs[i]) {
        LeValueLess(lhs, rhs, i);
        return LESS;
      } else if ByteLess(rhs[i], lhs[i]) {
        LeValueLess(rhs, lhs, i);
        return GREATER;
      }
      OneByteMore(lhs, rhs, i);
      end := end - 1;
    }
    assert lhs[0..] == lhs && rhs[0..] == rhs;
    return EQUAL;
  }

  // ---------- Search ----------

  function RepeatByte(b: byte): word {
    ((b as word) << 24) | ((b as word) << 16) | ((b as word) << 8) | (b as word)
  }

  /** ones in byte k exactly where the two words agree in byte k. */
  function EqualBits(w: word, v: word): word { !(w ^ v) }

  predicate AllOnes(bits: word, k: nat)
    requires k < 4
  {
    ByteAt(bits, k) == 0xff
  }

  lemma EqualByte(w: word, v: word)
    ensures AllOnes(EqualBits(w, v), 0) <==> ByteAt(w, 0) == ByteAt(v, 0)
    ensures AllOnes(EqualBits(w, v), 1) <==> ByteAt(w, 1) == ByteAt(v, 1)
    ensures AllOnes(EqualBits(w, v), 2) <==> ByteAt(w, 2) == ByteAt(v, 2)
    ensures AllOnes(EqualBits(w, v), 3) <==> ByteAt(w, 3) == ByteAt(v, 3)
  {
  }

  lemma RepeatedBytes(b: byte)
    ensures WordBytes(RepeatByte(b)) == [b, b, b, b]
  {
    var w := RepeatByte(b);
    assert ByteAt(w, 0) == b && ByteAt(w, 1) == b;
    assert ByteAt(w, 2) == b && ByteAt(w, 3) == b;
  }

  /** Which of four loaded bytes equal b. */
  lemma AgreeingByte(s: seq<byte>, i: nat, b: byte)
    requires i + 4 <= |s|
    ensures var bits := EqualBits(ReadWord(s, i), RepeatByte(b));
            && (AllOnes(bits, 0) <==> s[i] == b) && (AllOnes(bits, 1) <==> s[i + 1] == b)
            && (AllOnes(bits, 2) <==> s[i + 2] == b) && (AllOnes(bits, 3) <==> s[i + 3] == b)
  {
    hide Le32, RepeatByte, EqualBits, AllOnes, ByteAt;
    LoadStore(s[i], s[i + 1], s[i + 2], s[i + 3]);
    RepeatedBytes(b);
    var w, v := ReadWord(s, i), RepeatByte(b);
    assert WordBytes(w)[0] == s[i] && WordBytes(w)[1] == s[i + 1] && WordBytes(w)[2] == s[i + 2] && WordBytes(w)[3] == s[i + 3];
    assert WordBytes(v)[0] == b && WordBytes(v)[1] == b && WordBytes(v)[2] == b && WordBytes(v)[3] == b;
    EqualByte(w, v);
  }

  /** The first occurrence of a byte, or nothing when it does not occur. */
  method MemChr(s: seq<byte>, addr: nat, value: byte) returns (r: Option<nat>)
    ensures r == None <==> value !in s
    ensures r.Some? ==> r.value < |s| && s[r.value] == value && forall k :: 0 <= k < r.value ==> s[k] != value
  {
    hide ReadWord, RepeatByte, EqualBits, AllOnes, Alignment, OnWord, OnWordBack;
    var (body, tail) := Alignment(addr, NULL, |s|);
    var i := 0;
    while i < body
      invariant i <= body && (forall k :: 0 <= k < i ==> s[k] != value)
    {
      if s[i] == value {
        return Some(i);
      }
      i := i + 1;
    }
    var value32 := RepeatByte(value);
    BodyStarts(addr, NULL, |s|);
    while i < tail
      invariant body <= i <= tail && OnWord(addr, NULL, tail, i) && (forall k :: 0 <= k < i ==> s[k] != value)
    {
      OnWordAligned(addr, NULL, tail, i);
      NextOnWord(addr, NULL, tail, i);
      var bitsEq := EqualBits(Load(s, addr, i), value32);
      AgreeingByte(s, i, value);
      if AllOnes(bitsEq, 0) {
        return Some(i);
      }
      if AllOnes(bitsEq, 1) {
        return Some(i + 1);
      }
      if AllOnes(bitsEq, 2) {
        return Some(i + 2);
      }
      if AllOnes(bitsEq, 3) {
        return Some(i + 3);
      }
      i := i + 4;
    }
    while i < |s|
      invariant tail <= i <= |s| && (forall k :: 0 <= k < i ==> s[k] != value)
    {
      if s[i] == value {
        return Some(i);
      }
      i := i + 1;
    }
    return None;
  }

  /** The last occurrence of a byte, or nothing when it does not occur. */
  method MemRChr(s: seq<byte>, addr: nat, value: byte) returns (r: Option<nat>)
    ensures r == None <==> value !in s
    ensures r.Some? ==> r.value < |s| && s[r.value] == value && forall k :: r.value < k < |s| ==> s[k] != value
  {
    hide ReadWord, RepeatByte, EqualBits, AllOnes, Alignment, OnWord, OnWordBack;
    var (body, tail) := Alignment(addr, NULL, |s|);
    var end := |s|;
    while end > tail
      invariant tail <= end <= |s| && (forall k :: end <= k < |s| ==> s[k] != value)
    {
      var i := end - 1;
      if s[i] == value {
        return Some(i);
      }
      end := end - 1;
    }
    var value32 := RepeatByte(value);
    BodyEnds(addr, NULL, |s|);
    while end > body
      invariant body <= end <= tail && OnWordBack(addr, NULL, body, end) && (forall k :: end <= k < |s| ==> s[k] != value)
    {
      PreviousWord(addr, NULL, body, end);
      var i := end - 4;
      var bitsEq := EqualBits(Load(s, addr, i), value32);
      AgreeingByte(s, i, value);
      if AllOnes(bitsEq, 3) {
        return Some(i + 3);
      }
      if AllOnes(bitsEq, 2) {
        return Some(i + 2);
      }
      if AllOnes(bitsEq, 1) {
        return Some(i + 1);
      }
      if AllOnes(bitsEq, 0) {
        return Some(i);
      }
      end := end - 4;
    }
    while end > 0
      invariant 0 <= end <= body && (forall k :: end <= k < |s| ==> s[k] != value)
    {
      var i := end - 1;
      if s[i] == value {
        return Some(i);
      }
      end := end - 1;
    }
    return None;
  }

  // ---------- Copy and fill ----------

  /** A word store; the address must be aligned and the whole word inside the buffer. */
  method Store(a: array<byte>, addr: nat, i: nat, w: word)
    requires i + 4 <= a.Length && (addr + i) % 4 == 0
    modifies a
    ensures a[..] == old(a[..])[i := WordBytes(w)[0]][i + 1 := WordBytes(w)[1]][i + 2 := WordBytes(w)[2]][i + 3 := WordBytes(w)[3]]
  {
    hide ByteAt;
    var b := WordBytes(w);
    a[i], a[i + 1], a[i + 2], a[i + 3] := b[0], b[1], b[2], b[3];
  }

  /** The first n bytes come from s; the others are as before. */
  ghost predicate Overwritten(after: seq<byte>, before: seq<byte>, s: seq<byte>, n: nat)
    requires n <= |s|
  {
    && n <= |after| == |before|
    && (forall k :: 0 <= k < n ==> after[k] == s[k])
    && (forall k :: n <= k < |after| ==> after[k] == before[k])
  }

  lemma OneMore(now: seq<byte>, before: seq<byte>, s: seq<byte>, n: nat)
    requires n < |s| && n < |now| && Overwritten(now, before, s, n)
    ensures Overwritten(now[n := s[n]], before, s, n + 1)
  {
  }

  lemma FourMore(now: seq<byte>, before: seq<byte>, s: seq<byte>, n: nat)
    requires n + 4 <= |s| && n + 4 <= |now| && Overwritten(now, before, s, n)
    ensures Overwritten(now[n := s[n]][n + 1 := s[n + 1]][n + 2 := s[n + 2]][n + 3 := s[n + 3]], before, s, n + 4)
  {
  }

  lemma NothingOverwritten(before: seq<byte>, s: seq<byte>)
    ensures Overwritten(before, before, s, 0)
  {
  }

  lemma AllOverwritten(now: seq<byte>, before: seq<byte>, s: seq<byte>, n: nat)
    requires n <= |s| && Overwritten(now, before, s, n)
    ensures n <= |before| && now == s[..n] + before[n..]
  {
  }

  /** Copies len bytes, unless either pointer is null. The buffers do not overlap. */
  method MemCpy(dest: array<byte>, destAddr: nat, src: seq<byte>, srcAddr: nat, len: nat)
    requires len <= dest.Length && len <= |src|
    modifies dest
    ensures dest[..] == if destAddr == NULL || srcAddr == NULL then old(dest[..]) else src[..len] + old(dest[len..])
  {
    if destAddr == NULL || srcAddr == NULL {
      return;
    }
    hide WordBytes, Alignment, ReadWord, Overwritten, OnWord;
    ghost var before := dest[..];
    var (body, tail) := Alignment(destAddr, srcAddr, len);
    var i := 0;
    NothingOverwritten(before, src);
    while i < body
      invariant i <= body
      invariant Overwritten(dest[..], before, src, i)
    {
      OneMore(dest[..], before, src, i);
      dest[i] := src[i];
      i := i + 1;
    }
    BodyStarts(destAddr, srcAddr, len);
    while i < tail
      invariant body <= i <= tail && OnWord(destAddr, srcAddr, tail, i)
      invariant Overwritten(dest[..], before, src, i)
    {
      OnWordAligned(destAddr, srcAddr, tail, i);
      NextOnWord(destAddr, srcAddr, tail, i);
      FourMore(dest[..], before, src, i);
      LoadedBytes(src, i);
      Store(dest, destAddr, i, Load(src, srcAddr, i));
      i := i + 4;
    }
    while i < len
      invariant tail <= i <= len
      invariant Overwritten(dest[..], before, src, i)
    {
      OneMore(dest[..], before, src, i);
      dest[i] := src[i];
      i := i + 1;
    }
    AllOverwritten(dest[..], before, src, len);
  }

  lemma LoadedBytes(s: seq<byte>, i: nat)
    requires i + 4 <= |s|
    ensures var b := WordBytes(ReadWord(s, i));
            b[0] == s[i] && b[1] == s[i + 1] && b[2] == s[i + 2] && b[3] == s[i + 3]
  {
    hide WordBytes, ReadWord;
    ReadWordBytes(s, i);
  }

  /** Sets len bytes. */
  method MemSet(dest: array<byte>, destAddr: nat, value: byte, len: nat)
    requires len <= dest.Length
    modifies dest
    ensures dest[..] == seq(len, _ => value) + old(dest[len..])
  {
    hide RepeatByte, WordBytes, Alignment, Overwritten, OnWord;
    ghost var before, all := dest[..], seq(len, _ => value);
    var (body, tail) := Alignment(destAddr, NULL, len);
    var i := 0;
    NothingOverwritten(before, all);
    while i < body
      invariant i <= body
      invariant Overwritten(dest[..], before, all, i)
    {
      OneMore(dest[..], before, all, i);
      dest[i] := value;
      i := i + 1;
    }
    var value32 := RepeatByte(value);
    BodyStarts(destAddr, NULL, len);
    while i < tail
      invariant body <= i <= tail && OnWord(destAddr, NULL, tail, i)
      invariant Overwritten(dest[..], before, all, i)
    {
      OnWordAligned(destAddr, NULL, tail, i);
      NextOnWord(destAddr, NULL, tail, i);
      FourMore(dest[..], before, all, i);
      RepeatedBytes(value);
      Store(dest, destAddr, i, value32);
      i := i + 4;
    }
    while i < len
      invariant tail <= i <= len
      invariant Overwritten(dest[..], before, all, i)
    {
      OneMore(dest[..], before, all, i);
      dest[i] := value;
      i := i + 1;
    }
    AllOverwritten(dest[..], before, all, len);
  }
}

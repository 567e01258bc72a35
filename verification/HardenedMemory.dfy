/** hardened_memory.c: copying, comparing and xoring buffers in a random order, with every hardened check shown to pass. */
module HardenedMemory {
  import opened Bytes
  import Crc32
  import opened RandomOrder

  const HARDENED_TRUE: word := 0x739
  const HARDENED_FALSE: word := 0x1d4

  /** Elements of the first are taken where the traversal has been, of the second where it has not. */
  ghost predicate Merged<T>(now: seq<T>, done: seq<T>, rest: seq<T>, start: nat, len: nat, count: nat)
    requires len <= |done|
  {
    && |now| == |rest|
    && len <= |now|
    && (forall k :: 0 <= k < len ==> now[k] == if Visited(start, len, count, k) then done[k] else rest[k])
    && (forall k :: len <= k < |now| ==> now[k] == rest[k])
  }

  lemma MergedFirst<T>(done: seq<T>, rest: seq<T>, start: nat, len: nat)
    requires len <= |done| && len <= |rest| && (len > 0 ==> start < len)
    ensures Merged(rest, done, rest, start, len, 0)
  {
  }

  /** Writing the element at the index just handed out extends the finished part by it. */
  lemma MergedStep<T>(now: seq<T>, done: seq<T>, rest: seq<T>, start: nat, len: nat, count: nat, i: nat)
    requires start < len < TWO_32 && count < len <= |done| && i == Nth(start, len, count)
    requires Merged(now, done, rest, start, len, count)
    ensures Merged(now[i := done[i]], done, rest, start, len, count + 1)
    ensures now[i] == rest[i]
  {
    hide Nth, Visited;
    RoundFacts(start, len, count);
  }

  lemma MergedAll<T>(now: seq<T>, done: seq<T>, rest: seq<T>, start: nat, len: nat)
    requires len <= |done| && len <= |rest| && (len > 0 ==> start < len)
    requires Merged(now, done, rest, start, len, len)
    ensures now == done[..len] + rest[len..]
  {
    forall k | 0 <= k < len
      ensures now[k] == done[k]
    {
      AllVisited(start, len, k);
    }
    assert now[..len] == done[..len];
    assert now[len..] == rest[len..];
    assert now == now[..len] + now[len..];
  }

  /** Copies a buffer of words, or of bytes, in a random order. */
  method Copy<T>(dest: array<T>, src: array<T>, len: nat, random: word)
    requires dest != src && len <= dest.Length && len <= src.Length && len < TWO_32
    modifies dest
    ensures dest[..] == src[..len] + old(dest[len..])
  {
    hide Nth, Visited, Merged, NatOf;
    var order := new Order(len, random);
    ghost var start, before, source := order.state, dest[..], src[..];
    MergedFirst(source, before, start, len);
    var count := 0;
    while count < len
      invariant order.Walk(start, len, count)
      invariant src[..] == source
      invariant Merged(dest[..], source, before, start, len, count)
    {
      RoundFacts(start, len, count);
      var i := order.Advance();
      MergedStep(dest[..], source, before, start, len, count, i);
      ghost var now := dest[..];
      dest[i] := src[i];
      assert dest[..] == now[i := source[i]];
      count := count + 1;
    }
    HardenedCheckEq(order.max, order.ctr);
    HardenedCheckEq(count, len);
    MergedAll(dest[..], source, before, start, len);
  }

  /** When the traversal reaches k. */
  function Rank(start: nat, len: nat, k: nat): (j: nat)
    requires start < len && k < len
    ensures j < len
  {
    if start <= k then k - start else k + len - start
  }

  lemma RankOfNth(start: nat, len: nat, j: nat)
    requires start < len && j < len
    ensures Rank(start, len, Nth(start, len, j)) == j
  {
    NthCases(start, len, j);
  }

  /** Random words in the order in which the traversal writes them. */
  function Drawn(words: seq<word>, start: nat, len: nat): (r: seq<word>)
    requires len <= |words| && (len > 0 ==> start < len)
    ensures |r| == len
  {
    seq(len, k requires 0 <= k < len => words[Rank(start, len, k)])
  }

  /** They are all used, each once. */
  lemma DrawnShuffles(words: seq<word>, start: nat, len: nat)
    requires |words| == len && (len > 0 ==> start < len)
    ensures multiset(Drawn(words, start, len)) == multiset(words)
  {
    if len > 0 {
      var cut := len - start;
      assert Drawn(words, start, len) == words[cut..] + words[..cut];
      assert words == words[..cut] + words[cut..];
    }
  }

  function Start(len: nat, random: word): (s: nat)
    ensures len > 0 ==> s < len
  {
    if len > 0 then NatOf(random) % len else 0
  }

  /** Overwrites every word of a buffer with a random word of its own. */
  method Shred(dest: array<word>, len: nat, random: word, words: seq<word>)
    requires len <= dest.Length && len < TWO_32 && |words| == len
    modifies dest
    ensures dest[..] == Drawn(words, Start(len, random), len) + old(dest[len..])
    ensures multiset(dest[..len]) == multiset(words)
  {
    hide Nth, Visited, Merged, NatOf, Rank;
    var order := new Order(len, random);
    ghost var start, before := Start(len, random), dest[..];
    ghost var done := Drawn(words, start, len);
    MergedFirst(done, before, start, len);
    var count := 0;
    while count < len
      invariant order.Walk(start, len, count)
      invariant Merged(dest[..], done, before, start, len, count)
    {
      RoundFacts(start, len, count);
      RankOfNth(start, len, count);
      var i := order.Advance();
      MergedStep(dest[..], done, before, start, len, count, i);
      ghost var now := dest[..];
      dest[i] := words[count];
      assert dest[..] == now[i := done[i]];
      count := count + 1;
    }
    HardenedCheckEq(order.max, order.ctr);
    HardenedCheckEq(count, len);
    MergedAll(dest[..], done, before, start, len);
    DrawnShuffles(words, start, len);
    assert dest[..len] == done;
  }

  // ---------- Equality ----------

  function Inverse(a: word): word { !a }

  /** One round of each of the two accumulators. */
  function Gather(zeros: word, a: word, b: word): word { zeros | (a ^ b) }

  function Keep(ones: word, a: word, b: word): word { ones & (a ^ !b) }

  lemma GatherZero(z: word, a: word, b: word)
    ensures z | (a ^ b) == 0 <==> z == 0 && a == b
  {
  }

  lemma KeepComplement(z: word, a: word, b: word)
    ensures !z & (a ^ !b) == !(z | (a ^ b))
  {
  }

  lemma InverseOnes(z: word)
    ensures !z == 0xffff_ffff <==> z == 0
  {
  }

  lemma AccumulatorLaws(zeros: word, a: word, b: word)
    ensures Gather(zeros, a, b) == 0 <==> zeros == 0 && a == b
    ensures Keep(Inverse(zeros), a, b) == Inverse(Gather(zeros, a, b))
    ensures Inverse(zeros) == 0xffff_ffff <==> zeros == 0
  {
    GatherZero(zeros, a, b);
    KeepComplement(zeros, a, b);
    InverseOnes(zeros);
  }

  /** The two accumulators are complements, and zero says that all elements seen so far agree. */
  ghost predicate Agreement<T>(zeros: word, ones: word, lhs: seq<T>, rhs: seq<T>, start: nat, len: nat, count: nat)
    requires len <= |lhs| && len <= |rhs|
  {
    && ones == Inverse(zeros)
    && (zeros == 0 <==> forall k :: 0 <= k < len && Visited(start, len, count, k) ==> lhs[k] == rhs[k])
  }

  lemma AgreementFirst<T>(lhs: seq<T>, rhs: seq<T>, start: nat, len: nat)
    requires len <= |lhs| && len <= |rhs| && (len > 0 ==> start < len)
    ensures Agreement(0, 0xffff_ffff, lhs, rhs, start, len, 0)
  {
  }

  lemma AgreementStep<T>(zeros: word, ones: word, lhs: seq<T>, rhs: seq<T>, start: nat, len: nat, count: nat,
                         i: nat, a: word, b: word)
    requires start < len < TWO_32 && count < len <= |lhs| && len <= |rhs| && i == Nth(start, len, count)
    requires Agreement(zeros, ones, lhs, rhs, start, len, count)
    requires a == b <==> lhs[i] == rhs[i]
    ensures Agreement(Gather(zeros, a, b), Keep(ones, a, b), lhs, rhs, start, len, count + 1)
  {
    hide Nth, Visited, Gather, Keep, Inverse;
    RoundFacts(start, len, count);
    AccumulatorLaws(zeros, a, b);
  }

  lemma AgreementAll<T>(zeros: word, ones: word, lhs: seq<T>, rhs: seq<T>, start: nat, len: nat)
    requires len <= |lhs| && len <= |rhs| && (len > 0 ==> start < len)
    requires Agreement(zeros, ones, lhs, rhs, start, len, len)
    ensures zeros == 0 <==> lhs[..len] == rhs[..len]
    ensures zeros == 0 <==> ones == 0xffff_ffff
  {
    forall k | 0 <= k < len
      ensures Visited(start, len, len, k)
    {
      AllVisited(start, len, k);
    }
    assert forall k :: 0 <= k < len ==> lhs[k] == lhs[..len][k] && rhs[k] == rhs[..len][k];
    hide Visited, Inverse;
    AccumulatorLaws(zeros, 0, 0);
  }

  /** Decides equality of two buffers of words. */
  method MemEq(lhs: array<word>, rhs: array<word>, len: nat, random: word) returns (r: word)
    requires len <= lhs.Length && len <= rhs.Length && len < TWO_32
    ensures r == if lhs[..len] == rhs[..len] then 0x739 else 0x1d4
  {
    hide Nth, Visited, Agreement, NatOf, Gather, Keep;
    var order := new Order(len, random);
    ghost var start, left, right := order.state, lhs[..], rhs[..];
    var zeros: word, ones: word := 0, 0xffff_ffff;
    AgreementFirst(left, right, start, len);
    var count := 0;
    while count < len
      invariant order.Walk(start, len, count)
      invariant lhs[..] == left && rhs[..] == right
      invariant Agreement(zeros, ones, left, right, start, len, count)
    {
      RoundFacts(start, len, count);
      var i := order.Advance();
      var a, b := lhs[i], rhs[i];
      AgreementStep(zeros, ones, left, right, start, len, count, i, a, b);
      zeros := Gather(zeros, a, b);
      ones := Keep(ones, a, b);
      count := count + 1;
    }
    HardenedCheckEq(order.max, order.ctr);
    HardenedCheckEq(count, len);
    AgreementAll(zeros, ones, left, right, start, len);
    assert lhs[..len] == left[..len] && rhs[..len] == right[..len];
    if zeros == 0 {
      HardenedCheckEq(ones, 0xffff_ffff);
      return HARDENED_TRUE;
    }
    HardenedCheckNe(ones, 0xffff_ffff);
    return HARDENED_FALSE;
  }

  function Widen(b: byte): word { b as word }

  lemma WidenInjective(a: byte, b: byte)
    ensures Widen(a) == Widen(b) <==> a == b
  {
  }

  /** Decides equality of two byte buffers; this one has no completion check. */
  method ConsttimeMemEqByte(lhs: array<byte>, rhs: array<byte>, len: nat, random: word) returns (r: word)
    requires len <= lhs.Length && len <= rhs.Length && len < TWO_32
    ensures r == if lhs[..len] == rhs[..len] then 0x739 else 0x1d4
  {
    hide Nth, Visited, Agreement, NatOf, Gather, Keep, Widen;
    var zeros: word, ones: word := 0, 0xffff_ffff;
    var order := new Order(len, random);
    ghost var start, left, right := order.state, lhs[..], rhs[..];
    AgreementFirst(left, right, start, len);
    var count := 0;
    while count < len
      invariant order.Walk(start, len, count)
      invariant lhs[..] == left && rhs[..] == right
      invariant Agreement(zeros, ones, left, right, start, len, count)
    {
      RoundFacts(start, len, count);
      var i := order.Advance();
      var a, b := Widen(lhs[i]), Widen(rhs[i]);
      WidenInjective(lhs[i], rhs[i]);
      AgreementStep(zeros, ones, left, right, start, len, count, i, a, b);
      zeros := Gather(zeros, a, b);
      ones := Keep(ones, a, b);
      count := count + 1;
    }
    HardenedCheckEq(count, len);
    AgreementAll(zeros, ones, left, right, start, len);
    assert lhs[..len] == left[..len] && rhs[..len] == right[..len];
    if zeros == 0 {
      HardenedCheckEq(ones, 0xffff_ffff);
      return HARDENED_TRUE;
    }
    HardenedCheckNe(ones, 0xffff_ffff);
    return HARDENED_FALSE;
  }

  // ---------- Exclusive or ----------

  function XorWords(x: seq<word>, y: seq<word>, len: nat): seq<word>
    requires len <= |x| && len <= |y|
  {
    seq(len, k requires 0 <= k < len => Crc32.Xor(x[k], y[k]))
  }

  lemma XorWordsAt(x: seq<word>, y: seq<word>, len: nat)
    requires len <= |x| && len <= |y|
    ensures forall k :: 0 <= k < len ==> XorWords(x, y, len)[k] == x[k] ^ y[k]
  {
  }

  /** The mask cancels. */
  lemma MaskCancels(a: word, b: word, mask: word)
    ensures Crc32.Xor(Crc32.Xor(Crc32.Xor(a, mask), b), mask) == Crc32.Xor(a, b)
  {
    hide Crc32.Xor;
    Crc32.XorSwaps(a, mask, b);
    Crc32.XorCancels(Crc32.Xor(a, b), mask);
  }

  /** One word: masked, combined, unmasked, in three read-modify-writes of dest. */
  method MaskedXor(x: array<word>, y: array<word>, dest: array<word>, rand: array<word>, i: nat)
    requires i < x.Length && i < y.Length && i < dest.Length && i < rand.Length
    requires dest != x && dest != y && dest != rand
    modifies dest
    ensures dest[..] == old(dest[..])[i := Crc32.Xor(x[i], y[i])]
  {
    hide Crc32.Xor;
    MaskCancels(x[i], y[i], rand[i]);
    dest[i] := Crc32.Xor(x[i], rand[i]);
    dest[i] := Crc32.Xor(dest[i], y[i]);
    dest[i] := Crc32.Xor(dest[i], rand[i]);
  }

  /** All words, in the order of a traversal. */
  method MaskedXorAll(x: array<word>, y: array<word>, len: nat, dest: array<word>, rand: array<word>, random: word)
    requires len <= x.Length && len <= y.Length && len <= dest.Length && len <= rand.Length && len < TWO_32
    requires dest != x && dest != y && dest != rand
    modifies dest
    ensures dest[..] == XorWords(x[..], y[..], len) + old(dest[len..])
  {
    hide Nth, Visited, Merged, NatOf, Crc32.Xor;
    var order := new Order(len, random);
    ghost var start, before, left, right := order.state, dest[..], x[..], y[..];
    ghost var done := XorWords(left, right, len);
    MergedFirst(done, before, start, len);
    var count := 0;
    while count < len
      invariant order.Walk(start, len, count)
      invariant x[..] == left && y[..] == right
      invariant Merged(dest[..], done, before, start, len, count)
    {
      RoundFacts(start, len, count);
      var i := order.Advance();
      MergedStep(dest[..], done, before, start, len, count, i);
      MaskedXor(x, y, dest, rand, i);
      count := count + 1;
    }
    HardenedCheckEq(order.max, order.ctr);
    HardenedCheckEq(count, len);
    MergedAll(dest[..], done, before, start, len);
  }

  /** dest receives x xor y; each word is masked with a random word while it is computed. */
  method HardenedXor(x: array<word>, y: array<word>, len: nat, dest: array<word>,
                     randoms: (word, word, word), destWords: seq<word>, maskWords: seq<word>)
    requires len <= x.Length && len <= y.Length && len <= dest.Length && len < TWO_32
    requires dest != x && dest != y && |destWords| == |maskWords| == len
    modifies dest
    ensures dest[..] == XorWords(x[..], y[..], len) + old(dest[len..])
    ensures forall k :: 0 <= k < len ==> dest[k] == x[k] ^ y[k]
  {
    hide NatOf, Crc32.Xor, Drawn, Start;
    ghost var tail := dest[len..];
    Shred(dest, len, randoms.0, destWords);
    assert dest[len..] == tail;
    var rand := new word[len];
    Shred(rand, len, randoms.1, maskWords);
    MaskedXorAll(x, y, len, dest, rand, randoms.2);
    XorWordsAt(x[..], y[..], len);
  }

  /** x receives x xor y. */
  method XorInPlace(x: array<word>, y: array<word>, len: nat, random: word)
    requires len <= x.Length && len <= y.Length && len < TWO_32 && x != y
    modifies x
    ensures x[..] == XorWords(old(x[..]), y[..], len) + old(x[len..])
    ensures forall k :: 0 <= k < len ==> x[k] == old(x[k]) ^ y[k]
  {
    hide Nth, Visited, Merged, NatOf, Crc32.Xor;
    var order := new Order(len, random);
    ghost var start, before, right := order.state, x[..], y[..];
    ghost var done := XorWords(before, right, len);
    MergedFirst(done, before, start, len);
    var count := 0;
    while count < len
      invariant order.Walk(start, len, count)
      invariant y[..] == right
      invariant Merged(x[..], done, before, start, len, count)
    {
      RoundFacts(start, len, count);
      var i := order.Advance();
      MergedStep(x[..], done, before, start, len, count, i);
      ghost var now := x[..];
      x[i] := Crc32.Xor(x[i], y[i]);
      assert x[..] == now[i := done[i]];
      count := count + 1;
    }
    HardenedCheckEq(order.max, order.ctr);
    HardenedCheckEq(count, len);
    MergedAll(x[..], done, before, start, len);
    XorWordsAt(before, right, len);
  }
}

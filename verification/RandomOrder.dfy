/** random_order.c: a traversal of [0, len) that starts at a random index and wraps around once. */
module RandomOrder {
  import opened Bytes
  import opened Hardened

  /** A hardened check traps when its comparison fails, so calling one means showing that it never does. */
  method HardenedCheckEq<T(==)>(a: T, b: T)
    requires a == b
  {
  }

  method HardenedCheckNe<T(==)>(a: T, b: T)
    requires a != b
  {
  }

  method HardenedCheckLe(a: nat, b: nat)
    requires a <= b
  {
  }

  /** The j-th index of a traversal. */
  function Nth(start: nat, len: nat, j: nat): (i: nat)
    requires start < len
    ensures i < len
  {
    (start + j) % len
  }

  /** k is one of the first count indices of the traversal. */
  predicate Visited(start: nat, len: nat, count: nat, k: nat) {
    k < len && (if start <= k then k - start < count else k + len - start < count)
  }

  /** Each step visits one new index. */
  lemma NextVisited(start: nat, len: nat, count: nat)
    requires start < len && count < len
    ensures !Visited(start, len, count, Nth(start, len, count))
    ensures forall k :: Visited(start, len, count + 1, k) <==> Visited(start, len, count, k) || k == Nth(start, len, count)
  {
    NthCases(start, len, count);
  }

  lemma NthCases(start: nat, len: nat, j: nat)
    requires start < len && j <= len
    ensures Nth(start, len, j) == if start + j < len then start + j else start + j - len
  {
    Wrap(start + j, len);
  }

  lemma Wrap(n: nat, len: nat)
    requires 0 < len && n < 2 * len
    ensures n % len == if n < len then n else n - len
  {
  }

  lemma AllVisited(start: nat, len: nat, k: nat)
    requires start < len && k < len
    ensures Visited(start, len, len, k)
  {
  }

  function Range(lo: nat, hi: nat): seq<nat>
    requires lo <= hi
  {
    seq(hi - lo, i requires 0 <= i => lo + i)
  }

  function Traversal(start: nat, len: nat): seq<nat>
    requires start < len
  {
    seq(len, j requires 0 <= j => Nth(start, len, j))
  }

  /** From any starting point the traversal visits every index exactly once. */
  lemma TraversalIsPermutation(start: nat, len: nat)
    requires start < len
    ensures multiset(Traversal(start, len)) == multiset(Range(0, len))
  {
    forall j | 0 <= j < len
      ensures Traversal(start, len)[j] == (Range(start, len) + Range(0, start))[j]
    {
      NthCases(start, len, j);
    }
    assert Traversal(start, len) == Range(start, len) + Range(0, start);
    assert Range(0, len) == Range(0, start) + Range(start, len);
  }

  /** x - y in 32-bit arithmetic. */
  function Wrapped(x: nat, y: nat): (r: nat)
    requires x < TWO_32 && y < TWO_32
    ensures r < TWO_32 && (y <= x ==> r == x - y)
  {
    (x + TWO_32 - y) % TWO_32
  }

  /** The branch-free selection as plain arithmetic. */
  lemma Selected(next: nat, max: nat)
    requires next < TWO_32 && max < TWO_32
    ensures NatOf(CtCmov32(CtSltu32(WordOf(next), WordOf(max)), WordOf(next), WordOf(Wrapped(next, max))))
         == if next < max then next else next - max
  {
    hide *;
    var a, m, b := WordOf(next), WordOf(max), WordOf(Wrapped(next, max));
    SltuLaw(a, m);
    WordOrder(a, m);
    NatWordNat(next);
    NatWordNat(max);
    NatWordNat(Wrapped(next, max));
    SmallMod(next);
    SmallMod(max);
    SmallMod(Wrapped(next, max));
    CmovLaw(a < m, a, b);
  }

  lemma SmallMod(n: nat)
    requires n < TWO_32
    ensures n % TWO_32 == n
  {
  }

  lemma NthFirst(start: nat, len: nat)
    requires start < len
    ensures Nth(start, len, 0) == start
  {
  }

  lemma NthStep(start: nat, len: nat, j: nat)
    requires start < len && j < len
    ensures Nth(start, len, j + 1) == (Nth(start, len, j) + 1) % len
  {
    NthCases(start, len, j);
    NthCases(start, len, j + 1);
    hide Nth;
    Wrap(Nth(start, len, j) + 1, len);
  }

  /** The facts one round of a traversal loop needs. */
  lemma RoundFacts(start: nat, len: nat, count: nat)
    requires start < len < TWO_32 && count < len
    ensures Nth(start, len, count + 1) == (Nth(start, len, count) + 1) % len
    ensures (count + 1) % TWO_32 == count + 1
    ensures !Visited(start, len, count, Nth(start, len, count))
    ensures forall k :: Visited(start, len, count + 1, k) <==> Visited(start, len, count, k) || k == Nth(start, len, count)
  {
    NthStep(start, len, count);
    SmallMod(count + 1);
    NextVisited(start, len, count);
  }

  /** The next state as the code computes it, in 32-bit arithmetic and without a branch. */
  function NextState(state: nat, max: nat): nat
    requires state < TWO_32 && max < TWO_32
  {
    var next := (state + 1) % TWO_32;
    NatOf(CtCmov32(CtSltu32(WordOf(next), WordOf(max)), WordOf(next), WordOf(Wrapped(next, max))))
  }

  lemma NextStateWraps(state: nat, max: nat)
    requires state < max < TWO_32
    ensures NextState(state, max) == (state + 1) % max
  {
    hide NatOf, WordOf, CtSltu32, CtCmov32, Wrapped;
    SmallMod(state + 1);
    Selected(state + 1, max);
    Wrap(state + 1, max);
  }

  class Order {
    var state: nat
    var max: nat
    var ctr: nat

    ghost predicate Valid()
      reads this
    {
      max < TWO_32 && ctr < TWO_32 && (if max == 0 then state == 0 else state < max)
    }

    /** count indices of the traversal from start have been handed out. */
    ghost predicate Walk(start: nat, len: nat, count: nat)
      reads this
    {
      && Valid() && max == len && ctr == count <= len
      && (len > 0 ==> start < len && state == Nth(start, len, count))
    }

    /** Starts a traversal of minLen indices at a place chosen by a random word. */
    constructor (minLen: nat, random: word)
      requires minLen < TWO_32
      ensures Valid() && max == minLen && ctr == 0
      ensures minLen > 0 ==> state == NatOf(random) % minLen
      ensures Walk(state, minLen, 0)
    {
      ctr := 0;
      state := if minLen > 0 then NatOf(random) % minLen else 0;
      max := minLen;
      new;
      if max > 0 {
        NthFirst(state, max);
      }
    }

    /** Returns the next index; the successor is selected without a branch, in 32-bit arithmetic. */
    method Advance() returns (out: nat)
      requires Valid() && max > 0
      modifies this
      ensures Valid() && max == old(max)
      ensures out == old(state) && state == (old(state) + 1) % max && ctr == (old(ctr) + 1) % TWO_32
    {
      hide NextState;
      NextStateWraps(state, max);
      out := state;
      state := NextState(state, max);
      ctr := (ctr + 1) % TWO_32;
      HardenedCheckLe(state, max);
    }
  }

  /** What n advances return, starting from state. */
  function Outputs(state: nat, max: nat, n: nat): (r: seq<nat>)
    requires state < max < TWO_32
    ensures |r| == n
    decreases n
  {
    if n == 0 then []
    else
      NextStateWraps(state, max);
      [state] + Outputs(NextState(state, max), max, n - 1)
  }

  lemma {:induction false} OutputsFollowTraversal(state: nat, max: nat, n: nat, j: nat)
    requires state < max < TWO_32 && j < n <= max
    ensures Outputs(state, max, n)[j] == Nth(state, max, j)
    decreases n
  {
    hide NextState, Nth;
    NextStateWraps(state, max);
    NthCases(state, max, j);
    if j > 0 {
      Wrap(state + 1, max);
      NthCases(NextState(state, max), max, j - 1);
      OutputsFollowTraversal(NextState(state, max), max, n - 1, j - 1);
    }
  }

  /** Whatever the random starting word, len advances return every index below len exactly once. */
  lemma AdvancesPermute(len: nat, random: word)
    requires 0 < len < TWO_32
    ensures multiset(Outputs(NatOf(random) % len, len, len)) == multiset(Range(0, len))
  {
    var start := NatOf(random) % len;
    forall j | 0 <= j < len
      ensures Outputs(start, len, len)[j] == Traversal(start, len)[j]
    {
      OutputsFollowTraversal(start, len, len, j);
    }
    assert Outputs(start, len, len) == Traversal(start, len);
    TraversalIsPermutation(start, len);
  }
}

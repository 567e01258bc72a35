/** The coverage report's compression: runs of equal counters, or eight counters packed into one byte.
    The repository only has the encoder; the decoder here is what makes its output mean something. */
module CoverageCodec {
  import opened Bytes
  import opened Crc32Bits
  import opened Wrappers

  const COVERED: byte := 0x00
  const UNCOVERED: byte := 0xff
  const LONGEST_RUN: nat := 0x100_0000

  predicate IsCounter(b: byte) { b == COVERED || b == UNCOVERED }

  predicate AllCounters(d: seq<byte>) {
    forall i :: 0 <= i < |d| ==> IsCounter(d[i])
  }

  /** Length of the run of equal bytes at the front. */
  function Span(d: seq<byte>): (n: nat)
    requires d != []
    ensures 1 <= n <= |d|
    ensures forall i :: 0 <= i < n ==> d[i] == d[0]
    ensures n < |d| ==> d[n] != d[0]
  {
    if |d| > 1 && d[1] == d[0] then
      var m := Span(d[1..]);
      assert forall i :: 0 <= i < m ==> d[1..][i] == d[i + 1];
      m + 1
    else 1
  }

  lemma {:induction false} SpanUnique(d: seq<byte>, n: nat)
    requires d != [] && 1 <= n <= |d|
    requires forall i :: 0 <= i < n ==> d[i] == d[0]
    requires n < |d| ==> d[n] != d[0]
    ensures Span(d) == n
  {
  }

  function ShiftLeft(x: word, k: nat): word
    decreases k
  {
    if k == 0 then x else ShiftLeft(x, k - 1) << 1
  }

  /** What counter b contributes to bit k of a packed byte: (b + 1) << k, cut to a byte. */
  function Term(b: byte, k: nat): byte {
    ByteAt(ShiftLeft((b as word) + 1, k), 0)
  }

  function Or(a: byte, b: byte): byte { a | b }

  /** The first k counters packed. */
  function PackCounters(d: seq<byte>, k: nat): byte
    requires k <= |d|
  {
    if k == 0 then 0 else Or(PackCounters(d, k - 1), Term(d[k - 1], k - 1))
  }

  /** A run: the repeated counter, a length marker, and as many length bytes as the marker says. */
  function Run(tag: byte, n: nat): (r: seq<byte>)
    ensures |r| == if n <= 0xfd then 2 else if n <= 0xffff then 4 else 5
  {
    var w := WordOf(n);
    if n <= 0xfd then [tag, ByteAt(w, 0)]
    else if n <= 0xffff then [tag, 0xfe, ByteAt(w, 0), ByteAt(w, 1)]
    else [tag, 0xff, ByteAt(w, 0), ByteAt(w, 1), ByteAt(w, 2)]
  }

  predicate Packs(d: seq<byte>)
    requires d != []
  {
    Span(d) < 8 && 8 <= |d|
  }

  function Encode(d: seq<byte>): seq<byte>
    decreases |d|
  {
    if d == [] then []
    else if Packs(d) then [PackCounters(d, 8)] + Encode(d[8..])
    else Run(d[0], Span(d)) + Encode(d[Span(d)..])
  }

  // ---------- The decoder ----------

  function Unpack(p: byte): (d: seq<byte>)
    ensures |d| == 8
  {
    var b := ByteBits(p);
    seq(8, k requires 0 <= k < 8 => if b[k] then COVERED else UNCOVERED)
  }

  function Repeat(b: byte, n: nat): (d: seq<byte>)
    ensures |d| == n
  {
    seq(n, _ => b)
  }

  /** The number of bytes a run takes, by its length marker. */
  function RunSize(marker: byte): nat {
    if marker == 0xff then 5 else if marker == 0xfe then 4 else 2
  }

  function RunLength(r: seq<byte>): nat
    requires 2 <= |r| && |r| == RunSize(r[1])
  {
    if r[1] == 0xff then Val(r[2]) + 0x100 * Val(r[3]) + 0x1_0000 * Val(r[4])
    else if r[1] == 0xfe then Val(r[2]) + 0x100 * Val(r[3])
    else Val(r[1])
  }

  function Decode(e: seq<byte>): Option<seq<byte>>
    decreases |e|
  {
    if e == [] then Some([])
    else if !IsCounter(e[0]) then Prepend(Unpack(e[0]), Decode(e[1..]))
    else if |e| < 2 || |e| < RunSize(e[1]) then None
    else
      var n := RunSize(e[1]);
      Prepend(Repeat(e[0], RunLength(e[..n])), Decode(e[n..]))
  }

  function Prepend(d: seq<byte>, rest: Option<seq<byte>>): Option<seq<byte>> {
    match rest
    case None => None
    case Some(t) => Some(d + t)
  }

  // ---------- A packed byte carries its eight counters and is never a run tag ----------

  lemma Terms(b: byte)
    requires IsCounter(b)
    ensures Term(b, 0) == if b == COVERED then 1 else 0
    ensures Term(b, 1) == if b == COVERED then 2 else 0
    ensures Term(b, 2) == if b == COVERED then 4 else 0
    ensures Term(b, 3) == if b == COVERED then 8 else 0
    ensures Term(b, 4) == if b == COVERED then 16 else 0
    ensures Term(b, 5) == if b == COVERED then 32 else 0
    ensures Term(b, 6) == if b == COVERED then 64 else 0
    ensures Term(b, 7) == if b == COVERED then 128 else 0
  {
    ShiftedBits();
    hide ShiftLeft;
    assert (COVERED as word) + 1 == 1 && (UNCOVERED as word) + 1 == 0x100;
  }

  lemma ShiftedBits()
    ensures ShiftLeft(1, 0) == 0x01 && ShiftLeft(0x100, 0) == 0x0100
    ensures ShiftLeft(1, 1) == 0x02 && ShiftLeft(0x100, 1) == 0x0200
    ensures ShiftLeft(1, 2) == 0x04 && ShiftLeft(0x100, 2) == 0x0400
    ensures ShiftLeft(1, 3) == 0x08 && ShiftLeft(0x100, 3) == 0x0800
    ensures ShiftLeft(1, 4) == 0x10 && ShiftLeft(0x100, 4) == 0x1000
    ensures ShiftLeft(1, 5) == 0x20 && ShiftLeft(0x100, 5) == 0x2000
    ensures ShiftLeft(1, 6) == 0x40 && ShiftLeft(0x100, 6) == 0x4000
    ensures ShiftLeft(1, 7) == 0x80 && ShiftLeft(0x100, 7) == 0x8000
  {
  }

  predicate IsBit(t: byte, bit: byte) { t == 0 || t == bit }

  lemma OrBits(t0: byte, t1: byte, t2: byte, t3: byte, t4: byte, t5: byte, t6: byte, t7: byte)
    requires IsBit(t0, Bit(0)) && IsBit(t1, Bit(1)) && IsBit(t2, Bit(2)) && IsBit(t3, Bit(3))
    requires IsBit(t4, Bit(4)) && IsBit(t5, Bit(5)) && IsBit(t6, Bit(6)) && IsBit(t7, Bit(7))
    ensures ByteBits(Or(Or(Or(Or(Or(Or(Or(Or(0, t0), t1), t2), t3), t4), t5), t6), t7))
         == [t0 != 0, t1 != 0, t2 != 0, t3 != 0, t4 != 0, t5 != 0, t6 != 0, t7 != 0]
  {
  }

  lemma PackEight(d: seq<byte>)
    requires |d| == 8
    ensures PackCounters(d, 8)
         == Or(Or(Or(Or(Or(Or(Or(Or(0, Term(d[0], 0)), Term(d[1], 1)), Term(d[2], 2)), Term(d[3], 3)),
                        Term(d[4], 4)), Term(d[5], 5)), Term(d[6], 6)), Term(d[7], 7))
  {
    hide Term, Or;
    var p2 := Or(Or(0, Term(d[0], 0)), Term(d[1], 1));
    var p4 := Or(Or(p2, Term(d[2], 2)), Term(d[3], 3));
    var p6 := Or(Or(p4, Term(d[4], 4)), Term(d[5], 5));
    assert PackCounters(d, 1) == Or(0, Term(d[0], 0));
    assert PackCounters(d, 2) == p2;
    assert PackCounters(d, 3) == Or(p2, Term(d[2], 2));
    assert PackCounters(d, 4) == p4;
    assert PackCounters(d, 5) == Or(p4, Term(d[4], 4));
    assert PackCounters(d, 6) == p6;
    assert PackCounters(d, 7) == Or(p6, Term(d[6], 6));
  }

  /** Eight counters survive packing. */
  lemma UnpackPack(d: seq<byte>)
    requires |d| == 8 && AllCounters(d)
    ensures Unpack(PackCounters(d, 8)) == d
  {
    hide *;
    PackedBits(d);
    SetsMeanCovered(d);
    UnpackBits(PackCounters(d, 8), d);
  }

  // Whether counter b sets bit k.
  predicate Sets(b: byte, k: nat) { Term(b, k) != 0 }

  lemma SetsMeanCovered(d: seq<byte>)
    requires |d| == 8 && AllCounters(d)
    ensures [Sets(d[0], 0), Sets(d[1], 1), Sets(d[2], 2), Sets(d[3], 3),
             Sets(d[4], 4), Sets(d[5], 5), Sets(d[6], 6), Sets(d[7], 7)]
         == seq(8, k requires 0 <= k < 8 => d[k] == COVERED)
  {
    hide Term, Bit, IsBit;
    TermBit(d[0], 0);
    TermBit(d[1], 1);
    TermBit(d[2], 2);
    TermBit(d[3], 3);
    TermBit(d[4], 4);
    TermBit(d[5], 5);
    TermBit(d[6], 6);
    TermBit(d[7], 7);
  }

  lemma UnpackBits(p: byte, d: seq<byte>)
    requires |d| == 8 && AllCounters(d)
    requires ByteBits(p) == seq(8, k requires 0 <= k < 8 => d[k] == COVERED)
    ensures Unpack(p) == d
  {
    hide ByteBits;
  }

  lemma PackedBits(d: seq<byte>)
    requires |d| == 8 && AllCounters(d)
    ensures ByteBits(PackCounters(d, 8))
         == [Sets(d[0], 0), Sets(d[1], 1), Sets(d[2], 2), Sets(d[3], 3),
             Sets(d[4], 4), Sets(d[5], 5), Sets(d[6], 6), Sets(d[7], 7)]
  {
    hide Term, ByteBits, PackCounters, Or, Bit, IsBit;
    TermBit(d[0], 0);
    TermBit(d[1], 1);
    TermBit(d[2], 2);
    TermBit(d[3], 3);
    TermBit(d[4], 4);
    TermBit(d[5], 5);
    TermBit(d[6], 6);
    TermBit(d[7], 7);
    PackEight(d);
    OrBits(Term(d[0], 0), Term(d[1], 1), Term(d[2], 2), Term(d[3], 3),
           Term(d[4], 4), Term(d[5], 5), Term(d[6], 6), Term(d[7], 7));
  }

  // Bit k as a byte.
  function Bit(k: nat): byte {
    if k == 0 then 1 else if k == 1 then 2 else if k == 2 then 4 else if k == 3 then 8
    else if k == 4 then 16 else if k == 5 then 32 else if k == 6 then 64 else 128
  }

  lemma TermBit(b: byte, k: nat)
    requires IsCounter(b) && k < 8
    ensures IsBit(Term(b, k), Bit(k))
    ensures b == if Term(b, k) != 0 then COVERED else UNCOVERED
  {
    hide Term;
    Terms(b);
  }

  /** Eight counters that are not all equal never pack to a run tag: this is what keeps the stream unambiguous. */
  lemma PackedIsNoTag(d: seq<byte>)
    requires |d| == 8 && AllCounters(d)
    requires exists i :: 0 <= i < 8 && d[i] != d[0]
    ensures !IsCounter(PackCounters(d, 8))
  {
    hide ByteBits, PackCounters, Unpack;
    UnpackPack(d);
    TagUnpacksToRun(PackCounters(d, 8));
  }

  lemma TagUnpacksToRun(p: byte)
    ensures IsCounter(p) ==> forall i :: 0 <= i < 8 ==> Unpack(p)[i] == Unpack(p)[0]
  {
    TagBits();
    hide ByteBits;
  }

  lemma TagBits()
    ensures ByteBits(COVERED) == [false, false, false, false, false, false, false, false]
    ensures ByteBits(UNCOVERED) == [true, true, true, true, true, true, true, true]
  {
  }

  // ---------- A run carries its length, modulo 2^24 ----------

  lemma DigitCases(n: nat, v0: nat, v1: nat, v2: nat, v3: nat)
    requires v0 < 0x100 && v1 < 0x100 && v2 < 0x100 && v3 < 0x100
    requires n == v0 + 0x100 * v1 + 0x1_0000 * v2 + 0x100_0000 * v3
    ensures n <= 0xfd ==> v0 == n && n % LONGEST_RUN == n
    ensures n <= 0xffff ==> v0 + 0x100 * v1 == n && n % LONGEST_RUN == n
    ensures n % LONGEST_RUN == v0 + 0x100 * v1 + 0x1_0000 * v2
  {
  }

  lemma MarkerBytes(b: byte)
    ensures Val(b) < 0x100
    ensures b == 0xfe <==> Val(b) == 0xfe
    ensures b == 0xff <==> Val(b) == 0xff
    ensures b < 0xfe <==> Val(b) < 0xfe
  {
    ByteOrder(b, 0xfe);
    ByteOrder(b, 0xff);
    assert Val(0xfe) == 0xfe;
    assert Val(0xff) == 0xff;
  }

  lemma RunCarries(tag: byte, n: nat)
    requires n < TWO_32
    ensures var r := Run(tag, n);
            && r[0] == tag
            && |r| == RunSize(r[1])
            && RunLength(r) == n % 0x100_0000
            && (if n <= 0xfd then |r| == 2 && r[1] < 0xfe else if n <= 0xffff then |r| == 4 && r[1] == 0xfe
                else |r| == 5 && r[1] == 0xff)
  {
    hide WordOf, ByteAt, Val;
    var w := WordOf(n);
    NatWordNat(n);
    MarkerBytes(ByteAt(w, 0));
    MarkerBytes(ByteAt(w, 1));
    MarkerBytes(ByteAt(w, 2));
    MarkerBytes(ByteAt(w, 3));
    DigitCases(n, Val(ByteAt(w, 0)), Val(ByteAt(w, 1)), Val(ByteAt(w, 2)), Val(ByteAt(w, 3)));
  }

  // ---------- Round trip ----------

  /** Every run that the encoder emits as a run is shorter than the longest a run can say. */
  predicate Fits(d: seq<byte>)
    decreases |d|
  {
    if d == [] then true
    else if Packs(d) then Fits(d[8..])
    else Span(d) < LONGEST_RUN && Fits(d[Span(d)..])
  }

  lemma {:induction false} SpanOfRun(d: seq<byte>)
    requires d != []
    ensures d[..Span(d)] == Repeat(d[0], Span(d))
  {
  }

  /** Decoding always succeeds, never invents counters, and loses some exactly when a run was too long. */
  lemma {:induction false} DecodeEncode(d: seq<byte>)
    requires AllCounters(d) && |d| < TWO_32
    ensures Decode(Encode(d)).Some?
    ensures var t := Decode(Encode(d)).value;
            if Fits(d) then t == d else |t| < |d|
    decreases |d|
  {
    hide Decode, Encode, Repeat, Span, IsCounter;
    if d == [] {
      EncodeCases(d);
      DecodeNothing();
    } else if Packs(d) {
      PackedChunk(d);
      DecodeEncode(d[8..]);
      assert d == d[..8] + d[8..];
    } else {
      RunChunk(d);
      SpanOfRun(d);
      DecodeEncode(d[Span(d)..]);
      assert d == d[..Span(d)] + d[Span(d)..];
    }
  }

  /** Eight packed counters decode to themselves. */
  lemma PackedChunk(d: seq<byte>)
    requires d != [] && Packs(d) && AllCounters(d)
    ensures Decode(Encode(d)) == Prepend(d[..8], Decode(Encode(d[8..])))
  {
    hide PackCounters, Decode, Encode, Unpack;
    var h := d[..8];
    EncodeCases(d);
    assert h[Span(d)] != h[0];
    PackedIsNoTag(h);
    UnpackPack(h);
    PackPrefix(d, 8);
    DecodePacked(PackCounters(h, 8), Encode(d[8..]));
  }

  /** A run decodes to itself, cut to what its length field can say. */
  lemma RunChunk(d: seq<byte>)
    requires d != [] && !Packs(d) && AllCounters(d) && |d| < TWO_32
    ensures Decode(Encode(d)) == Prepend(Repeat(d[0], Span(d) % LONGEST_RUN), Decode(Encode(d[Span(d)..])))
  {
    assert IsCounter(d[0]);
    hide *;
    EncodeCases(d);
    RunCarries(d[0], Span(d));
    DecodeRun(Run(d[0], Span(d)), Encode(d[Span(d)..]));
  }

  lemma EncodeCases(d: seq<byte>)
    ensures d == [] ==> Encode(d) == []
    ensures d != [] && Packs(d) ==> Encode(d) == [PackCounters(d, 8)] + Encode(d[8..])
    ensures d != [] && !Packs(d) ==> Encode(d) == Run(d[0], Span(d)) + Encode(d[Span(d)..])
  {
  }

  lemma DecodeNothing()
    ensures Decode([]) == Some([])
  {
  }

  lemma DecodePacked(p: byte, e: seq<byte>)
    requires !IsCounter(p)
    ensures Decode([p] + e) == Prepend(Unpack(p), Decode(e))
  {
    hide Unpack;
    assert ([p] + e)[1..] == e;
  }

  lemma DecodeRun(r: seq<byte>, e: seq<byte>)
    requires 2 <= |r| && |r| == RunSize(r[1]) && IsCounter(r[0])
    ensures Decode(r + e) == Prepend(Repeat(r[0], RunLength(r)), Decode(e))
  {
    hide RunLength, Repeat;
    var s := r + e;
    assert s[0] == r[0] && s[1] == r[1] && s[..|r|] == r && s[|r|..] == e;
  }

  lemma {:induction false} PackPrefix(d: seq<byte>, k: nat)
    requires k <= |d|
    ensures PackCounters(d[..k], k) == PackCounters(d, k)
    decreases k
  {
    hide Term;
    if k > 0 {
      PackPrefix(d, k - 1);
      PackPrefix(d[..k], k - 1);
      assert d[..k][..k - 1] == d[..k - 1];
    }
  }

  /** The round trip holds just when every emitted run fits its length field. */
  lemma RoundTrip(d: seq<byte>)
    requires AllCounters(d) && |d| < TWO_32
    ensures Decode(Encode(d)) == Some(d) <==> Fits(d)
  {
    DecodeEncode(d);
  }

  lemma {:induction false} ShortRunsFit(d: seq<byte>)
    requires forall i :: 0 <= i < |d| ==> Span(d[i..]) < LONGEST_RUN
    ensures Fits(d)
    decreases |d|
  {
    if d != [] {
      assert d[0..] == d;
      var n := if Packs(d) then 8 else Span(d);
      forall i | 0 <= i < |d[n..]|
        ensures Span(d[n..][i..]) < LONGEST_RUN
      {
        assert d[n..][i..] == d[n + i..];
      }
      ShortRunsFit(d[n..]);
    }
  }

  /** Counters whose runs are all shorter than 2^24 are recovered exactly. */
  lemma ShortRunsRoundTrip(d: seq<byte>)
    requires AllCounters(d) && |d| < TWO_32
    requires forall i :: 0 <= i < |d| ==> Span(d[i..]) < 0x100_0000
    ensures Decode(Encode(d)) == Some(d)
  {
    ShortRunsFit(d);
    RoundTrip(d);
  }

  // ---------- Size ----------

  /** The encoding never grows much: a quarter of the input and at most twelve bytes more. */
  lemma {:induction false} EncodeSize(d: seq<byte>)
    ensures 4 * |Encode(d)| <= |d| + 49
    ensures |d| < 8 ==> |Encode(d)| <= 2 * |d|
    decreases |d|
  {
    hide PackCounters, Run;
    if d != [] {
      EncodeSize(if Packs(d) then d[8..] else d[Span(d)..]);
    }
  }

  /** The bound is reached: seven counters that alternate. */
  lemma EncodeSizeTight()
    ensures exists d: seq<byte> :: AllCounters(d) && 4 * |Encode(d)| == |d| + 49
  {
    hide Run;
    var d := [COVERED, UNCOVERED, COVERED, UNCOVERED, COVERED, UNCOVERED, COVERED];
    Alternating(d);
  }

  lemma {:induction false} Alternating(d: seq<byte>)
    requires |d| < 8
    requires forall i :: 0 <= i < |d| - 1 ==> d[i] != d[i + 1]
    ensures |Encode(d)| == 2 * |d|
    decreases |d|
  {
    hide Run;
    if d != [] {
      Alternating(d[1..]);
    }
  }
}

/** kmac_serial.c: the output length appended to the message, and reading the digest. */
module KmacSerial {
  import opened Bytes
  import Crc32
  import MathDiv
  import opened Wrappers

  function Pow256(n: nat): (p: nat)
    ensures p > 0
  {
    if n == 0 then 1 else 0x100 * Pow256(n - 1)
  }

  /** The n low digits of x, base 256, most significant first. */
  function BigEndian(x: nat, n: nat): (s: seq<nat>)
    ensures |s| == n && forall i :: 0 <= i < n ==> s[i] < 0x100
  {
    if n == 0 then [] else [x / Pow256(n - 1) % 0x100] + BigEndian(x, n - 1)
  }

  /** The number a string of digits denotes. */
  function Number(s: seq<nat>): nat {
    if s == [] then 0 else s[0] * Pow256(|s| - 1) + Number(s[1..])
  }

  lemma DigitAbove(x: nat, p: nat)
    requires p > 0
    ensures x % (0x100 * p) == x / p % 0x100 * p + x % p
  {
    var q, r := x / p, x % p;
    var q1, r1 := q / 0x100, q % 0x100;
    assert x == p * q + r && q == 0x100 * q1 + r1;
    Regrouped(p, q1, r1, r);
    SmallRest(p, r1, r);
    assert x == 0x100 * p * q1 + (r1 * p + r);
    ModUnique(x, 0x100 * p, q1, r1 * p + r);
  }

  lemma Regrouped(p: nat, q1: nat, r1: nat, r: nat)
    ensures p * (0x100 * q1 + r1) + r == 0x100 * p * q1 + (r1 * p + r)
  {
  }

  lemma SmallRest(p: nat, r1: nat, r: nat)
    requires r < p && r1 < 0x100
    ensures r1 * p + r < 0x100 * p
  {
    assert r1 * p <= 0xff * p;
  }

  lemma Multiple(m: int, t: int)
    requires m >= 0
    ensures t > 0 ==> m * t >= m
    ensures t < 0 ==> m * t <= -m
  {
  }

  lemma Distributes(m: nat, q: int, q2: int)
    ensures m * (q - q2) == m * q - m * q2
  {
  }

  lemma ModUnique(x: nat, m: nat, q: nat, r: nat)
    requires m > 0 && x == m * q + r && r < m
    ensures x % m == r
  {
    var q2, r2 := x / m, x % m;
    assert x == m * q2 + r2;
    Distributes(m, q, q2);
    Multiple(m, q - q2);
  }

  lemma {:induction false} NumberOfBigEndian(x: nat, n: nat)
    ensures Number(BigEndian(x, n)) == x % Pow256(n)
  {
    if n > 0 {
      NumberOfBigEndian(x, n - 1);
      DigitAbove(x, Pow256(n - 1));
      assert BigEndian(x, n)[1..] == BigEndian(x, n - 1);
    }
  }

  /** The smallest number of digits, at least one, that hold x. */
  function DigitCount(x: nat): (n: nat)
    requires x < TWO_32
    ensures 1 <= n <= 4 && x < Pow256(n) && (n > 1 ==> Pow256(n - 1) <= x)
  {
    Powers();
    1 + (if x > 0xff then 1 else 0) + (if x > 0xffff then 1 else 0) + (if x > 0xff_ffff then 1 else 0)
  }

  lemma Powers()
    ensures Pow256(0) == 1 && Pow256(1) == 0x100 && Pow256(2) == 0x1_0000 && Pow256(3) == 0x100_0000 && Pow256(4) == TWO_32
  {
    assert Pow256(1) == 0x100;
    assert Pow256(2) == 0x1_0000;
    assert Pow256(3) == 0x100_0000;
  }

  /** right_encode of section 2.3.1 of NIST SP 800-185: the digits, then how many. */
  function RightEncode(x: nat): (s: seq<nat>)
    requires x < TWO_32
  {
    BigEndian(x, DigitCount(x)) + [DigitCount(x)]
  }

  /** Reads a right-encoded number off the end of a string: the rest of the string and the number. */
  function RightDecode(s: seq<nat>): (seq<nat>, nat)
    requires s != [] && s[|s| - 1] < |s|
  {
    var n := s[|s| - 1];
    var start := |s| - 1 - n;
    (s[..start], Number(s[start..|s| - 1]))
  }

  /** The encoding can be undone behind any message, so message and length are determined by the string. */
  lemma RightEncodeRoundTrip(message: seq<nat>, x: nat)
    requires x < TWO_32
    ensures var s := message + RightEncode(x); s[|s| - 1] < |s| && RightDecode(s) == (message, x)
  {
    var n := DigitCount(x);
    var s := message + RightEncode(x);
    var start := |s| - 1 - n;
    assert start == |message|;
    assert s[..start] == message;
    assert s[start..|s| - 1] == BigEndian(x, n);
    NumberOfBigEndian(x, n);
    SmallModulo(x, Pow256(n));
  }

  lemma SmallModulo(x: nat, m: nat)
    requires x < m
    ensures x % m == x
  {
  }

  /** No shorter string of digits denotes the number. */
  lemma RightEncodeMinimal(x: nat, digits: seq<nat>)
    requires x < TWO_32 && digits != [] && Number(digits) == x && forall i :: 0 <= i < |digits| ==> digits[i] < 0x100
    ensures |RightEncode(x)| - 1 <= |digits|
  {
    NumberBound(digits);
    if |digits| < DigitCount(x) {
      Pow256Grows(|digits|, DigitCount(x) - 1);
    }
  }

  lemma {:induction false} NumberBound(digits: seq<nat>)
    requires forall i :: 0 <= i < |digits| ==> digits[i] < 0x100
    ensures Number(digits) < Pow256(|digits|)
  {
    if digits != [] {
      NumberBound(digits[1..]);
      SmallRest(Pow256(|digits| - 1), digits[0], Number(digits[1..]));
    }
  }

  lemma {:induction false} Pow256Grows(i: nat, j: nat)
    requires i <= j
    ensures Pow256(i) <= Pow256(j)
    decreases j
  {
    if i < j {
      Pow256Grows(i, j - 1);
    }
  }

  /** The unit reads d * 32 bits off the end of the message exactly when that number fits 32 bits. */
  lemma OutputLengthExact(message: seq<nat>, d: nat)
    ensures var s := message + RightEncode(d * 32 % TWO_32);
            s[|s| - 1] < |s| && (RightDecode(s).1 == d * 32 <==> d < 0x800_0000)
  {
    RightEncodeRoundTrip(message, d * 32 % TWO_32);
  }

  datatype DifResult = Ok | Error | BadArg

  /** The code shifts the number right by 8k bits where the specification takes digit k. */
  lemma {:induction false} ShiftIsDigit(k: nat)
    ensures MathDiv.Pow2(8 * k) == Pow256(k)
  {
    if k > 0 {
      ShiftIsDigit(k - 1);
      assert MathDiv.Pow2(8) == 0x100;
      hide MathDiv.Pow2;
      MathDiv.Pow2Adds(8, 8 * (k - 1));
    }
  }

  /** The unit and the operation state the code keeps. r is the rate in words, d the output length in words. */
  class Kmac {
    var fifo: seq<nat>
    var share0: seq<word>
    var share1: seq<word>
    var r: nat
    var d: nat
    var offset: nat
    var squeezing: bool

    /** Where reading has to stop. */
    function Limit(): nat
      reads this
    {
      if d != 0 && d < r then d else r
    }

    ghost predicate Valid()
      reads this
    {
      r <= |share0| && r <= |share1| && offset <= Limit()
    }

    constructor (share0: seq<word>, share1: seq<word>, r: nat, d: nat)
      requires r <= |share0| && r <= |share1|
      ensures Valid() && this.r == r && this.d == d && offset == 0 && fifo == []
    {
      this.share0, this.share1, this.r, this.d := share0, share1, r, d;
      fifo, offset, squeezing := [], 0, false;
    }

    /** Writes the message, None for a null pointer, and the right-encoded output length in bits, which is computed in
        32-bit arithmetic. Only a completely written message counts as processed. */
    method MsgWrite(message: Option<seq<nat>>, len: nat) returns (result: DifResult, processed: nat)
      requires message.Some? ==> len <= |message.value|
      modifies this`fifo, this`squeezing
      ensures result == BadArg <==> message == None && len != 0
      ensures result == Error <==> result != BadArg && r == 0
      ensures result != Ok ==> processed == 0 && fifo == old(fifo) && squeezing == old(squeezing)
      ensures result == Ok ==> processed == len && squeezing
      ensures result == Ok ==>
                fifo == old(fifo) + (if message.Some? then message.value[..len] else []) + RightEncode(d * 32 % TWO_32)
    {
      hide RightEncode;
      processed := 0;
      if message == None && len != 0 {
        return BadArg, processed;
      }
      if r == 0 {
        return Error, processed;
      }
      if message.Some? {
        WriteBytes(message.value[..len]);
      }
      processed := len;
      WriteLength(d * 32 % TWO_32);
      squeezing := true;
      return Ok, processed;
    }

    method WriteBytes(bytes: seq<nat>)
      modifies this`fifo
      ensures fifo == old(fifo) + bytes
    {
      var i := 0;
      while i < |bytes|
        invariant i <= |bytes| && fifo == old(fifo) + bytes[..i]
      {
        fifo := fifo + [bytes[i]];
        i := i + 1;
      }
      assert bytes[..i] == bytes;
    }

    method WriteLength(bits: nat)
      requires bits < TWO_32
      modifies this`fifo
      ensures fifo == old(fifo) + RightEncode(bits)
    {
      hide BigEndian, DigitCount, Pow256, MathDiv.Pow2;
      var outLen := DigitCount(bits);
      ghost var k := outLen - 1;
      var shift := (outLen - 1) * 8;
      while shift >= 8
        invariant 0 <= k < outLen && shift == 8 * k
        invariant fifo + BigEndian(bits, k + 1) == old(fifo) + BigEndian(bits, outLen)
      {
        BigEndianStep(bits, k);
        ShiftIsDigit(k);
        ghost var digit := bits / Pow256(k) % 0x100;
        assert fifo + BigEndian(bits, k + 1) == fifo + [digit] + BigEndian(bits, k);
        fifo := fifo + [bits / MathDiv.Pow2(shift) % 0x100];
        shift := shift - 8;
        k := k - 1;
      }
      BigEndianStep(bits, 0);
      BigEndianStep0(bits);
      assert fifo + [bits % 0x100] == old(fifo) + BigEndian(bits, outLen);
      fifo := fifo + [bits % 0x100];
      assert fifo + [outLen] == old(fifo) + RightEncode(bits);
      fifo := fifo + [outLen];
    }

    /** The unit holds the digest v masked with m: one share is the mask, the other the masked digest. */
    ghost predicate Shared(v: seq<word>, m: seq<word>)
      reads this
    {
      && |v| == |m| == |share0| == |share1|
      && forall k :: 0 <= k < |v| ==> share0[k] == v[k] ^ m[k] && share1[k] == m[k]
    }

    lemma SharedWord(v: seq<word>, m: seq<word>, i: nat)
      requires Shared(v, m) && i < |v|
      ensures Word(i) == v[i]
    {
      assert share0[i] == Crc32.Xor(v[i], m[i]);
      hide Crc32.Xor;
      Crc32.XorCancels(v[i], m[i]);
    }

    /** Word i of the digest. */
    function Word(i: nat): word
      requires i < |share0| && i < |share1|
      reads this
    {
      Crc32.Xor(share0[i], share1[i])
    }

    /** Reads len words of the digest from the two shares. It succeeds exactly if the unit still holds that many; otherwise it
        has read what there was. */
    method GetDigest(out: array?<word>, len: nat) returns (result: DifResult)
      requires Valid() && (out != null ==> len <= out.Length)
      modifies this`offset, out
      ensures Valid()
      ensures var left := (if d != 0 && d < r then d else r) - old(offset);
              && result == (if out == null && len != 0 then BadArg else if len <= left then Ok else Error)
              && offset == old(offset) + if result == BadArg then 0 else if result == Ok then len else left
      ensures out != null ==>
                forall v, m {:trigger Shared(v, m)} :: Shared(v, m) ==>
                  forall i :: 0 <= i < offset - old(offset) ==> out[i] == v[old(offset) + i]
      ensures out != null ==> forall i :: offset - old(offset) <= i < out.Length ==> out[i] == old(out[i])
    {
      hide Crc32.Xor, Word;
      result := ReadWords(out, len);
      if out != null {
        forall v, m | Shared(v, m)
          ensures forall i :: 0 <= i < offset - old(offset) ==> out[i] == v[old(offset) + i]
        {
          forall i | 0 <= i < offset - old(offset)
            ensures out[i] == v[old(offset) + i]
          {
            SharedWord(v, m, old(offset) + i);
          }
        }
      }
    }

    /** The same, word by word. */
    method ReadWords(out: array?<word>, len: nat) returns (result: DifResult)
      requires Valid() && (out != null ==> len <= out.Length)
      modifies this`offset, out
      ensures Valid()
      ensures result == if out == null && len != 0 then BadArg else if len <= Limit() - old(offset) then Ok else Error
      ensures offset == old(offset) + if result == BadArg then 0 else if result == Ok then len else Limit() - old(offset)
      ensures out != null ==> forall i :: 0 <= i < offset - old(offset) ==> out[i] == Word(old(offset) + i)
      ensures out != null ==> forall i :: offset - old(offset) <= i < out.Length ==> out[i] == old(out[i])
    {
      hide Crc32.Xor;
      if out == null && len != 0 {
        return BadArg;
      }
      var left: nat, pos: nat := len, 0;
      while left > 0
        invariant pos + left == len && offset == old(offset) + pos <= Limit()
        invariant out != null ==> forall i :: 0 <= i < pos ==> out[i] == Word(old(offset) + i)
        invariant out != null ==> forall i :: pos <= i < out.Length ==> out[i] == old(out[i])
      {
        var n := left;
        var remaining := r - offset;
        if d != 0 && d < r {
          remaining := d - offset;
        }
        if n > remaining {
          n := remaining;
        }
        if n == 0 {
          return Error;
        }
        ghost var pos0, offset0 := pos, offset;
        var i := 0;
        while i < n
          invariant i <= n && pos == pos0 + i && offset == offset0
          invariant forall j :: 0 <= j < pos ==> out[j] == Word(old(offset) + j)
          invariant forall j :: pos <= j < out.Length ==> out[j] == old(out[j])
        {
          out[pos] := Word(offset + i);
          pos := pos + 1;
          i := i + 1;
        }
        offset := offset + n;
        left := left - n;
      }
      return Ok;
    }
  }

  lemma BigEndianStep(x: nat, k: nat)
    ensures BigEndian(x, k + 1) == [x / Pow256(k) % 0x100] + BigEndian(x, k)
  {
  }

  lemma BigEndianStep0(x: nat)
    ensures BigEndian(x, 0) == [] && x / Pow256(0) == x
  {
  }
}

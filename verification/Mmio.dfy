/** mmio.c: copying byte ranges to and from memory-mapped I/O with aligned word accesses only. */
module Mmio {
  import opened Bytes

  /** dst with src laid over it from index at. */
  function Spliced(dst: seq<byte>, at: nat, src: seq<byte>): (r: seq<byte>)
    requires at + |src| <= |dst|
    ensures |r| == |dst|
  {
    dst[..at] + src + dst[at + |src|..]
  }

  lemma SplicedAt(dst: seq<byte>, at: nat, src: seq<byte>)
    requires at + |src| <= |dst|
    ensures Spliced(dst, at, src)[at..at + |src|] == src
    ensures forall i :: 0 <= i < |dst| && !(at <= i < at + |src|) ==> Spliced(dst, at, src)[i] == dst[i]
  {
  }

  lemma SplicedNothing(dst: seq<byte>, at: nat)
    requires at <= |dst|
    ensures Spliced(dst, at, []) == dst
  {
  }

  /** Laying the next n bytes behind the first k. */
  lemma SplicedMore(dst: seq<byte>, at: nat, src: seq<byte>, k: nat, n: nat)
    requires at + |src| <= |dst| && k + n <= |src|
    ensures Spliced(Spliced(dst, at, src[..k]), at + k, src[k..k + n]) == Spliced(dst, at, src[..k + n])
  {
  }

  lemma SplicedSplice(dst: seq<byte>, off: nat, mid: seq<byte>, at: nat, src: seq<byte>)
    requires off + |mid| <= |dst| && at + |src| <= |mid| && dst[off..off + |mid|] == mid
    ensures Spliced(dst, off, Spliced(mid, at, src)) == Spliced(dst, off + at, src)
  {
  }

  /** A region that behaves as memory and counts the accesses. */
  class Region {
    const mem: array<byte>
    var loads: nat
    var stores: nat

    constructor (mem: array<byte>)
      ensures this.mem == mem && loads == stores == 0
    {
      this.mem := mem;
      loads, stores := 0, 0;
    }

    /** mmio_region_read32: whole aligned words only. */
    method Read32(off: nat) returns (w: word)
      requires off % 4 == 0 && off + 4 <= mem.Length
      modifies this`loads
      ensures w == ReadWord(mem[..], off) && loads == old(loads) + 1
    {
      w := ReadWord(mem[..], off);
      loads := loads + 1;
    }

    /** mmio_region_write32. */
    method Write32(off: nat, w: word)
      requires off % 4 == 0 && off + 4 <= mem.Length
      modifies this`stores, mem
      ensures mem[..] == Spliced(old(mem[..]), off, WordBytes(w)) && stores == old(stores) + 1
    {
      hide ByteAt;
      ghost var before := mem[..];
      var b := WordBytes(w);
      mem[off], mem[off + 1], mem[off + 2], mem[off + 3] := b[0], b[1], b[2], b[3];
      assert mem[..] == Spliced(before, off, b);
      stores := stores + 1;
    }

    /** Overlays part of the word at off, from byte skip on: read, change, write back. */
    method ModifyWord(off: nat, skip: nat, src: seq<byte>)
      requires off % 4 == 0 && off + 4 <= mem.Length && skip + |src| <= 4
      modifies this`loads, this`stores, mem
      ensures mem[..] == Spliced(old(mem[..]), off + skip, src)
      ensures loads == old(loads) + 1 && stores == old(stores) + 1
    {
      hide ByteAt, Le32;
      var current := Read32(off);
      var b := Spliced(WordBytes(current), skip, src);
      LoadStore(b[0], b[1], b[2], b[3]);
      ReadWordBytes(mem[..], off);
      SplicedSplice(mem[..], off, WordBytes(current), skip, src);
      assert b == [b[0], b[1], b[2], b[3]];
      Write32(off, Le32(b[0], b[1], b[2], b[3]));
    }
  }

  /** dst[pos..] receives src. */
  method CopyBytes(dst: array<byte>, pos: nat, src: seq<byte>)
    requires pos + |src| <= dst.Length
    modifies dst
    ensures dst[..] == Spliced(old(dst[..]), pos, src)
  {
    forall i | 0 <= i < |src| {
      dst[pos + i] := src[i];
    }
  }

  /** k of the bytes are copied. */
  ghost predicate Copied(mem: seq<byte>, buf: seq<byte>, mem0: seq<byte>, buf0: seq<byte>, offset: nat, len: nat, k: nat,
                         fromMmio: bool)
    requires offset + len <= |mem0| && len <= |buf0| && k <= len
  {
    if fromMmio then mem == mem0 && buf == Spliced(buf0, 0, mem0[offset..offset + len][..k])
    else buf == buf0 && mem == Spliced(mem0, offset, buf0[..len][..k])
  }

  lemma CopiedStart(mem0: seq<byte>, buf0: seq<byte>, offset: nat, len: nat, fromMmio: bool)
    requires offset + len <= |mem0| && len <= |buf0|
    ensures Copied(mem0, buf0, mem0, buf0, offset, len, 0, fromMmio)
  {
    SplicedNothing(buf0, 0);
    SplicedNothing(mem0, offset);
  }

  lemma CopiedEnd(mem: seq<byte>, buf: seq<byte>, mem0: seq<byte>, buf0: seq<byte>, offset: nat, len: nat, fromMmio: bool)
    requires offset + len <= |mem0| && len <= |buf0|
    requires Copied(mem, buf, mem0, buf0, offset, len, len, fromMmio)
    ensures fromMmio ==> mem == mem0 && buf == Spliced(buf0, 0, mem0[offset..offset + len])
    ensures !fromMmio ==> buf == buf0 && mem == Spliced(mem0, offset, buf0[..len])
  {
  }

  lemma SliceOfSlice(s: seq<byte>, a: nat, b: nat, k: nat, n: nat)
    requires a <= b <= |s| && a + k + n <= b
    ensures s[a..b][k..k + n] == s[a + k..a + k + n]
  {
    var t := s[a..b];
    assert forall i :: k <= i < k + n ==> t[i] == s[a + i];
  }

  /** Laying the next n bytes of a range of src behind its first k. */
  lemma RangeMore(dst: seq<byte>, at: nat, src: seq<byte>, from: nat, len: nat, k: nat, n: nat)
    requires at + len <= |dst| && from + len <= |src| && k + n <= len
    ensures Spliced(Spliced(dst, at, src[from..from + len][..k]), at + k, src[from + k..from + k + n])
         == Spliced(dst, at, src[from..from + len][..k + n])
  {
    SliceOfSlice(src, from, from + len, k, n);
    SplicedMore(dst, at, src[from..from + len], k, n);
  }

  /** The next n bytes. */
  lemma CopiedMore(mem: seq<byte>, buf: seq<byte>, mem0: seq<byte>, buf0: seq<byte>, offset: nat, len: nat, k: nat, n: nat,
                   fromMmio: bool)
    requires offset + len <= |mem0| && len <= |buf0| && k + n <= len
    requires Copied(mem, buf, mem0, buf0, offset, len, k, fromMmio)
    ensures |mem| == |mem0| && |buf| == |buf0|
    ensures if fromMmio then Copied(mem, Spliced(buf, k, mem[offset + k..offset + k + n]), mem0, buf0, offset, len, k + n, true)
            else Copied(Spliced(mem, offset + k, buf[k..k + n]), buf, mem0, buf0, offset, len, k + n, false)
  {
    hide Spliced;
    if fromMmio {
      RangeMore(buf0, 0, mem0, offset, len, k, n);
    } else {
      RangeMore(mem0, offset, buf0, 0, len, k, n);
      assert buf0[0..0 + len] == buf0[..len];
    }
  }

  /** Moves n bytes at one word: bytes skip.. of the word at off to or from buf[pos..]. A write of a whole word needs no read. */
  method MoveInWord(base: Region, off: nat, skip: nat, buf: array<byte>, pos: nat, n: nat, fromMmio: bool)
    requires off % 4 == 0 && off + 4 <= base.mem.Length && skip + n <= 4 && pos + n <= buf.Length && base.mem != buf
    modifies base, base.mem, buf
    ensures base.mem[..] == (if fromMmio then old(base.mem[..])
                             else Spliced(old(base.mem[..]), off + skip, old(buf[pos..pos + n])))
    ensures buf[..] == (if fromMmio then Spliced(old(buf[..]), pos, old(base.mem[off + skip..off + skip + n]))
                        else old(buf[..]))
    ensures base.loads == old(base.loads) + (if fromMmio || n != 4 then 1 else 0)
  {
    hide ByteAt, Le32, Spliced;
    if fromMmio {
      var current := base.Read32(off);
      ReadWordBytes(base.mem[..], off);
      assert WordBytes(current)[skip..skip + n] == base.mem[off + skip..off + skip + n];
      CopyBytes(buf, pos, WordBytes(current)[skip..skip + n]);
    } else if n != 4 {
      base.ModifyWord(off, skip, buf[pos..pos + n]);
    } else {
      LoadStore(buf[pos], buf[pos + 1], buf[pos + 2], buf[pos + 3]);
      assert buf[pos..pos + 4] == [buf[pos], buf[pos + 1], buf[pos + 2], buf[pos + 3]];
      base.Write32(off, Le32(buf[pos], buf[pos + 1], buf[pos + 2], buf[pos + 3]));
    }
  }

  /** The next n bytes of the copy, which lie in the word at off. */
  method CopyInWord(base: Region, off: nat, skip: nat, buf: array<byte>, k: nat, n: nat, fromMmio: bool,
                    ghost mem0: seq<byte>, ghost buf0: seq<byte>, ghost offset: nat, ghost len: nat)
    requires off % 4 == 0 && off + 4 <= base.mem.Length && skip + n <= 4 && k + n <= len <= buf.Length && base.mem != buf
    requires off + skip == offset + k && offset + len <= |mem0| && len <= |buf0|
    requires Copied(base.mem[..], buf[..], mem0, buf0, offset, len, k, fromMmio)
    modifies base, base.mem, buf
    ensures Copied(base.mem[..], buf[..], mem0, buf0, offset, len, k + n, fromMmio)
    ensures base.loads == old(base.loads) + (if fromMmio || n != 4 then 1 else 0)
  {
    hide Spliced, Copied;
    CopiedMore(base.mem[..], buf[..], mem0, buf0, offset, len, k, n, fromMmio);
    assert base.mem[..][off + skip..off + skip + n] == base.mem[off + skip..off + skip + n];
    assert buf[..][k..k + n] == buf[k..k + n];
    MoveInWord(base, off, skip, buf, k, n, fromMmio);
  }

  lemma Aligned(offset: nat, total: nat)
    requires total % 4 == 0
    ensures offset % 4 < 4 && (offset - offset % 4) % 4 == 0 && (offset + (4 - offset % 4)) % 4 == 0
    ensures offset < total && offset % 4 == 0 ==> offset + 4 <= total && (offset + 4) % 4 == 0
    ensures offset < total ==> offset - offset % 4 + 4 <= total
  {
  }

  /** Copies len bytes from or to the region, one aligned word access after the other. */
  method MemCpy32(base: Region, offset: nat, buf: array<byte>, len: nat, fromMmio: bool)
    requires base.mem != buf && base.mem.Length % 4 == 0
    requires offset + len <= base.mem.Length && len <= buf.Length
    modifies base, base.mem, buf
    ensures base.mem[..] == if fromMmio then old(base.mem[..]) else Spliced(old(base.mem[..]), offset, old(buf[..len]))
    ensures buf[..] == if fromMmio then Spliced(old(buf[..]), 0, old(base.mem[offset..offset + len])) else old(buf[..])
    ensures base.loads <= old(base.loads) + if fromMmio then len / 4 + 2 else 2
  {
    hide Spliced, Copied;
    ghost var mem0, buf0, loads0 := base.mem[..], buf[..], base.loads;
    CopiedStart(mem0, buf0, offset, len, fromMmio);
    var k := 0;
    var misalignment := offset % 4;
    Aligned(offset, base.mem.Length);
    if len != 0 && misalignment != 0 {
      var n := if 4 - misalignment > len then len else 4 - misalignment;
      CopyInWord(base, offset - misalignment, misalignment, buf, 0, n, fromMmio, mem0, buf0, offset, len);
      k := n;
    }
    while k < len
      invariant k <= len && (k < len ==> (offset + k) % 4 == 0)
      invariant Copied(base.mem[..], buf[..], mem0, buf0, offset, len, k, fromMmio)
      invariant if fromMmio then 4 * (base.loads - loads0) <= k + (if k < len then 4 else 8)
                else base.loads - loads0 <= if k < len then 1 else 2
    {
      var n := if 4 > len - k then len - k else 4;
      Aligned(offset + k, base.mem.Length);
      CopyInWord(base, offset + k, 0, buf, k, n, fromMmio, mem0, buf0, offset, len);
      k := k + n;
    }
    CopiedEnd(base.mem[..], buf[..], mem0, buf0, offset, len, fromMmio);
    assert buf0[..len] == old(buf[..len]);
  }

  /** Writing a range and reading it back returns the source, wherever the range lies. */
  method WriteThenRead(base: Region, offset: nat, src: array<byte>, dest: array<byte>, len: nat)
    requires base.mem != src && base.mem != dest && src != dest && base.mem.Length % 4 == 0
    requires offset + len <= base.mem.Length && len <= src.Length && len <= dest.Length
    modifies base, base.mem, src, dest
    ensures dest[..len] == old(src[..len]) && src[..] == old(src[..])
    ensures forall i :: 0 <= i < base.mem.Length && !(offset <= i < offset + len) ==> base.mem[i] == old(base.mem[i])
  {
    hide Spliced;
    ghost var mem0 := base.mem[..];
    MemCpy32(base, offset, src, len, false);
    SplicedAt(mem0, offset, old(src[..len]));
    ghost var mem1, dest1 := base.mem[..], dest[..];
    MemCpy32(base, offset, dest, len, true);
    SplicedAt(dest1, 0, mem1[offset..offset + len]);
    assert forall i :: 0 <= i < base.mem.Length ==> base.mem[i] == mem1[i];
  }
}

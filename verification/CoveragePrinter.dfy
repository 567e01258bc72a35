/** The coverage printer: counters, validity flag, running CRC and console sink, updated in place as in printer.c,
    and what a host can conclude from the stream it prints. */
module CoveragePrinter {
  import opened Bytes
  import opened Crc32
  import opened Crc32Bits
  import opened Crc32Impl
  import opened CoverageCodec
  import opened Wrappers

  const BUILD_ID_SIZE: nat := 20

  /** The little-endian bytes of 0xff65766f43544f81. */
  const MAGIC: seq<byte> := [0x81, 0x4f, 0x54, 0x43, 0x6f, 0x76, 0x65, 0xff]

  /** The report up to its trailer. */
  function Body(buildId: seq<byte>, counters: seq<byte>): seq<byte> {
    MAGIC + buildId + Encode(counters)
  }

  function Stream(buildId: seq<byte>, counters: seq<byte>): seq<byte> {
    Body(buildId, counters) + WordBytes(Crc(Body(buildId, counters)))
  }

  /** The stream byte by byte: the little-endian 0xff65766f43544f81, the build ID, the counters, and last the CRC of all of it,
      least significant byte first. */
  lemma StreamLayout(buildId: seq<byte>, counters: seq<byte>)
    requires |buildId| == 20
    ensures var s := Stream(buildId, counters);
            var n := |s| - 4;
            && n >= 28
            && s[..8] == [0x81, 0x4f, 0x54, 0x43, 0x6f, 0x76, 0x65, 0xff]
            && s[8..28] == buildId
            && s[28..n] == Encode(counters)
            && ReadWord(s, n) == Crc(s[..n])
  {
    hide Crc, Encode, WordBytes, Le32;
    var s, body := Stream(buildId, counters), Body(buildId, counters);
    var n := |s| - 4;
    assert s[..n] == body && s[n..] == WordBytes(Crc(body));
    StoreLoad(Crc(body));
    var w := WordBytes(Crc(body));
    assert s[n] == s[n..][0] && s[n + 1] == s[n..][1] && s[n + 2] == s[n..][2] && s[n + 3] == s[n..][3];
    assert s[..8] == body[..8] && s[8..28] == body[8..28] && s[28..n] == body[28..];
  }

  datatype Report = Report(buildId: seq<byte>, counters: seq<byte>)

  /** What a host accepts: a whole stream with the right magic and check sequence, and counters that decode. */
  function Parse(s: seq<byte>): Option<Report> {
    if |s| < |MAGIC| + BUILD_ID_SIZE + 4 then None
    else
      var body, trailer := s[..|s| - 4], s[|s| - 4..];
      var header := |MAGIC| + BUILD_ID_SIZE;
      if WordBytes(Crc(body)) != trailer || body[..|MAGIC|] != MAGIC then None
      else
        match Decode(body[header..])
        case None => None
        case Some(counters) => Some(Report(body[|MAGIC|..header], counters))
  }

  /** The host recovers exactly the build ID and the counters, just when every emitted run fits its length field. */
  lemma ReportRoundTrip(buildId: seq<byte>, counters: seq<byte>)
    requires |buildId| == BUILD_ID_SIZE && AllCounters(counters) && |counters| < TWO_32
    ensures Parse(Stream(buildId, counters)) == Some(Report(buildId, counters)) <==> Fits(counters)
  {
    hide Crc, Encode, Decode, WordBytes, Fits;
    var body := Body(buildId, counters);
    var s := Stream(buildId, counters);
    assert s[..|s| - 4] == body && s[|s| - 4..] == WordBytes(Crc(body));
    assert body[..8] == MAGIC && body[8..28] == buildId && body[28..] == Encode(counters);
    DecodeEncode(counters);
  }

  /** CRC-32 over the whole stream, trailer included, is a fixed constant. */
  lemma StreamResidue(buildId: seq<byte>, counters: seq<byte>)
    ensures Crc(Stream(buildId, counters)) == 0x2144_DF1C
  {
    hide Crc, WordBytes, Encode;
    FixedResidue(Body(buildId, counters));
    assert Xor(RESIDUE, INIT) == 0x2144_DF1C;
  }

  /** Every accepted stream has that same CRC. */
  lemma AcceptedResidue(s: seq<byte>)
    requires Parse(s).Some?
    ensures Crc(s) == 0x2144_DF1C
  {
    hide Crc, WordBytes, Decode;
    var body := s[..|s| - 4];
    assert s == body + WordBytes(Crc(body));
    FixedResidue(body);
    assert Xor(RESIDUE, INIT) == 0x2144_DF1C;
  }

  /** No stream that differs from a printed one only within 32 consecutive bits, anywhere, is accepted. */
  lemma CorruptReportRejected(buildId: seq<byte>, counters: seq<byte>, s: seq<byte>, from: nat)
    requires s != Stream(buildId, counters) && DifferWithin(Stream(buildId, counters), s, from, 32)
    ensures Parse(s) == None
  {
    hide Crc, Stream, Parse, DifferWithin;
    BurstDetected(Stream(buildId, counters), s, from);
    StreamResidue(buildId, counters);
    if Parse(s).Some? {
      AcceptedResidue(s);
    }
  }

  // The two-word buffers from whose middle the encoder prints a run.

  lemma ShortBuffer(tag: byte, n: nat)
    requires n <= 0xfd
    ensures (WordBytes((tag as word) << 24) + WordBytes(WordOf(n)))[3..5] == Run(tag, n)
  {
    assert ByteAt((tag as word) << 24, 3) == tag;
    hide ByteAt, WordOf;
  }

  lemma MediumBuffer(tag: byte, n: nat)
    requires 0xfd < n <= 0xffff
    ensures (WordBytes(0xfe00_0000 | ((tag as word) << 16)) + WordBytes(WordOf(n)))[2..6] == Run(tag, n)
  {
    var w := 0xfe00_0000 | ((tag as word) << 16);
    assert ByteAt(w, 2) == tag;
    assert ByteAt(w, 3) == 0xfe;
    hide ByteAt, WordOf;
  }

  lemma LongBuffer(tag: byte, n: nat)
    requires 0xffff < n
    ensures (WordBytes(0xff00_0000 | ((tag as word) << 16)) + WordBytes(WordOf(n)))[2..7] == Run(tag, n)
  {
    var w := 0xff00_0000 | ((tag as word) << 16);
    assert ByteAt(w, 2) == tag;
    assert ByteAt(w, 3) == 0xff;
    hide ByteAt, WordOf;
  }

  // What the encoder prints for the counters at the front, and how many of them that covers.
  function Chunk(d: seq<byte>): seq<byte>
    requires d != []
  {
    if Packs(d) then [PackCounters(d, 8)] else Run(d[0], Span(d))
  }

  function ChunkSize(d: seq<byte>): nat
    requires d != []
  {
    if Packs(d) then 8 else Span(d)
  }

  lemma NextChunk(c: word, data: seq<byte>, start: nat, done: seq<byte>)
    requires start < |data| && done + Encode(data[start..]) == Encode(data)
    ensures var rest := data[start..];
            && Chunk(rest) == (if Span(rest) < 8 && 8 <= |rest| then [PackCounters(rest, 8)] else Run(data[start], Span(rest)))
            && ChunkSize(rest) == (if Span(rest) < 8 && 8 <= |rest| then 8 else Span(rest))
            && done + Chunk(rest) + Encode(data[start + ChunkSize(rest)..]) == Encode(data)
            && AddBytes(c, done + Chunk(rest)) == AddBytes(AddBytes(c, done), Chunk(rest))
  {
    hide AddBytes, Encode, Run, PackCounters, Span;
    var rest := data[start..];
    EncodeCases(rest);
    AddBytesConcat(c, done, Chunk(rest));
    assert rest[ChunkSize(rest)..] == data[start + ChunkSize(rest)..];
  }

  class Printer {
    const counters: array<byte>
    const buildId: seq<byte>
    var status: word
    const crc: Context
    /** Everything handed to coverage_printer_sink so far. */
    var sink: seq<byte>

    ghost predicate Valid() {
      |buildId| == BUILD_ID_SIZE && counters.Length % 4 == 0 && counters.Length < TWO_32
    }

    /** The counters are those of this build and were not disturbed. */
    ghost predicate Current()
      requires Valid()
      reads this, counters
    {
      status == ReadWord(buildId, 0) && AllCounters(counters[..])
    }

    constructor (counters: array<byte>, buildId: seq<byte>)
      requires |buildId| == BUILD_ID_SIZE && counters.Length % 4 == 0 && counters.Length < TWO_32
      ensures Valid() && fresh(crc) && this.counters == counters && this.buildId == buildId && sink == []
    {
      this.counters := counters;
      this.buildId := buildId;
      status := 0;
      crc := new Context();
      sink := [];
    }

    /** Prints a buffer that starts at address addr and adds it to the running CRC. */
    method SinkWithCrc(buf: seq<byte>, addr: nat)
      modifies this`sink, crc
      ensures sink == old(sink) + buf
      ensures crc.value == AddBytes(old(crc.value), buf)
    {
      crc.Add(buf, addr);
      sink := sink + buf;
    }

    method CompressRle(tag: byte, size: nat, stack: nat)
      requires size < TWO_32
      modifies this`sink, crc
      ensures sink == old(sink) + Run(tag, size)
      ensures crc.value == AddBytes(old(crc.value), Run(tag, size))
    {
      hide *;
      var length := WordBytes(WordOf(size));
      if size <= 0xfd {
        var buf := WordBytes((tag as word) << 24) + length;
        ShortBuffer(tag, size);
        SinkWithCrc(buf[3..5], stack + 3);
      } else if size <= 0xffff {
        var buf := WordBytes(0xfe00_0000 | ((tag as word) << 16)) + length;
        MediumBuffer(tag, size);
        SinkWithCrc(buf[2..6], stack + 2);
      } else {
        var buf := WordBytes(0xff00_0000 | ((tag as word) << 16)) + length;
        LongBuffer(tag, size);
        SinkWithCrc(buf[2..7], stack + 2);
      }
    }

    method PackEightFrom(data: seq<byte>, start: nat) returns (packed: byte)
      requires start + 8 <= |data|
      ensures packed == PackCounters(data[start..], 8)
    {
      packed := 0;
      var k := 0;
      while k < 8
        invariant k <= 8
        invariant packed == PackCounters(data[start..], k)
      {
        packed := Or(packed, Term(data[start + k], k));
        k := k + 1;
      }
    }

    method Compress(data: seq<byte>, stack: nat)
      requires |data| < TWO_32
      modifies this`sink, crc
      ensures sink == old(sink) + Encode(data)
      ensures crc.value == AddBytes(old(crc.value), Encode(data))
    {
      hide AddBytes, Encode, Run, PackCounters, Chunk, ChunkSize, Span;
      var i := 0;
      ghost var done: seq<byte> := [];
      EmptyFold(crc.value);
      assert data[0..] == data;
      while i < |data|
        invariant i <= |data|
        invariant sink == old(sink) + done
        invariant crc.value == AddBytes(old(crc.value), done)
        invariant done + Encode(data[i..]) == Encode(data)
      {
        var start := i;
        var tag := data[i];
        i := i + 1;
        while i < |data| && data[i] == tag
          invariant start < i <= |data|
          invariant forall k :: start <= k < i ==> data[k] == tag
        {
          i := i + 1;
        }
        var span := i - start;
        SpanUnique(data[start..], span);
        NextChunk(old(crc.value), data, start, done);
        if span < 8 && start + 8 <= |data| {
          var packed := PackEightFrom(data, start);
          SinkWithCrc([packed], stack);
          i := start + 8;
        } else {
          CompressRle(tag, span, stack);
        }
        done := done + Chunk(data[start..]);
      }
      EncodeCases(data[i..]);
      assert done + [] == done;
    }

    /** Clears the stale counters unless the report is already valid. */
    method InitCoverage()
      requires Valid()
      modifies this`status, counters
      ensures Current()
      ensures old(Current()) ==> counters[..] == old(counters[..])
      ensures !old(Current()) ==> forall i :: 0 <= i < counters.Length ==> counters[i] == UNCOVERED
    {
      var valid := IsValid();
      if !valid {
        var p := 0;
        while p < counters.Length
          invariant p <= counters.Length && p % 4 == 0
          invariant forall i :: 0 <= i < p ==> counters[i] == UNCOVERED
        {
          counters[p], counters[p + 1], counters[p + 2], counters[p + 3] := 0xff, 0xff, 0xff, 0xff;
          p := p + 4;
        }
        status := ReadWord(buildId, 0);
      }
    }

    /** Makes the report invalid, except for a build ID that starts with the marker itself: then a report with
        undisturbed counters stays valid. */
    method Invalidate()
      requires Valid()
      modifies this`status
      ensures Current() <==> buildId[..4] == [0x42, 0, 0, 0] && AllCounters(counters[..])
    {
      status := 0x42;
      InvalidateMarker(buildId);
    }

    method IsValid() returns (valid: bool)
      requires Valid()
      ensures valid <==> Current()
      ensures valid <==> status == ReadWord(buildId, 0)
                         && forall i :: 0 <= i < counters.Length ==> counters[i] == 0x00 || counters[i] == 0xff
    {
      if status != ReadWord(buildId, 0) {
        return false;
      }
      var p := 0;
      while p < counters.Length
        invariant p <= counters.Length
        invariant AllCounters(counters[..p])
      {
        var counter := counters[p];
        p := p + 1;
        if counter != 0x00 && counter != 0xff {
          assert !IsCounter(counters[..][p - 1]);
          return false;
        }
      }
      assert counters[..p] == counters[..];
      return true;
    }

    /** Prints the whole report: magic, build ID, compressed counters, and the CRC of all of these. */
    method PrintReport(stack: nat, idAddr: nat)
      requires Valid()
      modifies this`sink, crc
      ensures sink == old(sink) + Stream(buildId, counters[..])
    {
      hide AddBytes, Encode, WordBytes;
      crc.Init();
      SinkWithCrc(MAGIC, stack);
      AddBytesConcat(INIT, MAGIC, buildId);
      SinkWithCrc(buildId, idAddr);
      AddBytesConcat(INIT, MAGIC + buildId, Encode(counters[..]));
      Compress(counters[..], stack);
      var check := crc.Finish();
      crc.value := check;
      sink := sink + WordBytes(check);
    }
  }

  lemma EmptyFold(c: word)
    ensures AddBytes(c, []) == c
  {
  }

  /** The marker is the first word of a build ID that starts with its bytes, and of no other. */
  lemma InvalidateMarker(buildId: seq<byte>)
    requires |buildId| == BUILD_ID_SIZE
    ensures ReadWord(buildId, 0) == 0x42 <==> buildId[..4] == [0x42, 0, 0, 0]
  {
    hide ReadWord, WordBytes;
    ReadWordBytes(buildId, 0);
    MarkerWord();
    if buildId[..4] == [0x42, 0, 0, 0] {
      StoreLoad(ReadWord(buildId, 0));
    }
  }

  lemma MarkerWord()
    ensures WordBytes(0x42) == [0x42, 0, 0, 0]
    ensures ReadWord([0x42, 0, 0, 0], 0) == 0x42
  {
  }
}

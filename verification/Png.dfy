/**
  PNG chunks from two scripts: the writer of the performance gate and the bounded
  checker of the release tool (sections 3.2 and 3.4 of RFC 2083).
 */
module Png {
  import opened Wrappers
  import opened Bytes

  const MAX_DOCUMENTATION_ASSET_BYTES: nat := 5 * 1024 * 1024
  const SIGNATURE: seq<Byte> := [0x89, 0x50, 0x4E, 0x47, 0x0D, 0x0A, 0x1A, 0x0A]
  const IHDR: seq<Byte> := [0x49, 0x48, 0x44, 0x52]
  const IDAT: seq<Byte> := [0x49, 0x44, 0x41, 0x54]
  const IEND: seq<Byte> := [0x49, 0x45, 0x4E, 0x44]

  // ----- CRC-32

  function CrcBit(c: bv32): bv32 {
    if c & 1 == 1 then (c >> 1) ^ 0xEDB88320 else c >> 1
  }

  function CrcByte(c: bv32, b: Byte): bv32 {
    var x := c ^ (b as bv32);
    CrcBit(CrcBit(CrcBit(CrcBit(CrcBit(CrcBit(CrcBit(CrcBit(x))))))))
  }

  function CrcRun(c: bv32, s: seq<Byte>): bv32 {
    if |s| == 0 then c else CrcByte(CrcRun(c, s[..|s| - 1]), s[|s| - 1])
  }

  function Inverted(c: bv32): bv32 {
    c ^ 0xFFFFFFFF
  }

  /** The checksum of `s`, continued from an earlier checksum; a fresh one starts from zero. */
  function Crc32(s: seq<Byte>, start: bv32): bv32 {
    Inverted(CrcRun(Inverted(start), s))
  }

  function CrcNumber(c: bv32): (n: nat)
    ensures n < 0x1_0000_0000
  {
    c as nat
  }

  lemma InvertedTwice(c: bv32)
    ensures Inverted(Inverted(c)) == c
  {
  }

  lemma {:induction false} CrcRunConcat(c: bv32, a: seq<Byte>, b: seq<Byte>)
    ensures CrcRun(c, a + b) == CrcRun(CrcRun(c, a), b)
  {
    if |b| == 0 {
      assert a + b == a;
    } else {
      var m := |b| - 1;
      assert (a + b)[..|a + b| - 1] == a + b[..m];
      CrcRunConcat(c, a, b[..m]);
    }
  }

  /** Continuing a checksum over a second part checks the concatenation. */
  lemma CrcStreams(a: seq<Byte>, b: seq<Byte>)
    ensures Crc32(b, Crc32(a, 0)) == Crc32(a + b, 0)
  {
    InvertedTwice(CrcRun(Inverted(0), a));
    CrcRunConcat(Inverted(0), a, b);
  }

  // ----- writing

  function PngChunk(kind: seq<Byte>, payload: seq<Byte>): seq<Byte> {
    var checksum := CrcNumber(Crc32(payload, Crc32(kind, 0)));
    BigEndian(|payload|, 4) + kind + payload + BigEndian(checksum, 4)
  }

  /** Python's struct.pack(">I", n) raises for a number of more than 32 bits. */
  predicate Packs(n: nat) {
    n < 0x1_0000_0000
  }

  function Header(width: nat, height: nat): seq<Byte> {
    BigEndian(width, 4) + BigEndian(height, 4) + [8, 2, 0, 0, 0]
  }

  function Row(width: nat): seq<Byte> {
    [0] + Repeated([0x35, 0x71, 0xA8], width)
  }

  function Rows(width: nat, height: nat): seq<seq<Byte>> {
    seq(height, _ => Row(width))
  }

  function Repeated(s: seq<Byte>, n: nat): seq<Byte> {
    if n == 0 then [] else Repeated(s, n - 1) + s
  }

  /** An opaque RGB image; `compress` is the compressor over the rows. None where the script raises. */
  function DeterministicPng(width: int, height: int, compress: seq<seq<Byte>> -> seq<Byte>): Option<seq<Byte>> {
    if width <= 0 || height <= 0 || !Packs(width) || !Packs(height) then None
    else
      var pixels := compress(Rows(width, height));
      if !Packs(|pixels|) then None
      else Some(SIGNATURE + PngChunk(IHDR, Header(width, height)) + PngChunk(IDAT, pixels) + PngChunk(IEND, []))
  }

  lemma EndMarkerRun()
    ensures CrcByte(0xFFFFFFFF, 0x49) == 0x22FDE946
    ensures CrcByte(0x22FDE946, 0x45) == 0x992BAC53
    ensures CrcByte(0x992BAC53, 0x4E) == 0x639F4775
    ensures CrcByte(0x639F4775, 0x44) == 0x51BD9F7D
  {
  }

  /** The end marker has the checksum that every PNG file ends with. */
  lemma EndMarkerBytes()
    ensures PngChunk(IEND, []) == [0, 0, 0, 0, 0x49, 0x45, 0x4E, 0x44, 0xAE, 0x42, 0x60, 0x82]
  {
    EndMarkerRun();
    hide CrcByte;
    var s := IEND;
    assert s[..4] == s && s[..4][..3] == s[..3] && s[..3][..2] == s[..2] && s[..2][..1] == s[..1] && s[..1][..0] == [];
    assert CrcRun(0xFFFFFFFF, s[..1]) == 0x22FDE946;
    assert CrcRun(0xFFFFFFFF, s[..2]) == 0x992BAC53;
    assert CrcRun(0xFFFFFFFF, s[..3]) == 0x639F4775;
    assert CrcRun(0xFFFFFFFF, s[..4]) == 0x51BD9F7D;
    assert Crc32(IEND, 0) == 0xAE426082;
    assert Crc32([], 0xAE426082) == 0xAE426082;
    assert CrcNumber(0xAE426082) == 0xAE426082;
    EndMarkerNumber();
  }

  lemma EndMarkerNumber()
    ensures BigEndian(0xAE426082, 4) == [0xAE, 0x42, 0x60, 0x82] && BigEndian(0, 4) == [0, 0, 0, 0]
  {
    assert BigEndian(0xAE, 1) == BigEndian(0, 0) + [0xAE];
    assert BigEndian(0xAE42, 2) == BigEndian(0xAE, 1) + [0x42];
    assert BigEndian(0xAE4260, 3) == BigEndian(0xAE42, 2) + [0x60];
  }

  // ----- checking

  datatype PngError =
    | TooLarge
    | NotPng
    | TruncatedChunk
    | InvalidChunkSize
    | InvalidChecksum
    | NoHeader
    | UnsafeDimensions
    | InvalidEnd
    | MissingEnd

  datatype Chunk = Chunk(kind: seq<Byte>, data: seq<Byte>)

  function Layout(c: Chunk): seq<Byte> {
    PngChunk(c.kind, c.data)
  }

  function Layouts(chunks: seq<Chunk>): seq<Byte> {
    if |chunks| == 0 then [] else Layout(chunks[0]) + Layouts(chunks[1..])
  }

  predicate SafeDimensions(header: seq<Byte>)
    requires |header| >= 8
  {
    1 <= FromBigEndian(header[..4]) <= 16384 && 1 <= FromBigEndian(header[4..8]) <= 16384
  }

  /** One chunk from the front of `s`, whose end is the end of the file. */
  function ReadChunk(s: seq<Byte>): Result<(Chunk, nat), PngError> {
    if |s| < 12 then Err(TruncatedChunk)
    else
      var size := FromBigEndian(s[..4]);
      if size > MAX_DOCUMENTATION_ASSET_BYTES || size + 12 > |s| then Err(InvalidChunkSize)
      else
        var kind, data, crc := s[4..8], s[8..8 + size], s[8 + size..12 + size];
        if CrcNumber(Crc32(kind + data, 0)) != FromBigEndian(crc) then Err(InvalidChecksum)
        else Ok((Chunk(kind, data), 12 + size))
  }

  /** What the checker demands of one chunk, given whether it is the first and whether the file ends with it. */
  function ChunkFault(c: Chunk, first: bool, last: bool): Option<PngError> {
    if first && (c.kind != IHDR || |c.data| != 13) then Some(NoHeader)
    else if first && |c.data| >= 8 && !SafeDimensions(c.data) then Some(UnsafeDimensions)
    else if c.kind == IEND && (|c.data| != 0 || !last) then Some(InvalidEnd)
    else None
  }

  function CheckChunks(s: seq<Byte>, first: bool): Result<seq<Chunk>, PngError>
    decreases |s|
  {
    if |s| == 0 then Err(MissingEnd)
    else match ReadChunk(s)
      case Err(error) => Err(error)
      case Ok((chunk, n)) =>
        if n > |s| || n == 0 then Err(InvalidChunkSize)
        else match ChunkFault(chunk, first, n == |s|)
          case Some(error) => Err(error)
          case None =>
            if chunk.kind == IEND then Ok([chunk])
            else match CheckChunks(s[n..], false)
              case Err(error) => Err(error)
              case Ok(chunks) => Ok([chunk] + chunks)
  }

  function CheckPng(payload: seq<Byte>): Result<seq<Chunk>, PngError> {
    if |payload| > MAX_DOCUMENTATION_ASSET_BYTES then Err(TooLarge)
    else if !(SIGNATURE <= payload) then Err(NotPng)
    else CheckChunks(payload[8..], true)
  }

  /** Read the chunk at `offset`, checking its bounds and its checksum. */
  method ReadChunkAt(payload: seq<Byte>, offset: nat) returns (r: Result<(Chunk, nat), PngError>)
    requires offset <= |payload|
    ensures r == ReadChunk(payload[offset..])
  {
    hide Crc32, CrcNumber;
    ghost var s := payload[offset..];
    if offset + 12 > |payload| {
      return Err(TruncatedChunk);
    }
    var chunkSize := FromBigEndian(payload[offset..offset + 4]);
    var chunkEnd := offset + 12 + chunkSize;
    assert payload[offset..offset + 4] == s[..4];
    if chunkSize > MAX_DOCUMENTATION_ASSET_BYTES || chunkEnd > |payload| {
      return Err(InvalidChunkSize);
    }
    var kind := payload[offset + 4..offset + 8];
    var data := payload[offset + 8..offset + 8 + chunkSize];
    var expected := FromBigEndian(payload[chunkEnd - 4..chunkEnd]);
    var actual := CrcNumber(Crc32(kind + data, 0));
    assert kind == s[4..8] && data == s[8..8 + chunkSize];
    assert payload[chunkEnd - 4..chunkEnd] == s[8 + chunkSize..12 + chunkSize];
    if actual != expected {
      return Err(InvalidChecksum);
    }
    r := Ok((Chunk(kind, data), 12 + chunkSize));
  }

  /** The verdict on a whole file is the verdict on what is left of it. */
  ghost predicate SameVerdict(whole: Result<seq<Chunk>, PngError>, left: Result<seq<Chunk>, PngError>) {
    whole.Ok? == left.Ok? && (whole.Err? ==> whole.error == left.error)
  }

  /** What one well-formed chunk does to the verdict. */
  lemma OneChunk(s: seq<Byte>, first: bool)
    requires |s| > 0 && ReadChunk(s).Ok?
    ensures var (chunk, n) := ReadChunk(s).value;
      && 0 < n <= |s|
      && match ChunkFault(chunk, first, n == |s|)
         case Some(error) => CheckChunks(s, first) == Err(error)
         case None =>
           if chunk.kind == IEND then n == |s| && CheckChunks(s, first).Ok?
           else SameVerdict(CheckChunks(s, first), CheckChunks(s[n..], false))
  {
    hide Crc32, CrcNumber;
  }

  method JudgeChunk(chunk: Chunk, first: bool, last: bool) returns (fault: Option<PngError>)
    ensures fault == ChunkFault(chunk, first, last)
  {
    if first {
      if chunk.kind != IHDR || |chunk.data| != 13 {
        return Some(NoHeader);
      }
      if !SafeDimensions(chunk.data) {
        return Some(UnsafeDimensions);
      }
    }
    if chunk.kind == IEND {
      if |chunk.data| != 0 || !last {
        return Some(InvalidEnd);
      }
    }
    fault := None;
  }

  /** The walk stands at `offset`: the end marker was the last thing, or the rest decides the verdict. */
  ghost predicate OnTrack(payload: seq<Byte>, offset: nat, first: bool, sawIend: bool) {
    && offset <= |payload|
    && if sawIend then offset == |payload| && CheckPng(payload).Ok?
       else SameVerdict(CheckPng(payload), CheckChunks(payload[offset..], first))
  }

  lemma StaysOnTrack(payload: seq<Byte>, offset: nat, first: bool)
    requires OnTrack(payload, offset, first, false) && offset < |payload|
    ensures match ReadChunk(payload[offset..])
      case Err(error) => CheckPng(payload) == Err(error)
      case Ok((chunk, n)) =>
        && 0 < n <= |payload| - offset
        && match ChunkFault(chunk, first, offset + n == |payload|)
           case Some(error) => CheckPng(payload) == Err(error)
           case None => OnTrack(payload, offset + n, false, chunk.kind == IEND)
  {
    hide ReadChunk, CheckChunks, CheckPng, ChunkFault;
    var s := payload[offset..];
    if ReadChunk(s).Err? {
      ChunkRefused(s, first);
    } else {
      OneChunk(s, first);
      var n := ReadChunk(s).value.1;
      assert payload[offset + n..] == s[n..];
    }
  }

  lemma StartsOnTrack(payload: seq<Byte>)
    requires 8 <= |payload| <= MAX_DOCUMENTATION_ASSET_BYTES && payload[..8] == SIGNATURE
    ensures OnTrack(payload, 8, true, false)
  {
    hide CheckChunks;
  }

  lemma EndsOnTrack(payload: seq<Byte>, first: bool, sawIend: bool)
    requires OnTrack(payload, |payload|, first, sawIend)
    ensures if sawIend then CheckPng(payload).Ok? else CheckPng(payload) == Err(MissingEnd)
  {
    hide CheckPng;
  }

  lemma RefusedAtOnce(payload: seq<Byte>)
    ensures |payload| > MAX_DOCUMENTATION_ASSET_BYTES ==> CheckPng(payload) == Err(TooLarge)
    ensures |payload| <= MAX_DOCUMENTATION_ASSET_BYTES && (|payload| < 8 || payload[..8] != SIGNATURE) ==>
      CheckPng(payload) == Err(NotPng)
  {
  }

  lemma MoreToCome(payload: seq<Byte>, offset: nat, first: bool, sawIend: bool)
    requires OnTrack(payload, offset, first, sawIend)
    ensures offset <= |payload| && (offset < |payload| ==> !sawIend)
  {
  }

  /** Walk the chunks of a file, moving `offset` from one to the next. */
  method BoundedPng(payload: seq<Byte>) returns (r: Result<seq<Byte>, PngError>)
    ensures r == match CheckPng(payload)
      case Ok(_) => Ok(payload)
      case Err(error) => Err(error)
  {
    hide ReadChunk, CheckChunks, CheckPng, ChunkFault, OnTrack;
    RefusedAtOnce(payload);
    if |payload| > MAX_DOCUMENTATION_ASSET_BYTES {
      return Err(TooLarge);
    }
    if |payload| < 8 || payload[..8] != SIGNATURE {
      return Err(NotPng);
    }
    StartsOnTrack(payload);
    var offset, chunkIndex: nat := 8, 0;
    var sawIend := false;
    while offset < |payload|
      invariant offset <= |payload| && OnTrack(payload, offset, chunkIndex == 0, sawIend)
    {
      MoreToCome(payload, offset, chunkIndex == 0, sawIend);
      StaysOnTrack(payload, offset, chunkIndex == 0);
      var read := ReadChunkAt(payload, offset);
      if read.Err? {
        return Err(read.error);
      }
      var (chunk, n) := read.value;
      var fault := JudgeChunk(chunk, chunkIndex == 0, offset + n == |payload|);
      if fault.Some? {
        return Err(fault.value);
      }
      if chunk.kind == IEND {
        sawIend := true;
      } else if sawIend {
        assert false;
      }
      offset := offset + n;
      chunkIndex := chunkIndex + 1;
    }
    EndsOnTrack(payload, chunkIndex == 0, sawIend);
    if !sawIend {
      return Err(MissingEnd);
    }
    r := Ok(payload);
  }

  lemma ChunkRefused(s: seq<Byte>, first: bool)
    requires |s| > 0 && ReadChunk(s).Err?
    ensures CheckChunks(s, first) == Err(ReadChunk(s).error)
  {
    hide ReadChunk;
  }

  // ----- what the checker accepts

  /** Chunks in the order the checker wants: header first, a single empty end marker last. */
  ghost predicate GoodSequence(chunks: seq<Chunk>, first: bool) {
    && |chunks| > 0 && |chunks[0].kind| == 4
    && (first ==> chunks[0].kind == IHDR && |chunks[0].data| == 13 && SafeDimensions(chunks[0].data))
    && if chunks[0].kind == IEND then |chunks| == 1 && chunks[0].data == []
       else |chunks| > 1 && GoodSequence(chunks[1..], false)
  }

  ghost predicate IsBoundedPng(payload: seq<Byte>, chunks: seq<Chunk>) {
    && |payload| <= MAX_DOCUMENTATION_ASSET_BYTES
    && payload == SIGNATURE + Layouts(chunks)
    && GoodSequence(chunks, true)
  }

  lemma ChunkFields(size: seq<Byte>, kind: seq<Byte>, data: seq<Byte>, crc: seq<Byte>, tail: seq<Byte>)
    requires |size| == 4 && |kind| == 4 && |crc| == 4
    ensures var s, n := size + kind + data + crc + tail, |data|;
      s[..4] == size && s[4..8] == kind && s[8..8 + n] == data && s[8 + n..12 + n] == crc && s[12 + n..] == tail
  {
  }

  /** A written chunk reads back, whatever follows it. */
  lemma ChunkRoundTrip(c: Chunk, tail: seq<Byte>)
    requires |c.kind| == 4 && |c.data| <= MAX_DOCUMENTATION_ASSET_BYTES
    ensures ReadChunk(Layout(c) + tail) == Ok((c, |Layout(c)|))
    ensures (Layout(c) + tail)[|Layout(c)|..] == tail
    ensures |Layout(c)| == 12 + |c.data|
  {
    hide Crc32, CrcNumber;
    var checksum := CrcNumber(Crc32(c.data, Crc32(c.kind, 0)));
    CrcStreams(c.kind, c.data);
    PowersOf256();
    BigEndianRoundTrip(|c.data|, 4);
    BigEndianRoundTrip(checksum, 4);
    ChunkFields(BigEndian(|c.data|, 4), c.kind, c.data, BigEndian(checksum, 4), tail);
  }

  lemma Cut(s: seq<Byte>, size: nat)
    requires size + 12 <= |s|
    ensures s == s[..4] + s[4..8] + s[8..8 + size] + s[8 + size..12 + size] + s[12 + size..]
  {
  }

  /** Any chunk that reads is byte for byte a written one. */
  lemma ChunkCanonical(s: seq<Byte>)
    requires ReadChunk(s).Ok?
    ensures var (c, n) := ReadChunk(s).value;
      |c.kind| == 4 && 0 < n <= |s| && s == Layout(c) + s[n..] && n == |Layout(c)|
  {
    hide Crc32, CrcNumber;
    var size := FromBigEndian(s[..4]);
    var kind, data, crc := s[4..8], s[8..8 + size], s[8 + size..12 + size];
    CrcStreams(kind, data);
    FromBigEndianRoundTrip(s[..4]);
    FromBigEndianRoundTrip(crc);
    Cut(s, size);
    assert Layout(Chunk(kind, data)) == s[..4] + kind + data + crc;
  }

  lemma {:induction false} CheckedIsLaidOut(s: seq<Byte>, first: bool)
    requires CheckChunks(s, first).Ok?
    ensures s == Layouts(CheckChunks(s, first).value) && GoodSequence(CheckChunks(s, first).value, first)
    decreases |s|
  {
    hide ReadChunk, Layout;
    ChunkCanonical(s);
    var (chunk, n) := ReadChunk(s).value;
    if chunk.kind == IEND {
      assert Layouts([chunk]) == Layout(chunk) + Layouts([]);
    } else {
      CheckedIsLaidOut(s[n..], false);
      var chunks := CheckChunks(s[n..], false).value;
      assert ([chunk] + chunks)[1..] == chunks;
    }
  }

  lemma {:induction false} LaidOutIsChecked(chunks: seq<Chunk>, first: bool)
    requires GoodSequence(chunks, first) && |Layouts(chunks)| <= MAX_DOCUMENTATION_ASSET_BYTES
    ensures CheckChunks(Layouts(chunks), first) == Ok(chunks)
  {
    hide ReadChunk, CheckChunks, PngChunk, SafeDimensions;
    var chunk, tail := chunks[0], Layouts(chunks[1..]);
    DataFits(chunk);
    ChunkRoundTrip(chunk, tail);
    if chunk.kind == IEND {
      assert chunks == [chunk] && tail == [];
    } else {
      assert chunks == [chunk] + chunks[1..];
      SequenceNonEmpty(chunks[1..], false);
      LaidOutIsChecked(chunks[1..], false);
    }
    OneGoodChunk(Layout(chunk) + tail, first, chunk, |Layout(chunk)|, tail);
  }

  lemma DataFits(c: Chunk)
    ensures |c.data| <= |Layout(c)|
  {
  }

  lemma OneGoodChunk(s: seq<Byte>, first: bool, chunk: Chunk, n: nat, tail: seq<Byte>)
    requires ReadChunk(s) == Ok((chunk, n)) && 0 < n <= |s| && s[n..] == tail
    requires ChunkFault(chunk, first, tail == []).None?
    ensures chunk.kind == IEND ==> CheckChunks(s, first) == Ok([chunk])
    ensures chunk.kind != IEND && CheckChunks(tail, false).Ok? ==>
      CheckChunks(s, first) == Ok([chunk] + CheckChunks(tail, false).value)
  {
    hide ReadChunk;
    assert n == |s| <==> tail == [];
  }

  lemma SequenceNonEmpty(chunks: seq<Chunk>, first: bool)
    requires GoodSequence(chunks, first)
    ensures |Layouts(chunks)| >= 12
  {
  }

  /** The checker accepts exactly the bounded files laid out as the writer lays chunks out, and their chunks are unique. */
  lemma AcceptedExactly(payload: seq<Byte>, chunks: seq<Chunk>)
    ensures IsBoundedPng(payload, chunks) <==> CheckPng(payload) == Ok(chunks)
  {
    hide CheckChunks, GoodSequence, Layouts;
    if CheckPng(payload) == Ok(chunks) {
      CheckedIsLaidOut(payload[8..], true);
      assert payload == SIGNATURE + payload[8..];
    }
    if IsBoundedPng(payload, chunks) {
      assert payload[8..] == Layouts(chunks);
      LaidOutIsChecked(chunks, true);
    }
  }

  // ----- which fault is reported

  /** Whole chunks that may stand before another one: a sound header first, no end marker. */
  ghost predicate GoodStart(chunks: seq<Chunk>, first: bool) {
    |chunks| > 0 ==>
      && |chunks[0].kind| == 4 && chunks[0].kind != IEND && |chunks[0].data| <= MAX_DOCUMENTATION_ASSET_BYTES
      && (first ==> chunks[0].kind == IHDR && |chunks[0].data| == 13 && SafeDimensions(chunks[0].data))
      && GoodStart(chunks[1..], false)
  }

  lemma {:induction false} GoodStartPasses(chunks: seq<Chunk>, rest: seq<Byte>, first: bool)
    requires GoodStart(chunks, first)
    ensures SameVerdict(CheckChunks(Layouts(chunks) + rest, first), CheckChunks(rest, first && chunks == []))
  {
    if |chunks| == 0 {
      assert Layouts(chunks) + rest == rest;
    } else {
      hide ReadChunk, CheckChunks, PngChunk, SafeDimensions;
      var tail := Layouts(chunks[1..]) + rest;
      GoodStartPasses(chunks[1..], rest, false);
      ChunkRoundTrip(chunks[0], tail);
      ConcatAssociates(Layout(chunks[0]), Layouts(chunks[1..]), rest);
      OneChunk(Layout(chunks[0]) + tail, first);
    }
  }

  /** Why no chunk can be read from `rest`, which is not empty. */
  ghost function ReadingFault(rest: seq<Byte>): Option<PngError> {
    if |rest| < 12 then Some(TruncatedChunk)
    else
      var size := FromBigEndian(rest[..4]);
      if size > MAX_DOCUMENTATION_ASSET_BYTES || 12 + size > |rest| then Some(InvalidChunkSize)
      else
        var kind, data, crc := rest[4..8], rest[8..8 + size], rest[8 + size..12 + size];
        if FromBigEndian(crc) != CrcNumber(Crc32(data, Crc32(kind, 0))) then Some(InvalidChecksum) else None
  }

  /** Why a chunk may not stand where it does. */
  ghost function PlaceFault(kind: seq<Byte>, data: seq<Byte>, first: bool, last: bool): Option<PngError> {
    if first && !(kind == IHDR && |data| == 13) then Some(NoHeader)
    else if first && !SafeDimensions(data) then Some(UnsafeDimensions)
    else if kind == IEND && !(data == [] && last) then Some(InvalidEnd)
    else None
  }

  /** The fault at the front of `rest`, if there is one. */
  ghost function FaultOf(rest: seq<Byte>, first: bool): Option<PngError> {
    if rest == [] then Some(MissingEnd)
    else if ReadingFault(rest).Some? then ReadingFault(rest)
    else
      var size := FromBigEndian(rest[..4]);
      PlaceFault(rest[4..8], rest[8..8 + size], first, |rest| == 12 + size)
  }

  lemma ReadingFaultExactly(rest: seq<Byte>)
    ensures match ReadingFault(rest)
      case Some(error) => ReadChunk(rest) == Err(error)
      case None =>
        var size := FromBigEndian(rest[..4]);
        ReadChunk(rest) == Ok((Chunk(rest[4..8], rest[8..8 + size]), 12 + size))
  {
    if |rest| >= 12 && 12 + FromBigEndian(rest[..4]) <= |rest| {
      CrcStreams(rest[4..8], rest[8..8 + FromBigEndian(rest[..4])]);
    }
    hide Crc32, CrcNumber, FromBigEndian;
  }

  lemma PlaceFaultExactly(c: Chunk, first: bool, last: bool)
    ensures PlaceFault(c.kind, c.data, first, last) == ChunkFault(c, first, last)
  {
  }

  /** Behind any number of good chunks, the fault of the first bad one is what the file is refused for. */
  lemma FirstFaultReported(chunks: seq<Chunk>, rest: seq<Byte>)
    requires GoodStart(chunks, true) && FaultOf(rest, chunks == []).Some?
    requires |SIGNATURE + (Layouts(chunks) + rest)| <= MAX_DOCUMENTATION_ASSET_BYTES
    ensures CheckPng(SIGNATURE + (Layouts(chunks) + rest)) == Err(FaultOf(rest, chunks == []).value)
  {
    GoodStartPasses(chunks, rest, true);
    assert (SIGNATURE + (Layouts(chunks) + rest))[8..] == Layouts(chunks) + rest;
    FaultStops(rest, chunks == []);
    hide CheckChunks, FaultOf;
  }

  lemma FaultStops(rest: seq<Byte>, first: bool)
    requires FaultOf(rest, first).Some?
    ensures CheckChunks(rest, first) == Err(FaultOf(rest, first).value)
  {
    if rest != [] {
      ReadingFaultExactly(rest);
      if ReadingFault(rest).None? {
        var (chunk, n) := ReadChunk(rest).value;
        PlaceFaultExactly(chunk, first, |rest| == n);
        OneChunk(rest, first);
      } else {
        ChunkRefused(rest, first);
      }
    }
    hide ReadChunk, ReadingFault, ChunkFault, PlaceFault, FromBigEndian;
  }

  lemma HeaderDimensions(width: nat, height: nat)
    requires Packs(width) && Packs(height)
    ensures |Header(width, height)| == 13
    ensures SafeDimensions(Header(width, height)) <==> 1 <= width <= 16384 && 1 <= height <= 16384
  {
    var h := Header(width, height);
    PowersOf256();
    BigEndianRoundTrip(width, 4);
    BigEndianRoundTrip(height, 4);
    assert h[..4] == BigEndian(width, 4) && h[4..8] == BigEndian(height, 4);
  }

  function GateChunks(width: nat, height: nat, pixels: seq<Byte>): seq<Chunk> {
    [Chunk(IHDR, Header(width, height)), Chunk(IDAT, pixels), Chunk(IEND, [])]
  }

  lemma GateLayout(width: nat, height: nat, pixels: seq<Byte>)
    ensures SIGNATURE + PngChunk(IHDR, Header(width, height)) + PngChunk(IDAT, pixels) + PngChunk(IEND, [])
            == SIGNATURE + Layouts(GateChunks(width, height, pixels))
    ensures GoodSequence(GateChunks(width, height, pixels), true) <==>
            |Header(width, height)| == 13 && SafeDimensions(Header(width, height))
  {
    hide PngChunk, Header;
    var chunks := GateChunks(width, height, pixels);
    assert chunks[1..][1..] == chunks[2..] && chunks[2..][1..] == [];
    assert Layouts(chunks[2..]) == Layout(chunks[2]) + Layouts([]) == Layout(chunks[2]);
    assert Layouts(chunks[1..]) == Layout(chunks[1]) + Layouts(chunks[2..]);
    var a, b, c := Layout(chunks[0]), Layout(chunks[1]), Layout(chunks[2]);
    assert SIGNATURE + a + b + c == SIGNATURE + (a + (b + c));
    assert IDAT != IEND by {
      assert IDAT[1] != IEND[1];
    }
    assert IHDR != IEND by {
      assert IHDR[1] != IEND[1];
    }
    assert GoodSequence(chunks[2..], false);
    assert GoodSequence(chunks[1..], false);
  }

  /** Every image the gate writes is accepted exactly while its sides and its size keep the release limits. */
  lemma GateImagesAccepted(width: int, height: int, compress: seq<seq<Byte>> -> seq<Byte>)
    requires DeterministicPng(width, height, compress).Some?
    ensures var png := DeterministicPng(width, height, compress).value;
      CheckPng(png).Ok? <==> width <= 16384 && height <= 16384 && |png| <= MAX_DOCUMENTATION_ASSET_BYTES
  {
    var png := DeterministicPng(width, height, compress).value;
    var pixels := compress(Rows(width, height));
    var chunks := GateChunks(width, height, pixels);
    GateLayout(width, height, pixels);
    HeaderDimensions(width, height);
    hide CheckPng, GoodSequence, Layouts, PngChunk, Header, Row, SafeDimensions;
    AcceptedExactly(png, chunks);
    if CheckPng(png).Ok? {
      var good := CheckPng(png).value;
      AcceptedExactly(png, good);
      SameTail(SIGNATURE, Layouts(good), Layouts(chunks));
      SameLayout(good, chunks, width, height);
    }
  }

  lemma SameTail(head: seq<Byte>, a: seq<Byte>, b: seq<Byte>)
    requires head + a == head + b
    ensures a == b
  {
    assert a == (head + a)[|head|..] && b == (head + b)[|head|..];
  }

  /** Good chunks laid out like the gate's begin with the gate's header. */
  lemma SameLayout(good: seq<Chunk>, chunks: seq<Chunk>, width: nat, height: nat)
    requires GoodSequence(good, true) && Layouts(good) == Layouts(chunks)
    requires |Layouts(good)| <= MAX_DOCUMENTATION_ASSET_BYTES
    requires |chunks| > 0 && chunks[0] == Chunk(IHDR, Header(width, height))
    ensures |Header(width, height)| == 13 && SafeDimensions(Header(width, height))
  {
    assert |Header(width, height)| == 13;
    assert |Layouts(good)| >= |Layout(good[0])|;
    ChunkRoundTrip(good[0], Layouts(good[1..]));
    ChunkRoundTrip(chunks[0], Layouts(chunks[1..]));
  }

  // ----- the pixels of a gate image

  lemma {:induction false} RepeatedAt(s: seq<Byte>, n: nat, k: nat)
    requires k < n
    ensures |Repeated(s, n)| == n * |s| && n * |s| >= k * |s| + |s|
    ensures Repeated(s, n)[k * |s|..k * |s| + |s|] == s
  {
    RepeatedLength(s, n - 1);
    assert n * |s| == (n - 1) * |s| + |s|;
    if k < n - 1 {
      RepeatedAt(s, n - 1, k);
    }
  }

  lemma {:induction false} RepeatedLength(s: seq<Byte>, n: nat)
    ensures |Repeated(s, n)| == n * |s|
  {
    if n > 0 {
      RepeatedLength(s, n - 1);
      assert n * |s| == (n - 1) * |s| + |s|;
    }
  }

  /** Rows of a filter byte and one color, `width` times. */
  ghost predicate IsRow(row: seq<Byte>, width: nat) {
    && |row| == 1 + 3 * width && row[0] == 0
    && forall k :: 0 <= k < width ==> row[1 + 3 * k] == 0x35 && row[2 + 3 * k] == 0x71 && row[3 + 3 * k] == 0xA8
  }

  lemma RowIsRow(width: nat)
    ensures IsRow(Row(width), width)
  {
    var pixel: seq<Byte> := [0x35, 0x71, 0xA8];
    RepeatedLength(pixel, width);
    forall k | 0 <= k < width
      ensures Row(width)[1 + 3 * k] == 0x35 && Row(width)[2 + 3 * k] == 0x71 && Row(width)[3 + 3 * k] == 0xA8
    {
      RepeatedAt(pixel, width, k);
      var part := Repeated(pixel, width)[k * 3..k * 3 + 3];
      assert part[0] == 0x35 && part[1] == 0x71 && part[2] == 0xA8;
    }
  }

  lemma GateImageChecked(width: int, height: int, compress: seq<seq<Byte>> -> seq<Byte>)
    requires DeterministicPng(width, height, compress).Some?
    requires CheckPng(DeterministicPng(width, height, compress).value).Ok?
    ensures width > 0 && height > 0 && Packs(width) && Packs(height)
    ensures CheckPng(DeterministicPng(width, height, compress).value)
            == Ok(GateChunks(width, height, compress(Rows(width, height))))
  {
    var png := DeterministicPng(width, height, compress).value;
    var pixels := compress(Rows(width, height));
    GateLayout(width, height, pixels);
    HeaderDimensions(width, height);
    GateImagesAccepted(width, height, compress);
    hide CheckPng, GoodSequence, Layouts, PngChunk, Header, Row, SafeDimensions;
    AcceptedExactly(png, GateChunks(width, height, pixels));
  }

  /** The header of an image: its sides, eight bits a channel, RGB, and no interlacing. */
  ghost predicate IsHeader(c: Chunk, width: nat, height: nat) {
    && c.kind == IHDR && |c.data| == 13 && c.data[8..] == [8, 2, 0, 0, 0]
    && FromBigEndian(c.data[..4]) == width && FromBigEndian(c.data[4..8]) == height
  }

  lemma HeaderIsHeader(width: nat, height: nat)
    requires Packs(width) && Packs(height)
    ensures IsHeader(Chunk(IHDR, Header(width, height)), width, height)
  {
    var h := Header(width, height);
    PowersOf256();
    BigEndianRoundTrip(width, 4);
    BigEndianRoundTrip(height, 4);
    assert h[..4] == BigEndian(width, 4) && h[4..8] == BigEndian(height, 4);
  }

  ghost predicate AreRows(rows: seq<seq<Byte>>, width: nat, height: nat) {
    |rows| == height && forall y :: 0 <= y < height ==> IsRow(rows[y], width)
  }

  lemma RowsAreRows(width: nat, height: nat)
    ensures AreRows(Rows(width, height), width, height)
  {
    RowIsRow(width);
    hide Row, IsRow;
  }

  /** An accepted gate image holds its header, and then what the compressor makes of its rows. */
  lemma GateImageReadsBack(width: int, height: int, compress: seq<seq<Byte>> -> seq<Byte>) returns (rows: seq<seq<Byte>>)
    requires DeterministicPng(width, height, compress).Some?
    requires CheckPng(DeterministicPng(width, height, compress).value).Ok?
    ensures width > 0 && height > 0 && AreRows(rows, width, height)
    ensures var chunks := CheckPng(DeterministicPng(width, height, compress).value).value;
      && |chunks| == 3 && IsHeader(chunks[0], width, height)
      && chunks[1] == Chunk(IDAT, compress(rows)) && chunks[2] == Chunk(IEND, [])
  {
    GateImageChecked(width, height, compress);
    HeaderIsHeader(width, height);
    RowsAreRows(width, height);
    rows := Rows(width, height);
    hide CheckPng, DeterministicPng, Header, Rows, AreRows, IsHeader;
  }

  /** The gate writes every image whose sides are positive and whose numbers fit their fields. */
  lemma GateWritesExactly(width: int, height: int, compress: seq<seq<Byte>> -> seq<Byte>, rows: seq<seq<Byte>>)
    requires 0 < width && 0 < height ==> |rows| == height && forall y :: 0 <= y < height ==> rows[y] == Row(width)
    ensures DeterministicPng(width, height, compress).Some? <==>
      0 < width < 0x1_0000_0000 && 0 < height < 0x1_0000_0000 && |compress(rows)| < 0x1_0000_0000
  {
    if 0 < width && 0 < height {
      assert rows == Rows(width, height);
    }
  }
}

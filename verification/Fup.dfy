/** The IRD update container of fup.src/fup.c (built without zlib): a header block
    and data blocks, each with a length, a CRC-16 and a payload. */
module Fup {
  import opened Octets
  import Crc16
  import opened Wrappers

  const DATA_BLOCKSIZE: nat := 0x7FFA
  const MAX_PART_NUMBER: nat := 17
  const HEADER_TYPE: nat := 0x10
  const TWO16: nat := 0x1_0000

  // ---------------------------------------------------------- 16-bit fields

  // insertint16_t: most significant byte first.
  function Short(v: nat): (r: Bytes)
    ensures |r| == 2
  {
    [Byte(v / 256), Byte(v)]
  }

  // toShort.
  function ToShort(hi: bv8, lo: bv8): (v: nat)
    ensures v < TWO16
  {
    lo as nat + 256 * hi as nat
  }

  lemma ShortValue(v: nat)
    ensures v % 256 + 256 * (v / 256 % 256) == v % TWO16
  {
    var hi := v / 256;
    assert v == 256 * hi + v % 256 && hi == 256 * (hi / 256) + hi % 256;
    assert v == TWO16 * (hi / 256) + (256 * (hi % 256) + v % 256);
  }

  lemma ToShortIs(hi: bv8, lo: bv8, x: nat, y: nat)
    requires hi as nat == x && lo as nat == y
    ensures ToShort(hi, lo) == y + 256 * x
  {
  }

  lemma ShortRound(v: nat)
    ensures ToShort(Short(v)[0], Short(v)[1]) == v % TWO16
  {
    hide Byte, ToShort;
    ByteIs(v / 256);
    ByteIs(v);
    ToShortIs(Byte(v / 256), Byte(v), v / 256 % 256, v % 256);
    ShortValue(v);
  }

  function Number(x: bv16): (v: nat)
    ensures v < TWO16
  {
    x as nat
  }

  function Crc(payload: Bytes): (v: nat)
    ensures v < TWO16
  {
    Number(Crc16.Crc(0, payload))
  }

  lemma NumberInjective(x: bv16, y: bv16)
    requires Number(x) == Number(y)
    ensures x == y
  {
    Word16Round(x);
    Word16Round(y);
  }

  lemma Word16Round(x: bv16)
    ensures (x as nat) as bv16 == x
  {
  }

  /** Every corruption within two neighbouring payload bytes changes the CRC that
      readBlock compares. */
  lemma CorruptionChangesCrc(head: Bytes, x: Bytes, y: Bytes, tail: Bytes)
    requires |x| == |y| <= 2 && x != y
    ensures Crc(head + x + tail) != Crc(head + y + tail)
  {
    hide Crc16.Crc, Number;
    var a, b := head + x + tail, head + y + tail;
    if Crc(a) == Crc(b) {
      NumberInjective(Crc16.Crc(0, a), Crc16.Crc(0, b));
      Crc16.DetectsTwoBytes(0, head, x, y, tail);
    }
  }

  // ------------------------------------------------------------- the format

  // A block as it is stored: the CRC next to the payload it was computed for,
  // or for which it is no longer right.
  datatype Stored = Stored(crc: nat, payload: Bytes)

  function Sound(payload: Bytes): Stored {
    Stored(Crc(payload), payload)
  }

  // The length of what follows the length field, the CRC, the payload.
  function Frame(b: Stored): (r: Bytes)
    ensures |r| == |b.payload| + 4
  {
    Short(|b.payload| + 2) + Short(b.crc) + b.payload
  }

  // A block with the right CRC.
  function Block(payload: Bytes): (r: Bytes)
    ensures |r| == |payload| + 4
  {
    Frame(Sound(payload))
  }

  function DataPayload(kind: nat, chunk: Bytes): (r: Bytes)
    ensures |r| == |chunk| + 4
  {
    Short(kind) + Short(|chunk|) + chunk
  }

  function HeaderPayload(reseller: nat, count: nat): (r: Bytes)
    ensures |r| == 16
  {
    Short(HEADER_TYPE) + Short(reseller) + Short(0) + Short(0) + Short(count) + Short(0) + Short(0) + Short(0)
  }

  // One data block: a partition type and at most DATA_BLOCKSIZE bytes.
  datatype Chunk = Chunk(kind: nat, data: Bytes)

  // The pieces of a file: full ones, then a shorter one, which is empty when
  // the size is an exact multiple.
  function Chunks(kind: nat, file: Bytes): (r: seq<Chunk>)
    ensures r != []
    decreases |file|
  {
    if |file| < DATA_BLOCKSIZE then [Chunk(kind, file)]
    else [Chunk(kind, file[..DATA_BLOCKSIZE])] + Chunks(kind, file[DATA_BLOCKSIZE..])
  }

  // A partition to append: its type and its file.
  datatype Part = Part(kind: nat, file: Bytes)

  function AllChunks(parts: seq<Part>): seq<Chunk> {
    if parts == [] then [] else Chunks(parts[0].kind, parts[0].file) + AllChunks(parts[1..])
  }

  function Encode(chunks: seq<Chunk>): Bytes {
    if chunks == [] then []
    else Block(DataPayload(chunks[0].kind, chunks[0].data)) + Encode(chunks[1..])
  }

  // The 16-bit block counter.
  function Wrap(n: nat): (r: nat)
    ensures r < TWO16
  {
    n % TWO16
  }

  lemma WrapSmall(n: nat)
    requires n < TWO16
    ensures Wrap(n) == n
  {
  }

  lemma WrapAdd(a: nat, b: nat)
    ensures Wrap(Wrap(a) + b) == Wrap(a + b)
  {
  }

  /** The finished container: the header block with the number of data blocks
      modulo 2^16, then the data blocks. */
  function Image(reseller: nat, parts: seq<Part>): Bytes {
    Block(HeaderPayload(reseller, Wrap(|AllChunks(parts)|))) + Encode(AllChunks(parts))
  }

  // ------------------------------------------------------------- extraction

  // has[], fd[], and the number of blocks whose CRC did not match.
  datatype Output = Output(files: seq<Option<Bytes>>, bad: nat, blocks: nat)

  function NoOutput(): Output {
    Output(seq(MAX_PART_NUMBER, _ => None), 0, 0)
  }

  function OrEmpty(file: Option<Bytes>): Bytes {
    if file.Some? then file.value else []
  }

  // Append to the file of a partition type, opening it the first time.
  function Append(files: seq<Option<Bytes>>, kind: nat, data: Bytes): (r: seq<Option<Bytes>>)
    requires |files| == MAX_PART_NUMBER
    ensures |r| == MAX_PART_NUMBER
  {
    if kind >= MAX_PART_NUMBER then files
    else files[kind := Some(OrEmpty(files[kind]) + data)]
  }

  // What one block does; first is set for the block at the start of the file.
  function Absorb(o: Output, first: bool, crc: nat, payload: Bytes): (r: Output)
    requires |o.files| == MAX_PART_NUMBER && |payload| >= 4
    ensures |r.files| == MAX_PART_NUMBER
  {
    var kind := ToShort(payload[0], payload[1]);
    Output(
      if first && kind == HEADER_TYPE then o.files else Append(o.files, kind, payload[4..]),
      o.bad + (if crc != Crc(payload) then 1 else 0),
      o.blocks + 1)
  }

  // The length field at pos, 0 at the end of the file.
  function LengthAt(data: Bytes, pos: nat): nat {
    if pos + 2 <= |data| then ToShort(data[pos], data[pos + 1]) else 0
  }

  // Whether a whole block starts at pos. A length below 6 has no room for the
  // fields of a block.
  predicate BlockAt(data: Bytes, pos: nat) {
    LengthAt(data, pos) >= 6 && pos + 2 + LengthAt(data, pos) <= |data|
  }

  // The extraction loop from pos on, and where it stops.
  function ExtractFrom(data: Bytes, pos: nat, first: bool, o: Output): (r: (Output, nat))
    requires |o.files| == MAX_PART_NUMBER
    ensures |r.0.files| == MAX_PART_NUMBER
    decreases |data| - pos
  {
    if !BlockAt(data, pos) then (o, pos)
    else
      var len := LengthAt(data, pos);
      var crc := ToShort(data[pos + 2], data[pos + 3]);
      ExtractFrom(data, pos + len + 2, false, Absorb(o, first, crc, data[pos + 4..pos + 2 + len]))
  }

  /** What `fup -x` makes of a file. */
  function Extract(data: Bytes): (Output, nat) {
    ExtractFrom(data, 0, true, NoOutput())
  }

  // ------------------------------------------------------------- round trip

  // The files of a partition type, one after the other, if there are any.
  function Joined(parts: seq<Part>, kind: nat): Option<Bytes> {
    if parts == [] then None
    else
      var rest := Joined(parts[1..], kind);
      if parts[0].kind != kind then rest else Some(parts[0].file + OrEmpty(rest))
  }

  // Appending all chunks, in order.
  function AppendAll(files: seq<Option<Bytes>>, chunks: seq<Chunk>): (r: seq<Option<Bytes>>)
    requires |files| == MAX_PART_NUMBER
    ensures |r| == MAX_PART_NUMBER
    decreases chunks
  {
    if chunks == [] then files
    else AppendAll(Append(files, chunks[0].kind, chunks[0].data), chunks[1..])
  }

  predicate ChunksFit(chunks: seq<Chunk>) {
    forall i :: 0 <= i < |chunks| ==> |chunks[i].data| <= DATA_BLOCKSIZE && chunks[i].kind < TWO16
  }

  lemma PartsOf<T>(head: seq<T>, a: seq<T>, b: seq<T>, payload: seq<T>, tail: seq<T>)
    requires |a| == |b| == 2
    ensures var data, p := head + (a + b + payload) + tail, |head|;
      && data[p] == a[0] && data[p + 1] == a[1] && data[p + 2] == b[0] && data[p + 3] == b[1]
      && data[p + 4..p + 4 + |payload|] == payload
  {
  }

  // Reading one stored block where it stands.
  lemma ReadsFrame(head: Bytes, b: Stored, tail: Bytes)
    requires b.crc < TWO16 && 4 <= |b.payload| <= DATA_BLOCKSIZE + 4
    ensures var data := head + Frame(b) + tail;
      && BlockAt(data, |head|)
      && |head| + LengthAt(data, |head|) + 2 == |head + Frame(b)|
      && ToShort(data[|head| + 2], data[|head| + 3]) == b.crc
      && data[|head| + 4..|head| + 2 + LengthAt(data, |head|)] == b.payload
  {
    hide Short, ToShort, Crc;
    var data := head + Frame(b) + tail;
    PartsOf(head, Short(|b.payload| + 2), Short(b.crc), b.payload, tail);
    ShortRound(|b.payload| + 2);
    ShortRound(b.crc);
    assert LengthAt(data, |head|) == |b.payload| + 2;
  }

  // Reading one block of the format where it stands.
  lemma ReadsBlock(head: Bytes, payload: Bytes, tail: Bytes)
    requires 4 <= |payload| <= DATA_BLOCKSIZE + 4
    ensures var data := head + Block(payload) + tail;
      && BlockAt(data, |head|)
      && |head| + LengthAt(data, |head|) + 2 == |head + Block(payload)|
      && ToShort(data[|head| + 2], data[|head| + 3]) == Crc(payload)
      && data[|head| + 4..|head| + 2 + LengthAt(data, |head|)] == payload
  {
    hide Frame, ToShort, Crc, BlockAt, LengthAt;
    ReadsFrame(head, Sound(payload), tail);
  }

  lemma ChunkFields(c: Chunk)
    requires c.kind < TWO16
    ensures var p := DataPayload(c.kind, c.data);
      ToShort(p[0], p[1]) == c.kind && p[4..] == c.data
  {
    hide Short, ToShort;
    PartsOf([], Short(c.kind), Short(|c.data|), c.data, []);
    ShortRound(c.kind);
    var p := DataPayload(c.kind, c.data);
    assert [] + p + [] == p;
  }

  lemma ExtractStep(data: Bytes, pos: nat, first: bool, o: Output)
    requires |o.files| == MAX_PART_NUMBER && BlockAt(data, pos)
    ensures var len := LengthAt(data, pos);
      len >= 6 && pos + 2 + len <= |data|
      && ExtractFrom(data, pos, first, o)
         == ExtractFrom(data, pos + len + 2, false,
                        Absorb(o, first, ToShort(data[pos + 2], data[pos + 3]), data[pos + 4..pos + 2 + len]))
  {
    hide Absorb, ToShort;
  }

  lemma ExtractEnd(data: Bytes, first: bool, o: Output)
    requires |o.files| == MAX_PART_NUMBER
    ensures ExtractFrom(data, |data|, first, o) == (o, |data|)
  {
    assert !BlockAt(data, |data|);
  }

  // One data block: its CRC matches, its bytes are appended, and the step lands
  // on what follows it.
  lemma ExtractsOne(head: Bytes, c: Chunk, tail: Bytes, o: Output)
    requires |o.files| == MAX_PART_NUMBER && |c.data| <= DATA_BLOCKSIZE && c.kind < TWO16
    ensures var block := Block(DataPayload(c.kind, c.data));
      ExtractFrom(head + block + tail, |head|, false, o)
        == ExtractFrom(head + block + tail, |head + block|, false,
             Output(Append(o.files, c.kind, c.data), o.bad, o.blocks + 1))
  {
    hide Block, DataPayload, ToShort, LengthAt, BlockAt, Append, Crc, ExtractFrom;
    var payload := DataPayload(c.kind, c.data);
    var data := head + Block(payload) + tail;
    ReadsBlock(head, payload, tail);
    ChunkFields(c);
    ExtractStep(data, |head|, false, o);
    assert Absorb(o, false, Crc(payload), payload) == Output(Append(o.files, c.kind, c.data), o.bad, o.blocks + 1);
  }

  // The loop over the data blocks: every step lands on the next block, the last
  // one on the end of the file, and every CRC matches.
  lemma {:induction false} ExtractsChunks(head: Bytes, chunks: seq<Chunk>, o: Output)
    requires |o.files| == MAX_PART_NUMBER && ChunksFit(chunks)
    ensures var data := head + Encode(chunks);
      ExtractFrom(data, |head|, false, o)
        == (Output(AppendAll(o.files, chunks), o.bad, o.blocks + |chunks|), |data|)
    decreases chunks
  {
    hide ExtractFrom, Block, DataPayload, Append;
    var data := head + Encode(chunks);
    if chunks == [] {
      assert data == head;
      ExtractEnd(data, false, o);
    } else {
      var c, rest := chunks[0], chunks[1..];
      var head' := head + Block(DataPayload(c.kind, c.data));
      assert data == head' + Encode(rest);
      ExtractsOne(head, c, Encode(rest), o);
      ChunksFitRest(chunks);
      ExtractsChunks(head', rest, Output(Append(o.files, c.kind, c.data), o.bad, o.blocks + 1));
    }
  }

  lemma ChunksFitRest(chunks: seq<Chunk>)
    requires chunks != [] && ChunksFit(chunks)
    ensures ChunksFit(chunks[1..]) && |chunks[0].data| <= DATA_BLOCKSIZE && chunks[0].kind < TWO16
  {
  }

  lemma {:induction false} ChunksFitFile(kind: nat, file: Bytes)
    requires kind < TWO16
    ensures ChunksFit(Chunks(kind, file))
    decreases |file|
  {
    if |file| >= DATA_BLOCKSIZE { ChunksFitFile(kind, file[DATA_BLOCKSIZE..]); }
  }

  lemma {:induction false} AllChunksFit(parts: seq<Part>)
    requires forall i :: 0 <= i < |parts| ==> parts[i].kind < TWO16
    ensures ChunksFit(AllChunks(parts))
  {
    if parts != [] {
      ChunksFitFile(parts[0].kind, parts[0].file);
      AllChunksFit(parts[1..]);
    }
  }

  lemma {:induction false} AppendAllAppend(files: seq<Option<Bytes>>, a: seq<Chunk>, b: seq<Chunk>)
    requires |files| == MAX_PART_NUMBER
    ensures AppendAll(files, a + b) == AppendAll(AppendAll(files, a), b)
    decreases a
  {
    hide Append;
    if a == [] {
      assert a + b == b;
    } else {
      assert (a + b)[1..] == a[1..] + b;
      AppendAllAppend(Append(files, a[0].kind, a[0].data), a[1..], b);
    }
  }

  lemma ChunksStep(kind: nat, file: Bytes)
    ensures var cs := Chunks(kind, file);
      if |file| < DATA_BLOCKSIZE then cs[0] == Chunk(kind, file) && cs[1..] == []
      else cs[0] == Chunk(kind, file[..DATA_BLOCKSIZE]) && cs[1..] == Chunks(kind, file[DATA_BLOCKSIZE..])
  {
  }

  lemma AppendedTwice(files: seq<Option<Bytes>>, kind: nat, a: Bytes, b: Bytes)
    requires |files| == MAX_PART_NUMBER && kind < MAX_PART_NUMBER
    ensures var files' := Append(files, kind, a);
      files'[kind := Some(OrEmpty(files'[kind]) + b)] == files[kind := Some(OrEmpty(files[kind]) + (a + b))]
  {
    assert OrEmpty(files[kind]) + a + b == OrEmpty(files[kind]) + (a + b);
  }

  // The pieces of a file put together again are the file, also when the last is empty.
  lemma {:induction false} ChunksRejoin(files: seq<Option<Bytes>>, kind: nat, file: Bytes)
    requires |files| == MAX_PART_NUMBER && kind < MAX_PART_NUMBER
    ensures AppendAll(files, Chunks(kind, file)) == files[kind := Some(OrEmpty(files[kind]) + file)]
    decreases |file|
  {
    hide Chunks;
    ChunksStep(kind, file);
    if |file| >= DATA_BLOCKSIZE {
      hide Append;
      var a, b := file[..DATA_BLOCKSIZE], file[DATA_BLOCKSIZE..];
      ChunksRejoin(Append(files, kind, a), kind, b);
      AppendedTwice(files, kind, a, b);
      assert a + b == file;
    }
  }

  lemma {:induction false} PartsRejoin(files: seq<Option<Bytes>>, parts: seq<Part>, kind: nat)
    requires |files| == MAX_PART_NUMBER && kind < MAX_PART_NUMBER
    requires forall i :: 0 <= i < |parts| ==> parts[i].kind < MAX_PART_NUMBER
    ensures AppendAll(files, AllChunks(parts))[kind]
      == if Joined(parts, kind).None? then files[kind]
         else Some(OrEmpty(files[kind]) + Joined(parts, kind).value)
    decreases parts
  {
    if parts != [] {
      var p, rest := parts[0], parts[1..];
      AppendAllAppend(files, Chunks(p.kind, p.file), AllChunks(rest));
      ChunksRejoin(files, p.kind, p.file);
      var files' := files[p.kind := Some(OrEmpty(files[p.kind]) + p.file)];
      assert forall i :: 0 <= i < |rest| ==> rest[i] == parts[i + 1];
      PartsRejoin(files', rest, kind);
      if p.kind == kind {
        JoinAssoc(OrEmpty(files[kind]), p.file, Joined(rest, kind));
      }
    }
  }

  lemma JoinAssoc(a: Bytes, b: Bytes, c: Option<Bytes>)
    ensures a + b + OrEmpty(c) == a + (b + OrEmpty(c))
    ensures c.None? ==> a + b == a + (b + OrEmpty(c))
  {
  }

  // ---------------------------------------------------------- main results

  predicate PartsFit(parts: seq<Part>) {
    forall i :: 0 <= i < |parts| ==> parts[i].kind < MAX_PART_NUMBER
  }

  // The header block is read as such and yields no file.
  lemma ExtractsHeader(payload: Bytes, tail: Bytes)
    requires |payload| == 16 && ToShort(payload[0], payload[1]) == HEADER_TYPE
    ensures Extract(Block(payload) + tail)
      == ExtractFrom(Block(payload) + tail, |Block(payload)|, false, Output(NoOutput().files, 0, 1))
  {
    hide Block, LengthAt, BlockAt, Append, Crc, ExtractFrom, ToShort;
    var data := [] + Block(payload) + tail;
    assert data == Block(payload) + tail;
    ReadsBlock([], payload, tail);
    ExtractStep(data, 0, true, NoOutput());
  }

  lemma HeaderFields(reseller: nat, count: nat)
    ensures var p := HeaderPayload(reseller, count);
      ToShort(p[0], p[1]) == HEADER_TYPE
  {
    hide Short, ToShort;
    ShortRound(HEADER_TYPE);
    assert HeaderPayload(reseller, count)[0] == Short(HEADER_TYPE)[0];
  }

  /** Extracting a container gives, for each partition type, its files one after
      the other, and no file for a type without parts; every block's CRC matches,
      all blocks are read, and the last step lands on the end of the file. The
      header's reseller id and block count do not matter. */
  lemma ExtractOfImage(reseller: nat, count: nat, parts: seq<Part>, kind: nat)
    requires PartsFit(parts) && kind < MAX_PART_NUMBER
    ensures var data := Block(HeaderPayload(reseller, count)) + Encode(AllChunks(parts));
      var (o, end) := Extract(data);
      && o.files[kind] == Joined(parts, kind)
      && o.bad == 0 && o.blocks == 1 + |AllChunks(parts)|
      && end == |data|
  {
    hide Block, HeaderPayload, Encode, ExtractFrom, Extract, AppendAll, ToShort;
    var payload, chunks := HeaderPayload(reseller, count), AllChunks(parts);
    HeaderFields(reseller, count);
    ExtractsHeader(payload, Encode(chunks));
    AllChunksFit(parts);
    ExtractsChunks(Block(payload), chunks, Output(NoOutput().files, 0, 1));
    PartsRejoin(NoOutput().files, parts, kind);
    JoinAssoc([], [], Joined(parts, kind));
    assert [] + OrEmpty(Joined(parts, kind)) == OrEmpty(Joined(parts, kind));
  }

  // -------------------------------------------------------------- corruption

  function Frames(blocks: seq<Stored>): Bytes {
    if blocks == [] then [] else Frame(blocks[0]) + Frames(blocks[1..])
  }

  // How many blocks do not match their CRC.
  function Mismatches(blocks: seq<Stored>): nat {
    if blocks == [] then 0
    else (if blocks[0].crc != Crc(blocks[0].payload) then 1 else 0) + Mismatches(blocks[1..])
  }

  function SoundChunks(chunks: seq<Chunk>): (r: seq<Stored>)
    ensures |r| == |chunks|
    ensures forall i :: 0 <= i < |r| ==> r[i] == Sound(DataPayload(chunks[i].kind, chunks[i].data))
  {
    if chunks == [] then []
    else [Sound(DataPayload(chunks[0].kind, chunks[0].data))] + SoundChunks(chunks[1..])
  }

  /** The blocks of a finished container, the header's first. */
  function ImageBlocks(reseller: nat, parts: seq<Part>): (r: seq<Stored>)
    ensures |r| == 1 + |AllChunks(parts)|
  {
    [Sound(HeaderPayload(reseller, Wrap(|AllChunks(parts)|)))] + SoundChunks(AllChunks(parts))
  }

  ghost predicate Storable(blocks: seq<Stored>) {
    forall i :: 0 <= i < |blocks| ==> blocks[i].crc < TWO16 && 4 <= |blocks[i].payload| <= DATA_BLOCKSIZE + 4
  }

  lemma {:induction false} FramesOfChunks(chunks: seq<Chunk>)
    ensures Frames(SoundChunks(chunks)) == Encode(chunks)
  {
    hide Short, Crc, DataPayload;
    if chunks != [] {
      assert SoundChunks(chunks)[1..] == SoundChunks(chunks[1..]);
      FramesOfChunks(chunks[1..]);
    }
  }

  lemma FramesOfImage(reseller: nat, parts: seq<Part>)
    ensures Frames(ImageBlocks(reseller, parts)) == Image(reseller, parts)
  {
    hide Short, Crc, DataPayload, HeaderPayload, AllChunks, Encode, Wrap;
    var blocks := ImageBlocks(reseller, parts);
    assert blocks[1..] == SoundChunks(AllChunks(parts));
    FramesOfChunks(AllChunks(parts));
  }

  // The extraction loop counts the blocks and the mismatches, and reads all.
  lemma {:induction false} ExtractsFrames(head: Bytes, blocks: seq<Stored>, first: bool, o: Output)
    requires |o.files| == MAX_PART_NUMBER && Storable(blocks)
    ensures var data := head + Frames(blocks);
      var (o', pos) := ExtractFrom(data, |head|, first, o);
      o'.bad == o.bad + Mismatches(blocks) && o'.blocks == o.blocks + |blocks| && pos == |data|
    decreases |blocks|
  {
    hide Frame, Append, Crc, ToShort, LengthAt, BlockAt, ExtractFrom;
    var data := head + Frames(blocks);
    if blocks == [] {
      assert data == head;
      ExtractEnd(data, first, o);
    } else {
      var b, rest := blocks[0], blocks[1..];
      var head' := head + Frame(b);
      assert data == head' + Frames(rest);
      ReadsFrame(head, b, Frames(rest));
      ExtractStep(data, |head|, first, o);
      ExtractsFrames(head', rest, false, Absorb(o, first, b.crc, b.payload));
    }
  }

  lemma {:induction false} NoMismatch(blocks: seq<Stored>)
    requires forall i :: 0 <= i < |blocks| ==> blocks[i].crc == Crc(blocks[i].payload)
    ensures Mismatches(blocks) == 0
  {
    hide Crc;
    if blocks != [] { NoMismatch(blocks[1..]); }
  }

  lemma {:induction false} OneMismatch(blocks: seq<Stored>, k: nat, b: Stored)
    requires k < |blocks| && forall i :: 0 <= i < |blocks| ==> blocks[i].crc == Crc(blocks[i].payload)
    requires b.crc != Crc(b.payload)
    ensures Mismatches(blocks[k := b]) == 1
  {
    hide Crc;
    var blocks' := blocks[k := b];
    if k == 0 {
      assert blocks'[1..] == blocks[1..];
      NoMismatch(blocks[1..]);
    } else {
      assert blocks'[1..] == blocks[1..][k - 1 := b];
      OneMismatch(blocks[1..], k - 1, b);
    }
  }

  lemma {:induction false} FramesAt(blocks: seq<Stored>, k: nat)
    requires k < |blocks|
    ensures Frames(blocks) == Frames(blocks[..k]) + Frame(blocks[k]) + Frames(blocks[k + 1..])
  {
    hide Frame;
    if k > 0 {
      FramesAt(blocks[1..], k - 1);
      assert blocks[1..][..k - 1] == blocks[..k][1..] && blocks[1..][k..] == blocks[k + 1..];
    }
  }

  // The same bytes with y in place of as many bytes from `at` on.
  function Replaced(data: Bytes, at: nat, y: Bytes): (r: Bytes)
    requires at + |y| <= |data|
    ensures |r| == |data|
  {
    data[..at] + y + data[at + |y|..]
  }

  lemma ReplacedInFrame(b: Stored, i: nat, y: Bytes)
    requires i + |y| <= |b.payload|
    ensures Replaced(Frame(b), 4 + i, y) == Frame(b.(payload := Replaced(b.payload, i, y)))
  {
    hide Short;
    var front := Short(|b.payload| + 2) + Short(b.crc);
    assert front + b.payload == front + b.payload + [];
    ReplacedInside(front, b.payload, [], i, y);
  }

  lemma FramesUpdated(blocks: seq<Stored>, k: nat, b: Stored)
    requires k < |blocks|
    ensures Frames(blocks[k := b]) == Frames(blocks[..k]) + Frame(b) + Frames(blocks[k + 1..])
  {
    hide Frame, Frames;
    FramesAt(blocks[k := b], k);
    assert blocks[k := b][..k] == blocks[..k] && blocks[k := b][k + 1..] == blocks[k + 1..];
  }

  // Replacing payload bytes in the file replaces them in their block.
  lemma ReplacedInBlock(blocks: seq<Stored>, k: nat, i: nat, y: Bytes)
    requires k < |blocks| && i + |y| <= |blocks[k].payload|
    ensures var at := |Frames(blocks[..k])| + 4 + i;
      var b := blocks[k].(payload := Replaced(blocks[k].payload, i, y));
      at + |y| <= |Frames(blocks)| && Replaced(Frames(blocks), at, y) == Frames(blocks[k := b])
  {
    hide Frame, Frames, Replaced;
    FramesAt(blocks, k);
    ReplacedInFrame(blocks[k], i, y);
    FramesUpdated(blocks, k, blocks[k].(payload := Replaced(blocks[k].payload, i, y)));
    ReplacedInside(Frames(blocks[..k]), Frame(blocks[k]), Frames(blocks[k + 1..]), 4 + i, y);
  }

  lemma ReplacedInside(head: Bytes, s: Bytes, tail: Bytes, i: nat, y: Bytes)
    requires i + |y| <= |s|
    ensures Replaced(head + s + tail, |head| + i, y) == head + Replaced(s, i, y) + tail
  {
  }

  lemma ImageStorable(reseller: nat, parts: seq<Part>)
    requires forall i :: 0 <= i < |parts| ==> parts[i].kind < TWO16
    ensures Storable(ImageBlocks(reseller, parts))
    ensures forall i :: 0 <= i < |ImageBlocks(reseller, parts)| ==>
      ImageBlocks(reseller, parts)[i].crc == Crc(ImageBlocks(reseller, parts)[i].payload)
  {
    hide Short, Crc, HeaderPayload, AllChunks, Wrap;
    AllChunksFit(parts);
  }

  lemma ReplacedChangesCrc(payload: Bytes, i: nat, y: Bytes)
    requires i + |y| <= |payload| && |y| <= 2 && y != payload[i..i + |y|]
    ensures Crc(Replaced(payload, i, y)) != Crc(payload)
  {
    hide Crc;
    var x := payload[i..i + |y|];
    assert payload == payload[..i] + x + payload[i + |y|..];
    CorruptionChangesCrc(payload[..i], x, y, payload[i + |y|..]);
  }

  lemma ExtractsAll(blocks: seq<Stored>)
    requires Storable(blocks)
    ensures var (o, end) := Extract(Frames(blocks));
      o.bad == Mismatches(blocks) && o.blocks == |blocks| && end == |Frames(blocks)|
  {
    hide ExtractFrom, Frames, Mismatches, Storable;
    ExtractsFrames([], blocks, true, NoOutput());
    assert [] + Frames(blocks) == Frames(blocks);
  }

  /** Any change of one byte, or of two neighbouring ones, in the payload of one
      block of a container is reported: the extraction still reads every block to
      the end of the file, and counts exactly one mismatch. */
  lemma CorruptionReported(reseller: nat, parts: seq<Part>, k: nat, i: nat, y: Bytes)
    requires forall j :: 0 <= j < |parts| ==> parts[j].kind < TWO16
    requires k < |ImageBlocks(reseller, parts)| && |y| <= 2
    requires var payload := ImageBlocks(reseller, parts)[k].payload;
      i + |y| <= |payload| && y != payload[i..i + |y|]
    ensures var at := |Frames(ImageBlocks(reseller, parts)[..k])| + 4 + i;
      && at + |y| <= |Image(reseller, parts)|
      && var (o, end) := Extract(Replaced(Image(reseller, parts), at, y));
      o.bad == 1 && o.blocks == 1 + |AllChunks(parts)| && end == |Image(reseller, parts)|
  {
    hide Crc, Extract, Frames, Image, ImageBlocks, AllChunks, Mismatches, Replaced;
    var blocks := ImageBlocks(reseller, parts);
    var b := blocks[k].(payload := Replaced(blocks[k].payload, i, y));
    FramesOfImage(reseller, parts);
    ImageStorable(reseller, parts);
    ReplacedInBlock(blocks, k, i, y);
    ReplacedChangesCrc(blocks[k].payload, i, y);
    OneMismatch(blocks, k, b);
    ExtractsAll(blocks[k := b]);
  }

  // ------------------------------------------------------ the container's bytes

  // Two bytes that hold a number, most significant first.
  predicate HalfAt(b: Bytes, p: nat, v: nat) {
    p + 2 <= |b| && v == 256 * b[p] as nat + b[p + 1] as nat
  }

  lemma TwoDigits(v: nat, hi: nat, lo: nat)
    requires v < TWO16 && hi == v / 256 % 256 && lo == v % 256
    ensures 256 * hi + lo == v
  {
  }

  lemma ShortDigits(v: nat)
    ensures Short(v)[0] as nat == v / 256 % 256 && Short(v)[1] as nat == v % 256
  {
    hide Byte;
    ByteIs(v / 256);
    ByteIs(v);
  }

  lemma ShortBytes(b: Bytes, p: nat, v: nat)
    requires p + 2 <= |b| && b[p..p + 2] == Short(v) && v < TWO16
    ensures HalfAt(b, p, v)
  {
    hide Byte, Short;
    ShortDigits(v);
    assert b[p..p + 2][0] == b[p] && b[p..p + 2][1] == b[p + 1];
    TwoDigits(v, b[p] as nat, b[p + 1] as nat);
  }

  /** Block k of a container, where it stands: the length of what follows, the
      CRC-16 of the payload, which is bit-serial division from 0, and the payload. */
  lemma BlockBytes(reseller: nat, parts: seq<Part>, k: nat)
    requires forall i :: 0 <= i < |parts| ==> parts[i].kind < TWO16
    requires k < |ImageBlocks(reseller, parts)|
    ensures var data, at := Image(reseller, parts), |Frames(ImageBlocks(reseller, parts)[..k])|;
      var payload := ImageBlocks(reseller, parts)[k].payload;
      && at + 4 + |payload| <= |data| && data[at + 4..at + 4 + |payload|] == payload
      && HalfAt(data, at, |payload| + 2) && HalfAt(data, at + 2, Crc16.Serial(0, payload) as nat)
  {
    hide Short, Frames, Image, ImageBlocks, AllChunks, HalfAt, Crc;
    var blocks := ImageBlocks(reseller, parts);
    FramesOfImage(reseller, parts);
    ImageStorable(reseller, parts);
    FramesAt(blocks, k);
    FrameBytes(Frames(blocks[..k]), blocks[k], Frames(blocks[k + 1..]));
    CrcIsSerial(blocks[k].payload);
  }

  lemma CrcIsSerial(payload: Bytes)
    ensures Crc(payload) == Crc16.Serial(0, payload) as nat
  {
    Crc16.TableIsSerial(0, payload);
  }

  lemma FrameBytes(head: Bytes, b: Stored, tail: Bytes)
    requires b.crc < TWO16 && |b.payload| + 2 < TWO16
    ensures var data, at := head + Frame(b) + tail, |head|;
      && data[at + 4..at + 4 + |b.payload|] == b.payload
      && HalfAt(data, at, |b.payload| + 2) && HalfAt(data, at + 2, b.crc)
  {
    hide Short, HalfAt;
    var data := head + Frame(b) + tail;
    assert data[|head|..|head| + 2] == Short(|b.payload| + 2) && data[|head| + 2..|head| + 4] == Short(b.crc);
    ShortBytes(data, |head|, |b.payload| + 2);
    ShortBytes(data, |head| + 2, b.crc);
  }

  /** The payload of the header block: type 0x10, the reseller id, and the number
      of data blocks; all else is 0. */
  lemma HeaderPayloadBytes(reseller: nat, count: nat)
    requires reseller < TWO16 && count < TWO16
    ensures var p := HeaderPayload(reseller, count);
      && |p| == 16 && HalfAt(p, 0, 0x10) && HalfAt(p, 2, reseller) && HalfAt(p, 8, count)
      && HalfAt(p, 4, 0) && HalfAt(p, 6, 0) && HalfAt(p, 10, 0) && HalfAt(p, 12, 0) && HalfAt(p, 14, 0)
  {
    hide Short, HalfAt;
    var p := HeaderPayload(reseller, count);
    assert p[0..2] == Short(0x10) && p[2..4] == Short(reseller) && p[8..10] == Short(count);
    assert p[4..6] == p[6..8] == p[10..12] == p[12..14] == p[14..16] == Short(0);
    ShortBytes(p, 0, 0x10);
    ShortBytes(p, 2, reseller);
    ShortBytes(p, 4, 0);
    ShortBytes(p, 6, 0);
    ShortBytes(p, 8, count);
    ShortBytes(p, 10, 0);
    ShortBytes(p, 12, 0);
    ShortBytes(p, 14, 0);
  }

  /** The payload of a data block: the partition type, the size, and the bytes. */
  lemma DataPayloadBytes(kind: nat, chunk: Bytes)
    requires kind < TWO16 && |chunk| < TWO16
    ensures var p := DataPayload(kind, chunk);
      HalfAt(p, 0, kind) && HalfAt(p, 2, |chunk|) && p[4..] == chunk
  {
    hide Short, HalfAt;
    var p := DataPayload(kind, chunk);
    assert p[0..2] == Short(kind) && p[2..4] == Short(|chunk|);
    ShortBytes(p, 0, kind);
    ShortBytes(p, 2, |chunk|);
  }

  /** A file is cut into pieces of 32762 bytes and a shorter one. */
  lemma {:induction false} ChunkSizes(kind: nat, file: Bytes)
    ensures var cs := Chunks(kind, file);
      && |cs| == |file| / 32762 + 1
      && (forall i :: 0 <= i < |cs| - 1 ==> |cs[i].data| == 32762)
      && |cs[|cs| - 1].data| == |file| % 32762
      && forall i :: 0 <= i < |cs| ==> cs[i].kind == kind
    decreases |file|
  {
    if |file| >= DATA_BLOCKSIZE { ChunkSizes(kind, file[DATA_BLOCKSIZE..]); }
  }

  // ------------------------------------------------------------- the program

  // A FILE: its bytes, the position, and the end-of-file flag.
  class File {
    var data: Bytes
    var pos: nat
    var eof: bool

    constructor (data: Bytes)
      ensures this.data == data && pos == 0 && !eof
    {
      this.data := data;
      pos, eof := 0, false;
    }

    // fread: as many bytes as there are, up to n; running short sets the flag.
    method Read(n: nat) returns (buf: Bytes)
      modifies this`pos, this`eof
      ensures old(pos) + n <= |data| ==> buf == data[old(pos)..old(pos) + n] && eof == old(eof)
      ensures old(pos) <= |data| < old(pos) + n ==> buf == data[old(pos)..] && eof
      ensures old(pos) > |data| ==> buf == [] && (n > 0 ==> eof)
      ensures pos == old(pos) + |buf|
    {
      if pos + n <= |data| {
        buf := data[pos..pos + n];
      } else if pos <= |data| {
        buf := data[pos..];
        eof := true;
      } else {
        buf := [];
        eof := eof || n > 0;
      }
      pos := pos + |buf|;
    }

    // fwrite within the file or at its end.
    method Write(buf: Bytes)
      requires pos <= |data|
      modifies this`data, this`pos
      ensures pos == old(pos) + |buf|
      ensures data == old(data[..pos]) + buf
        + (if old(pos) + |buf| <= |old(data)| then old(data)[old(pos) + |buf|..] else [])
    {
      data := data[..pos] + buf + (if pos + |buf| <= |data| then data[pos + |buf|..] else []);
      pos := pos + |buf|;
    }

    // fseek(SEEK_SET), which clears the flag.
    method Seek(p: nat)
      modifies this`pos, this`eof
      ensures pos == p && !eof
    {
      pos, eof := p, false;
    }
  }

  // readShort: 0 when fewer than two bytes are left.
  method ReadShort(file: File) returns (v: nat)
    modifies file
    ensures file.data == old(file.data)
    ensures v == LengthAt(file.data, old(file.pos))
    ensures old(file.pos) + 2 <= |file.data| ==> file.pos == old(file.pos) + 2
    ensures old(file.pos) <= |file.data| < old(file.pos) + 2 ==> file.pos == |file.data|
  {
    hide ToShort;
    ghost var p := file.pos;
    var buf := file.Read(2);
    if |buf| == 2 {
      assert file.data[p..p + 2][0] == file.data[p] && file.data[p..p + 2][1] == file.data[p + 1];
      return ToShort(buf[0], buf[1]);
    }
    return 0;
  }

  // The output side of `fup -x`: which partition types have a file, and their bytes.
  class Extractor {
    var has: seq<bool>
    var fd: seq<Bytes>
    var mismatches: nat
    var blockCounterTotal: nat

    ghost predicate Valid()
      reads this
    {
      |has| == |fd| == MAX_PART_NUMBER
    }

    ghost function Made(): (o: Output)
      requires Valid()
      reads this
      ensures |o.files| == MAX_PART_NUMBER
    {
      var files := seq(MAX_PART_NUMBER, i requires 0 <= i < MAX_PART_NUMBER && Valid() reads this =>
        if has[i] then Some(fd[i]) else None);
      Output(files, mismatches, blockCounterTotal)
    }

    constructor ()
      ensures Valid() && Made() == NoOutput()
    {
      has := seq(MAX_PART_NUMBER, _ => false);
      fd := seq(MAX_PART_NUMBER, _ => []);
      mismatches, blockCounterTotal := 0, 0;
      new;
      assert Made().files == NoOutput().files;
    }

    // The end of readBlock, for a block that was read whole.
    method Store(firstBlock: bool, crc: nat, dataBuf: Bytes)
      requires Valid() && |dataBuf| >= 4
      modifies this
      ensures Valid() && Made() == Absorb(old(Made()), firstBlock, crc, dataBuf)
    {
      hide Crc, ToShort;
      ghost var before := Made();
      var dataCrc := Crc(dataBuf);
      if crc != dataCrc {
        mismatches := mismatches + 1;
      }
      var kind := ToShort(dataBuf[0], dataBuf[1]);
      blockCounterTotal := blockCounterTotal + 1;
      if !(firstBlock && kind == HEADER_TYPE) {
        if kind < MAX_PART_NUMBER {
          if !has[kind] {
            has := has[kind := true];
            fd := fd[kind := []];
          }
          fd := fd[kind := fd[kind] + dataBuf[4..]];
        }
      }
      assert Made().files == Absorb(before, firstBlock, crc, dataBuf).files;
    }

    // readBlock: 0 when there is no whole block left.
    method ReadBlock(file: File, firstBlock: bool) returns (len: nat)
      requires Valid()
      modifies this, file
      ensures Valid() && file.data == old(file.data)
      ensures var p := old(file.pos);
        if BlockAt(file.data, p) then
          && len == LengthAt(file.data, p)
          && Made() == Absorb(old(Made()), firstBlock, ToShort(file.data[p + 2], file.data[p + 3]),
                              file.data[p + 4..p + 2 + len])
        else len == 0 && Made() == old(Made())
    {
      hide Crc, ToShort, Absorb;
      ghost var p := file.pos;
      len := ReadShort(file);
      if len < 6 {
        return 0;
      }
      var crc := ReadShort(file);
      var dataBuf := file.Read(len - 2);
      if |dataBuf| != len - 2 {
        return 0;
      }
      Store(firstBlock, crc, dataBuf);
    }

    /** The loop of `fup -x`. */
    method ExtractAll(file: File) returns (pos: nat)
      requires Valid() && Made() == NoOutput() && file.pos == 0 && !file.eof
      modifies this, file
      ensures Valid() && (Made(), pos) == Extract(old(file.data))
    {
      hide Absorb, LengthAt, ToShort;
      var firstBlock := true;
      pos := file.pos;
      while !file.eof
        invariant Valid() && file.data == old(file.data)
        invariant !file.eof ==> file.pos == pos
        invariant ExtractFrom(file.data, pos, firstBlock, Made()) == Extract(file.data)
        invariant file.eof ==> !BlockAt(file.data, pos)
        decreases !file.eof, |file.data| - pos
      {
        var len := ReadBlock(file, firstBlock);
        if len == 0 {
          break;
        }
        firstBlock := false;
        pos := pos + len + 2;
        file.Seek(pos);
      }
    }
  }

  // writeBlock for a piece of a partition file, which is read from `file`.
  method WriteBlock(irdFile: File, file: File, kind: nat) returns (len: nat)
    requires irdFile != file && irdFile.pos == |irdFile.data| && file.pos <= |file.data|
    modifies irdFile, file
    ensures file.data == old(file.data)
    ensures len == ChunkLen(file.data, old(file.pos))
    ensures file.pos == old(file.pos) + len
    ensures irdFile.data == old(irdFile.data) + Block(DataPayload(kind, file.data[old(file.pos)..file.pos]))
    ensures irdFile.pos == |irdFile.data|
  {
    hide Short, Crc;
    var chunk := file.Read(DATA_BLOCKSIZE);
    len := |chunk|;
    assert chunk == file.data[old(file.pos)..file.pos];
    var dataBuf := Short(kind) + Short(len) + chunk;
    assert dataBuf == DataPayload(kind, chunk) && |dataBuf| + 2 == len + 6;
    var dataCrc := Crc(dataBuf);
    irdFile.Write(Short(len + 6) + Short(dataCrc));
    irdFile.Write(dataBuf);
    assert irdFile.data == old(irdFile.data) + (Short(len + 6) + Short(dataCrc) + dataBuf);
  }

  // How many bytes the block has that starts at position p of a file.
  function ChunkLen(content: Bytes, p: nat): (n: nat)
    requires p <= |content|
    ensures p + n <= |content|
  {
    if |content| - p < DATA_BLOCKSIZE then |content| - p else DATA_BLOCKSIZE
  }

  // The pieces that follow one of len bytes that ends at position p of a file.
  function Ahead(kind: nat, content: Bytes, len: nat, p: nat): seq<Chunk>
    requires p <= |content|
  {
    if len == DATA_BLOCKSIZE then Chunks(kind, content[p..]) else []
  }

  lemma AheadEnds(kind: nat, content: Bytes, len: nat, p: nat)
    requires p <= |content| && len != DATA_BLOCKSIZE
    ensures Ahead(kind, content, len, p) == [] && Encode([]) == []
  {
  }

  lemma AheadStarts(kind: nat, content: Bytes)
    ensures Ahead(kind, content, DATA_BLOCKSIZE, 0) == Chunks(kind, content)
  {
    assert content[0..] == content;
  }

  // The loop of `fup -c` over one partition file, counting blocks modulo 2^16.
  method AppendPart(irdFile: File, kind: nat, content: Bytes, total: nat) returns (total': nat)
    requires irdFile.pos == |irdFile.data| && total < TWO16
    modifies irdFile
    ensures irdFile.data == old(irdFile.data) + Encode(Chunks(kind, content))
    ensures irdFile.pos == |irdFile.data|
    ensures total' == Wrap(total + |Chunks(kind, content)|)
  {
    hide Block, DataPayload, Encode, Chunks, Wrap, Ahead, ChunkLen;
    total' := total;
    WrapSmall(total);
    ghost var before, written := irdFile.data, 0;
    var file := new File(content);
    AheadStarts(kind, content);
    var len := WriteBlock(irdFile, file, kind);
    Appended(kind, content, 0, before, irdFile.data);
    while len == DATA_BLOCKSIZE
      invariant file.data == content && file.pos <= |content| && irdFile.pos == |irdFile.data| && fresh(file)
      invariant before + Encode(Chunks(kind, content)) == irdFile.data + Encode(Ahead(kind, content, len, file.pos))
      invariant total' == Wrap(total + written)
      invariant |Chunks(kind, content)| == written + 1 + |Ahead(kind, content, len, file.pos)|
      decreases |content| - file.pos, len
    {
      WrapAdd(total + written, 1);
      total' := Wrap(total' + 1);
      written := written + 1;
      ghost var p, sofar := file.pos, irdFile.data;
      len := WriteBlock(irdFile, file, kind);
      Appended(kind, content, p, sofar, irdFile.data);
    }
    WrapAdd(total + written, 1);
    total' := Wrap(total' + 1);
    AheadEnds(kind, content, len, file.pos);
    assert irdFile.data + [] == irdFile.data;
  }

  // One more block has been written: what is on the disk and what is ahead.
  lemma Appended(kind: nat, content: Bytes, p: nat, sofar: Bytes, data: Bytes)
    requires p <= |content|
    requires data == sofar + Block(DataPayload(kind, content[p..p + ChunkLen(content, p)]))
    ensures var n := ChunkLen(content, p);
      var now, ahead := Ahead(kind, content, DATA_BLOCKSIZE, p), Ahead(kind, content, n, p + n);
      && sofar + Encode(now) == data + Encode(ahead)
      && |now| == 1 + |ahead|
      && n <= DATA_BLOCKSIZE
  {
    hide Block, DataPayload, Encode, Chunks;
    EncodeChunk(kind, content, p);
    var n := ChunkLen(content, p);
    InThree(sofar, Block(DataPayload(kind, content[p..p + n])), Encode(Ahead(kind, content, n, p + n)));
  }

  lemma InThree(a: Bytes, b: Bytes, c: Bytes)
    ensures a + (b + c) == a + b + c
  {
  }

  // The first piece of what follows position p of a file, and the rest.
  lemma EncodeChunk(kind: nat, content: Bytes, p: nat)
    requires p <= |content|
    ensures var n := ChunkLen(content, p);
      var ahead := Ahead(kind, content, n, p + n);
      && Encode(Chunks(kind, content[p..])) == Block(DataPayload(kind, content[p..p + n])) + Encode(ahead)
      && |Chunks(kind, content[p..])| == 1 + |ahead|
  {
    hide Block, DataPayload;
    var file := content[p..];
    var cs := Chunks(kind, file);
    if |file| < DATA_BLOCKSIZE {
      assert file == content[p..p + |file|] && cs[1..] == [];
    } else {
      assert file[..DATA_BLOCKSIZE] == content[p..p + DATA_BLOCKSIZE];
      assert file[DATA_BLOCKSIZE..] == content[p + DATA_BLOCKSIZE..];
      assert cs[1..] == Chunks(kind, content[p + DATA_BLOCKSIZE..]);
    }
  }

  // insertint16_t into a buffer.
  function Insert(buf: Bytes, at: nat, v: nat): (r: Bytes)
    requires at + 2 <= |buf|
    ensures |r| == |buf|
  {
    buf[..at] + Short(v) + buf[at + 2..]
  }

  // The header's fields are where the edits put them.
  lemma InsertHeader(reseller: nat, count: nat, v: nat)
    ensures Insert(HeaderPayload(reseller, count), 8, v) == HeaderPayload(reseller, v)
    ensures Insert(HeaderPayload(reseller, count), 2, v) == HeaderPayload(v, count)
  {
    hide Short;
  }

  // What a header edit leaves of a file: the payload of n bytes with one field
  // replaced, and its CRC.
  function Edited(data: Bytes, n: nat, at: nat, v: nat): (r: Bytes)
    requires 4 + n <= |data| && at + 2 <= n
    ensures |r| == |data|
  {
    var payload := Insert(data[4..4 + n], at, v);
    data[..2] + Short(Crc(payload)) + payload + data[4 + n..]
  }

  // On a file that starts with a block, the edit gives the block of the edited
  // payload, CRC included, and touches nothing else.
  lemma EditedBlock(payload: Bytes, tail: Bytes, at: nat, v: nat)
    requires at + 2 <= |payload|
    ensures Edited(Block(payload) + tail, |payload|, at, v) == Block(Insert(payload, at, v)) + tail
  {
    hide Short, Crc, Insert;
    var a, b := Short(|payload| + 2), Short(Crc(payload));
    var data := a + b + payload + tail;
    assert data[..2] == a && data[4..4 + |payload|] == payload && data[4 + |payload|..] == tail;
  }

  // fseek and fwrite within a file.
  method Overwrite(file: File, at: nat, buf: Bytes)
    requires at + |buf| <= |file.data|
    modifies file
    ensures file.data == old(file.data[..at]) + buf + old(file.data[at + |buf|..])
  {
    file.Seek(at);
    file.Write(buf);
  }

  // The header edit of `fup -c` and `fup -r`: read the header payload, change a
  // field, write it back, then write its new CRC.
  method EditHeader(irdFile: File, headerDataBlockLen: nat, at: nat, v: nat)
    requires 4 + headerDataBlockLen <= |irdFile.data| && at + 2 <= headerDataBlockLen
    modifies irdFile
    ensures irdFile.data == Edited(old(irdFile.data), headerDataBlockLen, at, v)
  {
    hide Short, Crc, Insert;
    ghost var before := irdFile.data;
    irdFile.Seek(4);
    var dataBuf := irdFile.Read(headerDataBlockLen);
    assert dataBuf == before[4..4 + headerDataBlockLen];
    dataBuf := Insert(dataBuf, at, v);
    Overwrite(irdFile, 4, dataBuf);
    var dataCrc := Crc(dataBuf);
    ghost var rest := before[4 + headerDataBlockLen..];
    TwoWrites(before, dataBuf, rest, Short(dataCrc));
    Overwrite(irdFile, 2, Short(dataCrc));
  }

  lemma TwoWrites(before: Bytes, payload: Bytes, rest: Bytes, crc: Bytes)
    requires |before| >= 4 && |crc| == 2
    ensures var data := before[..4] + payload + rest;
      data[..2] + crc + data[2 + |crc|..] == before[..2] + crc + payload + rest
  {
    var data := before[..4] + payload + rest;
    assert data[..2] == before[..2] && data[4..] == payload + rest;
  }

  // The payload length that `fup -r` takes from the first block, kept in a byte.
  function HeaderLength(data: Bytes): nat {
    (LengthAt(data, 0) - 2) % 256
  }

  // Whether the first block has room for the field that `fup -r` edits.
  predicate CanResell(data: Bytes) {
    4 <= HeaderLength(data) <= |data| - 4
  }

  function Resold(data: Bytes, resellerId: nat): Bytes
    requires CanResell(data)
  {
    Edited(data, HeaderLength(data), 2, resellerId % TWO16)
  }

  /** `fup -r`: change the reseller id. */
  method ChangeReseller(irdFile: File, resellerId: nat)
    requires irdFile.pos == 0 && CanResell(irdFile.data)
    modifies irdFile
    ensures irdFile.data == Resold(old(irdFile.data), resellerId)
  {
    hide Edited, LengthAt;
    var len := ReadShort(irdFile);
    var headerDataBlockLen := (len as int - 2) % 256;
    EditHeader(irdFile, headerDataBlockLen, 2, resellerId % TWO16);
  }

  lemma ResoldImage(reseller: nat, count: nat, tail: Bytes, id: nat)
    ensures var data := Block(HeaderPayload(reseller, count)) + tail;
      CanResell(data) && Resold(data, id) == Block(HeaderPayload(id % TWO16, count)) + tail
  {
    hide Block, HeaderPayload, Edited, LengthAt, Insert, Crc, Short, ToShort;
    var payload := HeaderPayload(reseller, count);
    ReadsBlock([], payload, tail);
    assert [] + Block(payload) + tail == Block(payload) + tail;
    EditedBlock(payload, tail, 2, id % TWO16);
    InsertHeader(reseller, count, id % TWO16);
  }

  // Any number of runs of `fup -r` on containers of this format.
  predicate ResoldTo(data: Bytes, ids: seq<nat>, data': Bytes)
    decreases |ids|
  {
    if ids == [] then data' == data
    else CanResell(data) && ResoldTo(Resold(data, ids[0]), ids[1..], data')
  }

  /** After any number of reseller edits the header is the block of a header
      payload, so its CRC matches, with the last id and the old block count; the
      data blocks are untouched. */
  lemma {:induction false} EditsKeepBlocks(reseller: nat, count: nat, tail: Bytes, ids: seq<nat>, data': Bytes)
    requires ResoldTo(Block(HeaderPayload(reseller, count)) + tail, ids, data')
    ensures data' == Block(HeaderPayload(if ids == [] then reseller else ids[|ids| - 1] % TWO16, count)) + tail
    decreases |ids|
  {
    hide Block, HeaderPayload, Resold, CanResell;
    if ids != [] {
      ResoldImage(reseller, count, tail, ids[0]);
      EditsKeepBlocks(ids[0] % TWO16, count, tail, ids[1..], data');
    }
  }

  lemma HeaderBytes(reseller: nat, count: nat, tail: Bytes)
    ensures var data := Block(HeaderPayload(reseller, count)) + tail;
      && data[2..4] == Short(Crc(data[4..20])) && data[12..14] == Short(count)
      && data[20..] == tail
  {
    hide Short, Crc;
    var payload := HeaderPayload(reseller, count);
    var data := Block(payload) + tail;
    assert data[4..20] == payload;
    assert data[12..14] == payload[8..10];
  }

  /** After creation and any number of reseller edits, the bytes of the file say:
      the stored CRC is that of the header payload, the count field is the number
      of data blocks modulo 2^16, and the data blocks are those of the parts. */
  lemma HeaderAfterEdits(args: seq<(string, Bytes)>, ids: seq<nat>, data': Bytes)
    requires ResoldTo(Image(0x2303, PartsOfArgs(args)), ids, data')
    ensures |data'| >= 20
    ensures ToShort(data'[2], data'[3]) == Crc(data'[4..20])
    ensures ToShort(data'[12], data'[13]) == |AllChunks(PartsOfArgs(args))| % TWO16
    ensures data'[20..] == Encode(AllChunks(PartsOfArgs(args)))
  {
    hide Block, HeaderPayload, Encode, AllChunks, ResoldTo, PartsOfArgs, Short, ToShort, Crc;
    var chunks := AllChunks(PartsOfArgs(args));
    var count := Wrap(|chunks|);
    EditsKeepBlocks(0x2303, count, Encode(chunks), ids, data');
    HeaderBytes(if ids == [] then 0x2303 else ids[|ids| - 1] % TWO16, count, Encode(chunks));
    assert data'[2..4][0] == data'[2] && data'[2..4][1] == data'[3];
    assert data'[12..14][0] == data'[12] && data'[12..14][1] == data'[13];
    ShortRound(Crc(data'[4..20]));
    ShortRound(count);
  }

  /** What `fup -c` wrote and `fup -r` edited, `fup -x` takes apart again into the
      same files. */
  lemma EditedImageExtracts(args: seq<(string, Bytes)>, ids: seq<nat>, data': Bytes, kind: nat)
    requires kind < MAX_PART_NUMBER
    requires ResoldTo(Image(0x2303, PartsOfArgs(args)), ids, data')
    ensures var (o, end) := Extract(data');
      && o.files[kind] == Joined(PartsOfArgs(args), kind)
      && o.bad == 0 && o.blocks == 1 + |AllChunks(PartsOfArgs(args))| && end == |data'|
  {
    hide Block, HeaderPayload, Encode, Extract, AllChunks, Joined, ResoldTo, PartsOfArgs;
    var parts := PartsOfArgs(args);
    var count := Wrap(|AllChunks(parts)|);
    EditsKeepBlocks(0x2303, count, Encode(AllChunks(parts)), ids, data');
    ExtractOfImage(if ids == [] then 0x2303 else ids[|ids| - 1] % TWO16, count, parts, kind);
  }

  // The option that names a partition type.
  function PartType(option: string): nat {
    if option == "-a" || option == "-1" then 1
    else if option == "-c0" || option == "-2" then 2
    else if option == "-c4" || option == "-3" then 3
    else if option == "-c8" || option == "-4" then 4
    else if option == "-ca" || option == "-5" then 5
    else if option == "-k" || option == "-6" then 6
    else if option == "-d" || option == "-7" then 7
    else if option == "-r" || option == "-8" then 8
    else if option == "-u" || option == "-9" then 9
    else if option == "-10" then HEADER_TYPE
    else 1
  }

  // The parts that the command line names. The code counts its arguments in a
  // byte, so 128 parts, and every further 128, are dropped.
  function PartsOfArgs(args: seq<(string, Bytes)>): (r: seq<Part>)
    ensures |r| == |args| % 128
    ensures PartsFit(r)
  {
    seq(|args| % 128, i requires 0 <= i < |args| % 128 => Part(PartType(args[i].0), args[i].1))
  }

  /** All the arguments become parts exactly when there are fewer than 128; with
      128 of them nothing at all is stored. */
  lemma PartsDropped(args: seq<(string, Bytes)>, kind: nat)
    requires kind < MAX_PART_NUMBER
    ensures |PartsOfArgs(args)| == |args| <==> |args| < 128
    ensures |args| == 128 ==> Extract(Image(0x2303, PartsOfArgs(args))).0.files[kind] == None
  {
    hide Extract, Block, HeaderPayload;
    assert |args| == 128 ==> PartsOfArgs(args) == [];
    ExtractOfImage(0x2303, 0, [], kind);
  }

  // The two options for each of the types 1 to 9.
  const OPTIONS: seq<(string, string)> := [("-a", "-1"), ("-c0", "-2"), ("-c4", "-3"), ("-c8", "-4"), ("-ca", "-5"),
                                           ("-k", "-6"), ("-d", "-7"), ("-r", "-8"), ("-u", "-9")]

  /** A file given with the i-th pair of options is extracted as partition type
      i + 1, one given with "-10" as type 16, and one with any other word as type 1;
      nothing else is extracted. */
  lemma OptionExtracts(option: string, file: Bytes, kind: nat)
    requires kind < 17
    ensures var files := Extract(Image(0x2303, PartsOfArgs([(option, file)]))).0.files;
      && (forall i :: 0 <= i < 9 && (option == OPTIONS[i].0 || option == OPTIONS[i].1) ==>
            files[kind] == if kind == i + 1 then Some(file) else None)
      && (option == "-10" ==> files[kind] == if kind == 16 then Some(file) else None)
      && ((forall i :: 0 <= i < 9 ==> option != OPTIONS[i].0 && option != OPTIONS[i].1) && option != "-10" ==>
            files[kind] == if kind == 1 then Some(file) else None)
  {
    hide PartType;
    OptionTypes(option);
    if (forall i :: 0 <= i < 9 ==> option != OPTIONS[i].0 && option != OPTIONS[i].1) && option != "-10" {
      OtherOption(option);
    }
    var parts := PartsOfArgs([(option, file)]);
    assert parts == [Part(PartType(option), file)];
    hide PartsOfArgs, Extract, Block, HeaderPayload, AllChunks, Encode, Joined;
    ExtractOfImage(0x2303, Wrap(|AllChunks(parts)|), parts, kind);
    OnePart(PartType(option), file, kind);
  }

  // The nine words in the first column, and the nine in the second, with "-10",
  // differ in their first three characters.
  function Letters(option: string): (char, char) {
    (if |option| > 1 then option[1] else ' ', if |option| > 2 then option[2] else ' ')
  }

  lemma OptionTypes(option: string)
    ensures forall i :: 0 <= i < 9 && (option == OPTIONS[i].0 || option == OPTIONS[i].1) ==> PartType(option) == i + 1
    ensures option == "-10" ==> PartType(option) == 16
  {
    var l := Letters(option);
    assert option == "-a" ==> l == ('a', ' ');
    assert option == "-1" ==> l == ('1', ' ');
    assert option == "-c0" ==> l == ('c', '0');
    assert option == "-2" ==> l == ('2', ' ');
    assert option == "-c4" ==> l == ('c', '4');
    assert option == "-3" ==> l == ('3', ' ');
    assert option == "-c8" ==> l == ('c', '8');
    assert option == "-4" ==> l == ('4', ' ');
    assert option == "-ca" ==> l == ('c', 'a');
    assert option == "-5" ==> l == ('5', ' ');
    assert option == "-k" ==> l == ('k', ' ');
    assert option == "-6" ==> l == ('6', ' ');
    assert option == "-d" ==> l == ('d', ' ');
    assert option == "-7" ==> l == ('7', ' ');
    assert option == "-r" ==> l == ('r', ' ');
    assert option == "-8" ==> l == ('8', ' ');
    assert option == "-u" ==> l == ('u', ' ');
    assert option == "-9" ==> l == ('9', ' ');
    assert option == "-10" ==> l == ('1', '0');
    assert OPTIONS[0] == ("-a", "-1");
    assert OPTIONS[1] == ("-c0", "-2");
    assert OPTIONS[2] == ("-c4", "-3");
    assert OPTIONS[3] == ("-c8", "-4");
    assert OPTIONS[4] == ("-ca", "-5");
    assert OPTIONS[5] == ("-k", "-6");
    assert OPTIONS[6] == ("-d", "-7");
    assert OPTIONS[7] == ("-r", "-8");
    assert OPTIONS[8] == ("-u", "-9");
    hide Letters;
  }

  lemma OtherOption(option: string)
    requires forall i :: 0 <= i < 9 ==> option != OPTIONS[i].0 && option != OPTIONS[i].1
    requires option != "-10"
    ensures PartType(option) == 1
  {
    assert OPTIONS[0] == ("-a", "-1");
    assert OPTIONS[1] == ("-c0", "-2");
    assert OPTIONS[2] == ("-c4", "-3");
    assert OPTIONS[3] == ("-c8", "-4");
    assert OPTIONS[4] == ("-ca", "-5");
    assert OPTIONS[5] == ("-k", "-6");
    assert OPTIONS[6] == ("-d", "-7");
    assert OPTIONS[7] == ("-r", "-8");
    assert OPTIONS[8] == ("-u", "-9");
  }

  lemma OnePart(t: nat, file: Bytes, kind: nat)
    ensures Joined([Part(t, file)], kind) == if kind == t then Some(file) else None
  {
    assert [Part(t, file)][1..] == [];
    assert file + [] == file;
  }

  lemma {:induction false} AllChunksSnoc(parts: seq<Part>, p: Part)
    ensures AllChunks(parts + [p]) == AllChunks(parts) + Chunks(p.kind, p.file)
  {
    hide Chunks;
    if parts == [] {
      assert [p][1..] == [];
    } else {
      assert (parts + [p])[1..] == parts[1..] + [p];
      AllChunksSnoc(parts[1..], p);
    }
  }

  lemma {:induction false} EncodeAppend(a: seq<Chunk>, b: seq<Chunk>)
    ensures Encode(a + b) == Encode(a) + Encode(b)
    decreases a
  {
    hide Block, DataPayload;
    if a == [] {
      assert a + b == b;
    } else {
      assert (a + b)[1..] == a[1..] + b;
      EncodeAppend(a[1..], b);
      InThree(Block(DataPayload(a[0].kind, a[0].data)), Encode(a[1..]), Encode(b));
    }
  }

  // One more part written.
  lemma PartWritten(parts: seq<Part>, p: Part)
    ensures Encode(AllChunks(parts + [p])) == Encode(AllChunks(parts)) + Encode(Chunks(p.kind, p.file))
    ensures |AllChunks(parts + [p])| == |AllChunks(parts)| + |Chunks(p.kind, p.file)|
  {
    hide Encode, Chunks, AllChunks;
    AllChunksSnoc(parts, p);
    EncodeAppend(AllChunks(parts), Chunks(p.kind, p.file));
  }

  lemma PartAt(args: seq<(string, Bytes)>, i: nat)
    requires i < |args| % 128
    ensures var parts := PartsOfArgs(args);
      parts[i] == Part(PartType(args[i].0), args[i].1) && parts[..i + 1] == parts[..i] + [parts[i]]
  {
    hide PartType;
  }

  // The loop of `fup -c` over the arguments, behind a header block.
  method AppendParts(irdFile: File, args: seq<(string, Bytes)>) returns (totalBlockCount: nat)
    requires irdFile.pos == |irdFile.data|
    modifies irdFile
    ensures irdFile.data == old(irdFile.data) + Encode(AllChunks(PartsOfArgs(args)))
    ensures totalBlockCount == Wrap(|AllChunks(PartsOfArgs(args))|)
  {
    hide Encode, AllChunks, Chunks, PartType, PartsOfArgs, Wrap;
    ghost var header := irdFile.data;
    totalBlockCount := 0;
    var appendPartCount := 2 * |args| % 256;
    ghost var parts := PartsOfArgs(args);
    var i := 0;
    CreateStart(header);
    WrapSmall(0);
    while i < appendPartCount
      invariant i <= appendPartCount && i % 2 == 0
      invariant irdFile.pos == |irdFile.data|
      invariant irdFile.data == header + Encode(AllChunks(parts[..i / 2]))
      invariant totalBlockCount == Wrap(|AllChunks(parts[..i / 2])|)
    {
      var kind := PartType(args[i / 2].0);
      ghost var done := parts[..i / 2];
      PartAt(args, i / 2);
      PartWritten(done, parts[i / 2]);
      InThree(header, Encode(AllChunks(done)), Encode(Chunks(kind, args[i / 2].1)));
      WrapAdd(|AllChunks(done)|, |Chunks(kind, args[i / 2].1)|);
      totalBlockCount := AppendPart(irdFile, kind, args[i / 2].1, totalBlockCount);
      i := i + 2;
    }
    assert parts[..i / 2] == parts;
  }

  /** `fup -c`: create a container from pairs of an option and a file. */
  method Create(args: seq<(string, Bytes)>) returns (irdFile: File)
    ensures fresh(irdFile) && irdFile.data == Image(0x2303, PartsOfArgs(args))
  {
    hide Block, HeaderPayload, Encode, AllChunks, Edited, Insert, PartsOfArgs, Wrap;
    irdFile := new File([]);
    ghost var payload := HeaderPayload(0x2303, 0xFFFF);
    irdFile.Write(Block(HeaderPayload(0x2303, 0xFFFF)));
    assert irdFile.data == Block(payload);
    var totalBlockCount := AppendParts(irdFile, args);
    EditedBlock(payload, Encode(AllChunks(PartsOfArgs(args))), 8, totalBlockCount);
    EditHeader(irdFile, 16, 8, totalBlockCount);
    InsertHeader(0x2303, 0xFFFF, totalBlockCount);
  }

  lemma CreateStart(header: Bytes)
    ensures header == header + Encode(AllChunks([])) && |AllChunks([])| == 0
  {
  }
}

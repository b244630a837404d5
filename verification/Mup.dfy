/** The nested update image of mup.src (swpack, swinventory, swunity): a SwPack
    header, eight inventory slots, and for each partition a unity header and its
    file, padded. Numbers are little-endian, as on the host that casts the
    structures. What the code leaves to malloc and to reads past a buffer is a
    parameter (Junk); the image buffer itself is taken as zero-filled. */
module Mup {
  import opened Octets
  import Sha1

  const TWO32: nat := 0x1_0000_0000
  const MAX_IMAGE: nat := 0x7FFF_FFFF
  const HEADER_SIZE: nat := 512
  const INVENTORY_SIZE: nat := 64
  const MAX_INVENTORIES: nat := 8
  const CHILDREN: nat := 1024
  const VERSION: U32 := 100
  const UNITY_SIZE: nat := 216
  const INVENTORY_HEADER: nat := 32

  type U32 = v: nat | v < 0x1_0000_0000

  // "MARUSWUP"
  const MAGIC: Bytes := [0x4D, 0x41, 0x52, 0x55, 0x53, 0x57, 0x55, 0x50]
  // "Software Update" and its NUL
  const INFO: Bytes := [0x53, 0x6F, 0x66, 0x74, 0x77, 0x61, 0x72, 0x65, 0x20, 0x55, 0x70, 0x64, 0x61, 0x74, 0x65, 0]

  // The SHA-1 word load and the CRC-32, as parameters.
  datatype Env = Env(load: Sha1.Load, crc32: Bytes -> U32)

  // ---------------------------------------------------------------- numbers

  function Le32(v: nat): (r: Bytes)
    ensures |r| == 4
  {
    [Byte(v), Byte(v / 256), Byte(v / 256 / 256), Byte(v / 256 / 256 / 256)]
  }

  function At32(b: Bytes, p: nat): U32
    requires p + 4 <= |b|
  {
    Join(b[p] as nat, b[p + 1] as nat, b[p + 2] as nat, b[p + 3] as nat)
  }

  function Join(a: nat, b: nat, c: nat, d: nat): U32
    requires a < 256 && b < 256 && c < 256 && d < 256
  {
    a + 256 * (b + 256 * (c + 256 * d))
  }

  lemma Quarters(v: nat)
    requires v < TWO32
    ensures v / 256 / 256 / 256 < 256
    ensures v == Join(v % 256, v / 256 % 256, v / 256 / 256 % 256, v / 256 / 256 / 256 % 256)
  {
  }

  lemma Le32Round(b: Bytes, p: nat, v: U32)
    requires p + 4 <= |b| && b[p..p + 4] == Le32(v)
    ensures At32(b, p) == v
  {
    hide Byte, Join;
    assert b[p..p + 4][0] == b[p] && b[p..p + 4][1] == b[p + 1] && b[p..p + 4][2] == b[p + 2]
      && b[p..p + 4][3] == b[p + 3];
    ByteIs(v);
    ByteIs(v / 256);
    ByteIs(v / 256 / 256);
    ByteIs(v / 256 / 256 / 256);
    Quarters(v);
  }

  function Words(ws: seq<U32>): (r: Bytes)
    ensures |r| == 4 * |ws|
  {
    if ws == [] then [] else Le32(ws[0]) + Words(ws[1..])
  }

  lemma {:induction false} WordAt(b: Bytes, p: nat, ws: seq<U32>, i: nat)
    requires i < |ws| && p + 4 * |ws| <= |b| && b[p..p + 4 * |ws|] == Words(ws)
    ensures At32(b, p + 4 * i) == ws[i]
    decreases i
  {
    hide Le32, At32;
    var all := b[p..p + 4 * |ws|];
    if i == 0 {
      assert b[p..p + 4] == all[..4];
      Le32Round(b, p, ws[0]);
    } else {
      assert b[p + 4..p + 4 + 4 * |ws[1..]|] == all[4..];
      WordAt(b, p + 4, ws[1..], i - 1);
    }
  }

  // ---------------------------------------------------------------- headers

  datatype PackHeader = PackHeader(magic: Bytes, version: U32, product: U32, sw: U32, date: U32,
                                   count: U32, invalidate: U32, info: Bytes)

  datatype InventoryHeader = InventoryHeader(magic: Bytes, version: U32, imageOffset: U32, imageSize: U32,
                                             flashOffset: U32, sw: U32, imageNumber: U32)

  datatype UnityHeader = UnityHeader(magic: Bytes, version: U32, product: U32, sw: U32, date: U32, flashOffset: U32,
                                     dataLength: U32, hash: Bytes, crc: U32, fileName: Bytes, info: Bytes)

  function EncodePack(h: PackHeader): (r: Bytes)
    ensures |r| == |h.magic| + 24 + |h.info|
  {
    h.magic + Words([h.version, h.product, h.sw, h.date, h.count, h.invalidate]) + h.info
  }

  function EncodeInventory(h: InventoryHeader): (r: Bytes)
    ensures |r| == |h.magic| + 24
  {
    h.magic + Words([h.version, h.imageOffset, h.imageSize, h.flashOffset, h.sw, h.imageNumber])
  }

  function EncodeUnity(h: UnityHeader): (r: Bytes)
    ensures |r| == |h.magic| + 24 + |h.hash| + 4 + |h.fileName| + |h.info|
  {
    h.magic + Words([h.version, h.product, h.sw, h.date, h.flashOffset, h.dataLength]) + h.hash + Words([h.crc])
      + h.fileName + h.info
  }

  // The structures as the casts read them at a position of the image.
  function PackIn(b: Bytes): PackHeader
    requires 160 <= |b|
  {
    PackHeader(b[..8], At32(b, 8), At32(b, 12), At32(b, 16), At32(b, 20), At32(b, 24), At32(b, 28), b[32..160])
  }

  function InventoryIn(b: Bytes, p: nat): InventoryHeader
    requires p + INVENTORY_HEADER <= |b|
  {
    InventoryHeader(b[p..p + 8], At32(b, p + 8), At32(b, p + 12), At32(b, p + 16), At32(b, p + 20), At32(b, p + 24),
                    At32(b, p + 28))
  }

  function UnityIn(b: Bytes, p: nat): UnityHeader
    requires p + UNITY_SIZE <= |b|
  {
    UnityHeader(b[p..p + 8], At32(b, p + 8), At32(b, p + 12), At32(b, p + 16), At32(b, p + 20), At32(b, p + 24),
                At32(b, p + 28),
                b[p + 32..p + 52], At32(b, p + 52), b[p + 56..p + 88], b[p + 88..p + 216])
  }

  lemma SixWords(b: Bytes, p: nat, ws: seq<U32>)
    requires |ws| == 6 && p + 24 <= |b| && b[p..p + 24] == Words(ws)
    ensures At32(b, p) == ws[0] && At32(b, p + 4) == ws[1] && At32(b, p + 8) == ws[2]
    ensures At32(b, p + 12) == ws[3] && At32(b, p + 16) == ws[4] && At32(b, p + 20) == ws[5]
  {
    hide Words, At32;
    WordAt(b, p, ws, 0);
    WordAt(b, p, ws, 1);
    WordAt(b, p, ws, 2);
    WordAt(b, p, ws, 3);
    WordAt(b, p, ws, 4);
    WordAt(b, p, ws, 5);
  }

  lemma InventoryRound(b: Bytes, p: nat, h: InventoryHeader)
    requires |h.magic| == 8 && p + INVENTORY_HEADER <= |b| && b[p..p + INVENTORY_HEADER] == EncodeInventory(h)
    ensures InventoryIn(b, p) == h
  {
    hide Words, At32;
    var ws := [h.version, h.imageOffset, h.imageSize, h.flashOffset, h.sw, h.imageNumber];
    var all := b[p..p + INVENTORY_HEADER];
    assert b[p..p + 8] == all[..8] == h.magic;
    assert b[p + 8..p + 32] == all[8..] == Words(ws);
    SixWords(b, p + 8, ws);
  }

  lemma PackRound(h: PackHeader, rest: Bytes)
    requires HeaderOk(h)
    ensures PackIn(EncodePack(h) + rest) == h
  {
    hide Words, At32;
    var b := EncodePack(h) + rest;
    var ws := [h.version, h.product, h.sw, h.date, h.count, h.invalidate];
    assert b[..8] == h.magic && b[8..32] == Words(ws) && b[32..160] == h.info;
    SixWords(b, 8, ws);
  }

  predicate HeaderOk(h: PackHeader) {
    |h.magic| == 8 && |h.info| == 128
  }

  predicate Shaped(h: UnityHeader) {
    |h.magic| == 8 && |h.hash| == 20 && |h.fileName| == 32 && |h.info| == 128
  }

  lemma SubSlice(b: Bytes, lo: nat, hi: nat, i: nat, j: nat)
    requires i <= j <= hi - lo && hi <= |b|
    ensures b[lo..hi][i..j] == b[lo + i..lo + j]
  {
    forall k | 0 <= k < j - i
      ensures b[lo..hi][i..j][k] == b[lo + i..lo + j][k]
    {
    }
  }

  lemma UnityPieces(b: Bytes, p: nat, magic: Bytes, ws: Bytes, hash: Bytes, crc: Bytes, name: Bytes, info: Bytes)
    requires |magic| == 8 && |ws| == 24 && |hash| == 20 && |crc| == 4 && |name| == 32 && |info| == 128
    requires p + UNITY_SIZE <= |b| && b[p..p + UNITY_SIZE] == magic + ws + hash + crc + name + info
    ensures b[p..p + 8] == magic && b[p + 8..p + 32] == ws && b[p + 32..p + 52] == hash
    ensures b[p + 52..p + 56] == crc && b[p + 56..p + 88] == name && b[p + 88..p + 216] == info
  {
    var all := b[p..p + UNITY_SIZE];
    SubSlice(b, p, p + UNITY_SIZE, 0, 8);
    SubSlice(b, p, p + UNITY_SIZE, 8, 32);
    SubSlice(b, p, p + UNITY_SIZE, 32, 52);
    SubSlice(b, p, p + UNITY_SIZE, 52, 56);
    SubSlice(b, p, p + UNITY_SIZE, 56, 88);
    SubSlice(b, p, p + UNITY_SIZE, 88, 216);
    assert all[..8] == magic && all[8..32] == ws && all[32..52] == hash;
    assert all[52..56] == crc && all[56..88] == name && all[88..216] == info;
  }

  lemma UnityRound(b: Bytes, p: nat, h: UnityHeader)
    requires Shaped(h) && p + UNITY_SIZE <= |b| && b[p..p + UNITY_SIZE] == EncodeUnity(h)
    ensures UnityIn(b, p) == h
  {
    hide Words, At32;
    var ws := [h.version, h.product, h.sw, h.date, h.flashOffset, h.dataLength];
    UnityPieces(b, p, h.magic, Words(ws), h.hash, Words([h.crc]), h.fileName, h.info);
    SixWords(b, p + 8, ws);
    WordAt(b, p + 52, [h.crc], 0);
  }

  // ------------------------------------------------------------- the format

  // Bytes that no statement sets: the rest of the name and info fields, the
  // bytes between the unity header and the file, and the padding.
  datatype Junk = Junk(name: Bytes, info: Bytes, gap: Bytes, pad: Bytes)

  // A partition as appended, with the product code and date of its header.
  datatype Part = Part(flashOffset: U32, name: Bytes, data: Bytes, product: U32, date: U32, junk: Junk)

  function Padding(len: nat): (r: nat)
    ensures r < 0x100 && (len + r) % 0x100 == 0
  {
    if len % 0x100 != 0 then 0x100 - len % 0x100 else 0
  }

  predicate NoNul(name: Bytes) {
    forall i :: 0 <= i < |name| ==> name[i] != 0
  }

  predicate PartOk(p: Part) {
    && |p.name| <= 31 && NoNul(p.name)
    && |p.data| < TWO32
    && |p.junk.name| == 31 - |p.name| && |p.junk.info| == 112 && |p.junk.gap| == 296
    && |p.junk.pad| == Padding(HEADER_SIZE + |p.data|)
  }

  ghost predicate PartsOk(parts: seq<Part>) {
    forall i :: 0 <= i < |parts| ==> PartOk(parts[i])
  }

  function Unity(env: Env, p: Part): (h: UnityHeader)
    requires PartOk(p)
    ensures Shaped(h)
  {
    UnityHeader(MAGIC, VERSION, p.product, 101, p.date, p.flashOffset, |p.data|,
                Sha1.Digest(env.load, p.data), env.crc32(p.data), p.name + [0] + p.junk.name, INFO + p.junk.info)
  }

  // The unity header, the file, and the padding to a multiple of 0x100.
  function Child(env: Env, p: Part): (r: Bytes)
    requires PartOk(p)
    ensures |r| == ChildSize(p)
  {
    EncodeUnity(Unity(env, p)) + p.junk.gap + p.data + p.junk.pad
  }

  function ChildSize(p: Part): (n: nat)
    ensures n % 0x100 == 0 && HEADER_SIZE + |p.data| <= n < HEADER_SIZE + |p.data| + 0x100
  {
    HEADER_SIZE + |p.data| + Padding(HEADER_SIZE + |p.data|)
  }

  // Where the child of the k-th partition starts, from the end of the slots.
  function Offset(parts: seq<Part>, k: nat): nat
    requires k <= |parts|
  {
    if k == 0 then 0 else Offset(parts, k - 1) + ChildSize(parts[k - 1])
  }

  lemma OffsetStart(parts: seq<Part>)
    ensures Offset(parts, 0) == 0
  {
  }

  lemma OffsetStep(parts: seq<Part>, k: nat)
    requires k < |parts|
    ensures Offset(parts, k + 1) == Offset(parts, k) + ChildSize(parts[k])
  {
    hide ChildSize;
  }

  function ImageSize(parts: seq<Part>): nat {
    CHILDREN + Offset(parts, |parts|)
  }

  lemma {:induction false} OffsetGrows(parts: seq<Part>, i: nat, k: nat)
    requires i <= k <= |parts|
    ensures Offset(parts, i) <= Offset(parts, k)
    ensures i < k ==> Offset(parts, i) + ChildSize(parts[i]) <= Offset(parts, k)
    decreases k
  {
    hide ChildSize;
    if i < k { OffsetGrows(parts, i, k - 1); }
  }

  lemma {:induction false} OffsetAligned(parts: seq<Part>, k: nat)
    requires k <= |parts|
    ensures Offset(parts, k) % 0x100 == 0
  {
    hide ChildSize;
    if k > 0 {
      OffsetAligned(parts, k - 1);
      AddAligned(Offset(parts, k - 1), ChildSize(parts[k - 1]));
    }
  }

  lemma AddAligned(a: nat, b: nat)
    requires a % 0x100 == 0 && b % 0x100 == 0
    ensures (a + b) % 0x100 == 0
  {
  }

  // The written inventory header keeps the size before padding.
  function Inventory(parts: seq<Part>, k: nat): (h: InventoryHeader)
    requires k < |parts| && PartOk(parts[k]) && ImageSize(parts) <= MAX_IMAGE
    ensures |h.magic| == 8
  {
    OffsetGrows(parts, k, |parts|);
    InventoryHeader(MAGIC, VERSION, Offset(parts, k), |parts[k].data| + HEADER_SIZE, parts[k].flashOffset, 0, 0)
  }

  function Zeros(n: nat): (r: Bytes)
    ensures |r| == n && forall i :: 0 <= i < n ==> r[i] == 0
  {
    seq(n, _ => 0)
  }

  ghost predicate Buildable(parts: seq<Part>) {
    |parts| <= MAX_INVENTORIES && PartsOk(parts) && ImageSize(parts) <= MAX_IMAGE
  }

  // The eight slots with the first n filled.
  ghost function Slots(parts: seq<Part>, n: nat): (r: Bytes)
    requires Buildable(parts) && n <= |parts|
    ensures |r| == MAX_INVENTORIES * INVENTORY_SIZE
  {
    seq(MAX_INVENTORIES * INVENTORY_SIZE, j requires 0 <= j < MAX_INVENTORIES * INVENTORY_SIZE =>
      if j / INVENTORY_SIZE < n && j % INVENTORY_SIZE < INVENTORY_HEADER
      then EncodeInventory(Inventory(parts, j / INVENTORY_SIZE))[j % INVENTORY_SIZE] else 0)
  }

  // The children of the first n partitions, without anything between them.
  ghost function Children(env: Env, parts: seq<Part>, n: nat): (r: Bytes)
    requires PartsOk(parts) && n <= |parts|
    ensures |r| == Offset(parts, n)
  {
    if n == 0 then [] else Children(env, parts, n - 1) + Child(env, parts[n - 1])
  }

  function Front(h: PackHeader): (r: Bytes)
    requires HeaderOk(h)
    ensures |r| == HEADER_SIZE
  {
    EncodePack(h) + Zeros(352)
  }

  // The image while n partitions have been copied into its buffer.
  ghost function Filled(env: Env, h: PackHeader, parts: seq<Part>, n: nat): (r: Bytes)
    requires HeaderOk(h) && Buildable(parts) && n <= |parts|
    ensures |r| == ImageSize(parts)
  {
    OffsetGrows(parts, n, |parts|);
    Front(h) + Slots(parts, n) + Children(env, parts, n) + Zeros(Offset(parts, |parts|) - Offset(parts, n))
  }

  /** The finished image: it is tiled by the SwPack header, the slots and the
      children, with nothing left over. */
  ghost function Image(env: Env, h: PackHeader, parts: seq<Part>): (r: Bytes)
    requires HeaderOk(h) && Buildable(parts)
    ensures |r| == ImageSize(parts)
  {
    Front(h) + Slots(parts, |parts|) + Children(env, parts, |parts|)
  }

  lemma FilledLast(env: Env, h: PackHeader, parts: seq<Part>)
    requires HeaderOk(h) && Buildable(parts)
    ensures Filled(env, h, parts, |parts|) == Image(env, h, parts)
  {
    hide Front, Slots, Children, Offset;
  }

  lemma FilledFirst(env: Env, h: PackHeader, parts: seq<Part>, buffer: Bytes)
    requires HeaderOk(h) && Buildable(parts)
    requires buffer == EncodePack(h) + Zeros(ImageSize(parts))[160..]
    ensures buffer == Filled(env, h, parts, 0)
  {
    hide EncodePack, EncodeInventory;
    assert Slots(parts, 0) == Zeros(512);
  }

  lemma ReplaceIn(front: Bytes, slots: Bytes, rest: Bytes, at: nat, e: Bytes)
    requires |front| == 512 && at + |e| <= |slots|
    ensures var all := front + slots + rest;
      all[..512 + at] + e + all[512 + at + |e|..] == front + (slots[..at] + e + slots[at + |e|..]) + rest
  {
  }

  lemma ReplaceZeros(front: Bytes, n: nat, e: Bytes)
    requires |e| <= n
    ensures var all := front + Zeros(n);
      all[..|front|] + e + all[|front| + |e|..] == front + e + Zeros(n - |e|)
  {
  }

  lemma FilledSlot(front: Bytes, slots: Bytes, slots': Bytes, children: Bytes, left: nat, n: nat, e: Bytes, b0: Bytes,
                   b1: Bytes)
    requires |front| == |slots| == 512 && n < 8 && |e| == 32
    requires slots' == slots[..64 * n] + e + slots[64 * n + 32..]
    requires b0 == front + slots + children + Zeros(left)
    requires b1 == b0[..SlotPos(n)] + e + b0[SlotPos(n) + 32..]
    ensures b1 == front + slots' + children + Zeros(left)
  {
    hide Zeros;
    ReplaceIn(front, slots, children + Zeros(left), 64 * n, e);
    assert b0 == front + slots + (children + Zeros(left));
    assert b1 == front + slots' + (children + Zeros(left));
  }

  // The two copies of one round of createImage.
  lemma FilledStep(env: Env, h: PackHeader, parts: seq<Part>, n: nat, b0: Bytes, b1: Bytes, b2: Bytes)
    requires HeaderOk(h) && Buildable(parts) && n < |parts| && b0 == Filled(env, h, parts, n)
    requires b1 == b0[..SlotPos(n)] + EncodeInventory(Inventory(parts, n)) + b0[SlotPos(n) + 32..]
    requires var at := CHILDREN + Offset(parts, n);
      && at + ChildSize(parts[n]) <= |b1|
      && b2 == b1[..at] + Child(env, parts[n]) + b1[at + ChildSize(parts[n])..]
    ensures b2 == Filled(env, h, parts, n + 1)
  {
    hide Front, Slots, EncodeInventory, Inventory, Child, ChildSize, Zeros, Offset, PartOk;
    var front, slots', children := Front(h), Slots(parts, n + 1), Children(env, parts, n);
    var child, left := Child(env, parts[n]), Offset(parts, |parts|) - Offset(parts, n);
    OffsetGrows(parts, n, |parts|);
    OffsetStep(parts, n);
    SlotFilled(parts, n);
    FilledSlot(front, Slots(parts, n), slots', children, left, n, EncodeInventory(Inventory(parts, n)), b0, b1);
    ReplaceZeros(front + slots' + children, left, child);
    assert Children(env, parts, n + 1) == children + child;
    Regroup(front + slots', children, child, Zeros(left - |child|));
  }

  lemma Regroup(a: Bytes, b: Bytes, c: Bytes, d: Bytes)
    ensures a + b + c + d == a + (b + c) + d
  {
  }

  // ------------------------------------------------------ reading an image

  function SlotPos(k: nat): nat {
    HEADER_SIZE + k * INVENTORY_SIZE
  }

  function InventoryAt(image: Bytes, k: nat): InventoryHeader
    requires |image| >= CHILDREN && k < MAX_INVENTORIES
  {
    InventoryIn(image, SlotPos(k))
  }

  predicate ValidAt(image: Bytes, k: nat)
    requires |image| >= CHILDREN && k < MAX_INVENTORIES
  {
    InventoryAt(image, k).magic == MAGIC && InventoryAt(image, k).version == VERSION
  }

  // How many inventories the parser keeps.
  function CountFrom(image: Bytes, k: nat): (n: nat)
    requires |image| >= CHILDREN && k <= MAX_INVENTORIES
    ensures k <= n <= MAX_INVENTORIES
    decreases MAX_INVENTORIES - k
  {
    if k == MAX_INVENTORIES || !ValidAt(image, k) then k else CountFrom(image, k + 1)
  }

  function UnityPos(image: Bytes, k: nat): nat
    requires |image| >= CHILDREN && k < MAX_INVENTORIES
  {
    CHILDREN + InventoryAt(image, k).imageOffset
  }

  // Whether the header of a child is looked at, and lies inside the image.
  predicate Skipped(image: Bytes, k: nat)
    requires |image| >= CHILDREN && k < MAX_INVENTORIES
  {
    InventoryAt(image, k).imageSize < UNITY_SIZE
  }

  predicate HeaderInside(image: Bytes, k: nat)
    requires |image| >= CHILDREN && k < MAX_INVENTORIES
  {
    !Skipped(image, k) && UnityPos(image, k) + UNITY_SIZE <= |image|
  }

  function UnityAt(image: Bytes, k: nat): UnityHeader
    requires |image| >= CHILDREN && k < MAX_INVENTORIES && HeaderInside(image, k)
  {
    UnityIn(image, UnityPos(image, k))
  }

  // The file length that the parser takes: what the inventory leaves for it,
  // in 32 bits, but no more than the unity header says.
  function FileLength(imageSize: U32, dataLength: U32): U32 {
    var n := (imageSize - HEADER_SIZE) % TWO32;
    if n > dataLength then dataLength else n
  }

  predicate FileInside(image: Bytes, k: nat)
    requires |image| >= CHILDREN && k < MAX_INVENTORIES
  {
    HeaderInside(image, k)
    && UnityPos(image, k) + HEADER_SIZE
      + FileLength(InventoryAt(image, k).imageSize, UnityAt(image, k).dataLength) <= |image|
  }

  // An image that the parser can read without leaving it: it looks at the child
  // of every slot that it keeps and of the first that it rejects.
  ghost predicate Wellformed(image: Bytes) {
    |image| >= CHILDREN
    && forall k :: 0 <= k < MAX_INVENTORIES && k <= CountFrom(image, 0) ==> Skipped(image, k) || HeaderInside(image, k)
  }

  function FileAt(image: Bytes, k: nat): Bytes
    requires |image| >= CHILDREN && k < MAX_INVENTORIES && FileInside(image, k)
  {
    var p := UnityPos(image, k) + HEADER_SIZE;
    image[p..p + FileLength(InventoryAt(image, k).imageSize, UnityAt(image, k).dataLength)]
  }

  // A NUL-terminated name in a field of fixed size.
  function CString(field: Bytes): Bytes {
    if field == [] || field[0] == 0 then [] else [field[0]] + CString(field[1..])
  }

  lemma {:induction false} CStringRound(name: Bytes, rest: Bytes)
    requires NoNul(name)
    ensures CString(name + [0] + rest) == name
  {
    if name != [] {
      assert (name + [0] + rest)[1..] == name[1..] + [0] + rest;
      CStringRound(name[1..], rest);
    }
  }

  // --------------------------------------------------------- the round trip

  // Copying the k-th header into its slot.
  lemma SlotFilled(parts: seq<Part>, n: nat)
    requires Buildable(parts) && n < |parts|
    ensures var s := Slots(parts, n);
      s[..64 * n] + EncodeInventory(Inventory(parts, n)) + s[64 * n + 32..] == Slots(parts, n + 1)
  {
    hide EncodeInventory, Inventory, ImageSize;
    var s, t := Slots(parts, n), Slots(parts, n + 1);
    var e := EncodeInventory(Inventory(parts, n));
    var u := s[..64 * n] + e + s[64 * n + 32..];
    assert |u| == 512;
    forall j | 0 <= j < 512
      ensures u[j] == t[j]
    {
      if 64 * n <= j < 64 * n + 32 {
        assert j / 64 == n && j % 64 == j - 64 * n;
      }
    }
  }

  lemma SlotHeld(parts: seq<Part>, n: nat, k: nat)
    requires Buildable(parts) && n <= |parts| && k < n
    ensures Slots(parts, n)[64 * k..64 * k + 32] == EncodeInventory(Inventory(parts, k))
  {
    hide EncodeInventory, Inventory, ImageSize;
    var s := Slots(parts, n);
    forall j | 0 <= j < 32
      ensures s[64 * k + j] == EncodeInventory(Inventory(parts, k))[j]
    {
      assert (64 * k + j) / 64 == k && (64 * k + j) % 64 == j;
    }
  }

  lemma SlotEmpty(parts: seq<Part>, n: nat, k: nat)
    requires Buildable(parts) && n <= |parts| && n <= k < 8
    ensures Slots(parts, n)[64 * k..64 * k + 64] == Zeros(64)
  {
    hide EncodeInventory, Inventory, ImageSize;
    var slot := Slots(parts, n)[64 * k..64 * k + 64];
    forall j | 0 <= j < 64
      ensures slot[j] == 0
    {
      assert (64 * k + j) / 64 == k;
    }
  }

  lemma {:induction false} ChildHeld(env: Env, parts: seq<Part>, n: nat, k: nat)
    requires PartsOk(parts) && k < n <= |parts|
    ensures Offset(parts, k) + ChildSize(parts[k]) <= Offset(parts, n)
    ensures Children(env, parts, n)[Offset(parts, k)..Offset(parts, k) + ChildSize(parts[k])] == Child(env, parts[k])
    decreases n
  {
    hide Child, ChildSize, PartOk;
    OffsetGrows(parts, k, n);
    if k < n - 1 {
      ChildHeld(env, parts, n - 1, k);
      SliceOfPrefix(Children(env, parts, n - 1), Child(env, parts[n - 1]), Offset(parts, k),
                    Offset(parts, k) + ChildSize(parts[k]));
    } else {
      SliceOfPrefix([], [], 0, 0);
    }
  }

  lemma SliceOfPrefix(a: Bytes, b: Bytes, lo: nat, hi: nat)
    requires lo <= hi <= |a|
    ensures (a + b)[lo..hi] == a[lo..hi]
  {
  }

  lemma SlicesOfImage(front: Bytes, slots: Bytes, children: Bytes, lo: nat, hi: nat)
    requires |front| == |slots| == 512
    ensures lo <= hi <= 512 ==> (front + slots + children)[512 + lo..512 + hi] == slots[lo..hi]
    ensures lo <= hi <= |children| ==> (front + slots + children)[1024 + lo..1024 + hi] == children[lo..hi]
  {
  }

  // The k-th slot and the k-th child of the finished image.
  lemma ImageHolds(env: Env, h: PackHeader, parts: seq<Part>, k: nat)
    requires HeaderOk(h) && Buildable(parts) && k < |parts|
    ensures var image := Image(env, h, parts);
      && image[SlotPos(k)..SlotPos(k) + 32] == EncodeInventory(Inventory(parts, k))
      && CHILDREN + Offset(parts, k) + ChildSize(parts[k]) <= |image|
      && image[CHILDREN + Offset(parts, k)..CHILDREN + Offset(parts, k) + ChildSize(parts[k])] == Child(env, parts[k])
  {
    hide EncodeInventory, Inventory, Child, ChildSize, Offset, Front, Slots, Children, PartsOk;
    var front, slots, children := Front(h), Slots(parts, |parts|), Children(env, parts, |parts|);
    SlotHeld(parts, |parts|, k);
    ChildHeld(env, parts, |parts|, k);
    SlicesOfImage(front, slots, children, 64 * k, 64 * k + 32);
    SlicesOfImage(front, slots, children, Offset(parts, k), Offset(parts, k) + ChildSize(parts[k]));
  }

  lemma ChildPieces(b: Bytes, p: nat, unity: Bytes, gap: Bytes, data: Bytes, pad: Bytes)
    requires |unity| == 216 && |gap| == 296 && p + 512 + |data| + |pad| <= |b|
    requires b[p..p + 512 + |data| + |pad|] == unity + gap + data + pad
    ensures b[p..p + 216] == unity && b[p + 512..p + 512 + |data|] == data
  {
    var all := b[p..p + 512 + |data| + |pad|];
    SubSlice(b, p, p + |all|, 0, 216);
    SubSlice(b, p, p + |all|, 512, 512 + |data|);
    assert all[..216] == unity && all[512..512 + |data|] == data;
  }

  // The inventory header of a finished image.
  lemma InventoryRecovered(env: Env, h: PackHeader, parts: seq<Part>, k: nat)
    requires HeaderOk(h) && Buildable(parts) && k < |parts|
    ensures InventoryAt(Image(env, h, parts), k) == Inventory(parts, k)
  {
    hide EncodeInventory, Offset, Image, InventoryIn, Inventory, ChildSize, Child;
    ImageHolds(env, h, parts, k);
    InventoryRound(Image(env, h, parts), SlotPos(k), Inventory(parts, k));
  }

  // The child of a finished image: the unity header and the file.
  lemma ChildRecovered(env: Env, h: PackHeader, parts: seq<Part>, k: nat)
    requires HeaderOk(h) && Buildable(parts) && k < |parts|
    ensures var image, p := Image(env, h, parts), CHILDREN + Offset(parts, k);
      && p + HEADER_SIZE + |parts[k].data| <= |image|
      && UnityIn(image, p) == Unity(env, parts[k])
      && image[p + HEADER_SIZE..p + HEADER_SIZE + |parts[k].data|] == parts[k].data
  {
    hide EncodeUnity, Offset, Image, UnityIn, NoNul, Padding, Unity, EncodeInventory, Inventory;
    var image, part, p := Image(env, h, parts), parts[k], CHILDREN + Offset(parts, k);
    ImageHolds(env, h, parts, k);
    assert PartOk(part);
    ChildPieces(image, p, EncodeUnity(Unity(env, part)), part.junk.gap, part.data, part.junk.pad);
    UnityRound(image, p, Unity(env, part));
  }

  // A slot and a child that agree are read as such.
  lemma ReadsSlot(image: Bytes, k: nat, inv: InventoryHeader, unity: UnityHeader, data: Bytes)
    requires |image| >= CHILDREN && k < MAX_INVENTORIES && InventoryAt(image, k) == inv
    requires inv.imageSize == |data| + HEADER_SIZE && unity.dataLength == |data|
    requires var p := CHILDREN + inv.imageOffset;
      && p + HEADER_SIZE + |data| <= |image|
      && UnityIn(image, p) == unity && image[p + HEADER_SIZE..p + HEADER_SIZE + |data|] == data
    ensures FileInside(image, k) && UnityAt(image, k) == unity && FileAt(image, k) == data
    ensures ValidAt(image, k) <==> inv.magic == MAGIC && inv.version == VERSION
  {
    hide InventoryAt, UnityIn;
    assert FileLength(inv.imageSize, unity.dataLength) == |data|;
  }

  lemma HeadersAgree(env: Env, parts: seq<Part>, k: nat)
    requires Buildable(parts) && k < |parts|
    ensures PartOk(parts[k])
    ensures var inv, unity := Inventory(parts, k), Unity(env, parts[k]);
      && inv.magic == MAGIC && inv.version == VERSION && inv.imageOffset == Offset(parts, k)
      && inv.imageSize == |parts[k].data| + HEADER_SIZE && unity.dataLength == |parts[k].data|
      && unity.fileName == parts[k].name + [0] + parts[k].junk.name
      && NoNul(parts[k].name)
  {
  }

  /** What the parser finds in slot k of a finished image: the partition's
      headers, its name and exactly its bytes. */
  lemma PartRecovered(env: Env, h: PackHeader, parts: seq<Part>, k: nat)
    requires HeaderOk(h) && Buildable(parts) && k < |parts|
    ensures var image := Image(env, h, parts);
      && ValidAt(image, k) && FileInside(image, k)
      && InventoryAt(image, k) == Inventory(parts, k)
      && UnityAt(image, k) == Unity(env, parts[k])
      && FileAt(image, k) == parts[k].data
      && CString(UnityAt(image, k).fileName) == parts[k].name
  {
    hide Offset, Image, InventoryAt, UnityIn, UnityAt, FileInside, FileAt, ValidAt, PartOk, PartsOk, CString, NoNul,
         Inventory, Unity, ImageSize;
    HeadersAgree(env, parts, k);
    InventoryRecovered(env, h, parts, k);
    ChildRecovered(env, h, parts, k);
    ReadsSlot(Image(env, h, parts), k, Inventory(parts, k), Unity(env, parts[k]), parts[k].data);
    CStringRound(parts[k].name, parts[k].junk.name);
  }

  lemma {:induction false} CountRecovered(env: Env, h: PackHeader, parts: seq<Part>, k: nat)
    requires HeaderOk(h) && Buildable(parts) && k <= |parts|
    ensures CountFrom(Image(env, h, parts), k) == |parts|
    decreases |parts| - k
  {
    hide ValidAt, Image, Inventory, Unity, FileInside, FileAt;
    if k < |parts| {
      PartRecovered(env, h, parts, k);
      CountRecovered(env, h, parts, k + 1);
    } else if k < 8 {
      EmptySlotInvalid(env, h, parts, k);
    }
  }

  lemma ZeroSlot(b: Bytes, p: nat)
    requires p + 64 <= |b| && b[p..p + 64] == Zeros(64)
    ensures InventoryIn(b, p).magic != MAGIC && InventoryIn(b, p).imageSize == 0
  {
    var zeros := b[p..p + 64];
    assert zeros[0] == b[p] && zeros[16] == b[p + 16] && zeros[17] == b[p + 17] && zeros[18] == b[p + 18]
      && zeros[19] == b[p + 19];
    assert InventoryIn(b, p).magic[0] == 0;
  }

  lemma EmptySlotInvalid(env: Env, h: PackHeader, parts: seq<Part>, k: nat)
    requires HeaderOk(h) && Buildable(parts) && |parts| <= k < 8
    ensures !ValidAt(Image(env, h, parts), k) && Skipped(Image(env, h, parts), k)
  {
    hide Front, Slots, Children, Offset, PartsOk, InventoryIn;
    SlotEmpty(parts, |parts|, k);
    SlicesOfImage(Front(h), Slots(parts, |parts|), Children(env, parts, |parts|), 64 * k, 64 * k + 64);
    ZeroSlot(Image(env, h, parts), SlotPos(k));
  }

  ghost predicate FileVerified(env: Env, header: UnityHeader, file: Bytes) {
    Sha1.Digest(env.load, file) == header.hash && env.crc32(file) == header.crc
  }

  ghost predicate VerifiedAt(env: Env, image: Bytes, k: nat)
    requires |image| >= CHILDREN && k < MAX_INVENTORIES
  {
    FileInside(image, k) && FileVerified(env, UnityAt(image, k), FileAt(image, k))
  }

  // Every stored hash and CRC is that of the file beside it.
  ghost predicate Verified(env: Env, image: Bytes)
    requires |image| >= CHILDREN
  {
    forall k :: 0 <= k < CountFrom(image, 0) ==> VerifiedAt(env, image, k)
  }

  // Slot k of an image is the partition: its flash offset, name and bytes, and
  // the product code and date of its header.
  ghost predicate Gives(image: Bytes, k: nat, p: Part)
    requires |image| >= CHILDREN && k < MAX_INVENTORIES
  {
    && FileInside(image, k)
    && FileAt(image, k) == p.data
    && InventoryAt(image, k).flashOffset == UnityAt(image, k).flashOffset == p.flashOffset
    && CString(UnityAt(image, k).fileName) == p.name
    && UnityAt(image, k).product == p.product && UnityAt(image, k).date == p.date
  }

  lemma PartGiven(env: Env, h: PackHeader, parts: seq<Part>, k: nat)
    requires HeaderOk(h) && Buildable(parts) && k < |parts|
    ensures Gives(Image(env, h, parts), k, parts[k]) && VerifiedAt(env, Image(env, h, parts), k)
  {
    hide Image, InventoryAt, UnityAt, FileAt, FileInside, CString, ValidAt, Offset;
    assert PartOk(parts[k]);
    PartRecovered(env, h, parts, k);
  }

  lemma HeaderRecovered(env: Env, h: PackHeader, parts: seq<Part>)
    requires HeaderOk(h) && Buildable(parts)
    ensures PackIn(Image(env, h, parts)) == h
  {
    hide EncodePack, Slots, Children, PackIn, Offset;
    var rest := Zeros(352) + Slots(parts, |parts|) + Children(env, parts, |parts|);
    PackRound(h, rest);
    assert EncodePack(h) + rest == Image(env, h, parts);
  }

  lemma ImageWellformed(env: Env, h: PackHeader, parts: seq<Part>)
    requires HeaderOk(h) && Buildable(parts)
    ensures Wellformed(Image(env, h, parts))
  {
    hide Image, Skipped, ValidAt, Offset, CountFrom, HeaderInside;
    CountRecovered(env, h, parts, 0);
    forall k | 0 <= k < MAX_INVENTORIES && k <= |parts|
      ensures Skipped(Image(env, h, parts), k) || HeaderInside(Image(env, h, parts), k)
    {
      if k < |parts| {
        PartRecovered(env, h, parts, k);
      } else {
        EmptySlotInvalid(env, h, parts, k);
      }
    }
  }

  // -------------------------------------------------------- the image's bytes

  // Four bytes that hold a number, least significant first.
  predicate Number(b: Bytes, p: nat, v: nat) {
    && p + 4 <= |b|
    && v == b[p] as nat + 0x100 * b[p + 1] as nat + 0x1_0000 * b[p + 2] as nat + 0x100_0000 * b[p + 3] as nat
  }

  lemma AtIs(b: Bytes, p: nat)
    requires p + 4 <= |b|
    ensures Number(b, p, At32(b, p))
  {
    JoinIs(b[p] as nat, b[p + 1] as nat, b[p + 2] as nat, b[p + 3] as nat);
    hide Join;
  }

  lemma JoinIs(a: nat, b: nat, c: nat, d: nat)
    requires a < 256 && b < 256 && c < 256 && d < 256
    ensures Join(a, b, c, d) == a + 0x100 * b + 0x1_0000 * c + 0x100_0000 * d
  {
  }

  // Bytes are the characters of a string.
  predicate Spells(b: Bytes, s: string) {
    |b| == |s| && forall i :: 0 <= i < |s| ==> b[i] as int == s[i] as int
  }

  predicate IsMagic(b: Bytes) {
    Spells(b, "MARUSWUP")
  }

  lemma MagicSpells()
    ensures IsMagic(MAGIC)
  {
  }

  lemma InfoSpells()
    ensures |INFO| == 16 && Spells(INFO[..15], "Software Update") && INFO[15] == 0
  {
  }

  /** The bytes of the SwPack header at the start of an image. */
  lemma PackBytes(env: Env, h: PackHeader, parts: seq<Part>)
    requires HeaderOk(h) && Buildable(parts)
    ensures var image := Image(env, h, parts);
      && |image| >= 1024 && image[..8] == h.magic && image[32..160] == h.info
      && Number(image, 8, h.version) && Number(image, 12, h.product) && Number(image, 16, h.sw)
      && Number(image, 20, h.date) && Number(image, 24, h.count) && Number(image, 28, h.invalidate)
  {
    HeaderRecovered(env, h, parts);
    hide Image, At32, Number, ImageSize;
    var image := Image(env, h, parts);
    SizeAtLeast(parts);
    SixNumbers(image, 8);
  }

  lemma SizeAtLeast(parts: seq<Part>)
    ensures ImageSize(parts) >= 1024
  {
  }

  lemma SixNumbers(b: Bytes, p: nat)
    requires p + 24 <= |b|
    ensures Number(b, p, At32(b, p)) && Number(b, p + 4, At32(b, p + 4)) && Number(b, p + 8, At32(b, p + 8))
    ensures Number(b, p + 12, At32(b, p + 12)) && Number(b, p + 16, At32(b, p + 16))
    ensures Number(b, p + 20, At32(b, p + 20))
  {
    hide At32, Number;
    AtIs(b, p);
    AtIs(b, p + 4);
    AtIs(b, p + 8);
    AtIs(b, p + 12);
    AtIs(b, p + 16);
    AtIs(b, p + 20);
  }

  lemma InventoryBytes(b: Bytes, q: nat)
    requires q + 32 <= |b|
    ensures var h := InventoryIn(b, q);
      && h.magic == b[q..q + 8]
      && Number(b, q + 8, h.version) && Number(b, q + 12, h.imageOffset) && Number(b, q + 16, h.imageSize)
      && Number(b, q + 20, h.flashOffset) && Number(b, q + 24, h.sw) && Number(b, q + 28, h.imageNumber)
  {
    hide At32, Number;
    SixNumbers(b, q + 8);
  }

  lemma UnityBytes(b: Bytes, c: nat)
    requires c + 216 <= |b|
    ensures var h := UnityIn(b, c);
      && h.magic == b[c..c + 8] && h.hash == b[c + 32..c + 52] && h.fileName == b[c + 56..c + 88]
      && h.info == b[c + 88..c + 216]
      && Number(b, c + 8, h.version) && Number(b, c + 12, h.product) && Number(b, c + 16, h.sw)
      && Number(b, c + 20, h.date) && Number(b, c + 24, h.flashOffset) && Number(b, c + 28, h.dataLength)
      && Number(b, c + 52, h.crc)
  {
    hide At32, Number;
    SixNumbers(b, c + 8);
    AtIs(b, c + 52);
  }

  lemma InventoryFields(parts: seq<Part>, k: nat)
    requires Buildable(parts) && k < |parts|
    ensures var h := Inventory(parts, k);
      && IsMagic(h.magic) && h.version == 100 && h.imageOffset == Offset(parts, k)
      && h.imageSize == 512 + |parts[k].data| && h.flashOffset == parts[k].flashOffset
      && h.sw == 0 && h.imageNumber == 0
  {
    hide IsMagic;
    MagicSpells();
  }

  /** The bytes of slot k of an image. */
  lemma SlotBytes(env: Env, h: PackHeader, parts: seq<Part>, k: nat)
    requires HeaderOk(h) && Buildable(parts) && k < |parts|
    ensures var image, q := Image(env, h, parts), 512 + 64 * k;
      && q + 32 <= |image| && IsMagic(image[q..q + 8])
      && Number(image, q + 8, 100) && Number(image, q + 12, Offset(parts, k))
      && Number(image, q + 16, 512 + |parts[k].data|) && Number(image, q + 20, parts[k].flashOffset)
      && Number(image, q + 24, 0) && Number(image, q + 28, 0)
  {
    hide Image, InventoryIn, Number, ImageSize, Offset, UnityAt, Unity, FileAt, FileInside, CString, Inventory, IsMagic,
         ValidAt, PartsOk, PartOk, HeaderOk, NoNul, Buildable;
    AtMostEight(parts);
    PartRecovered(env, h, parts, k);
    InventoryFields(parts, k);
    SizeAtLeast(parts);
    InventoryBytes(Image(env, h, parts), 512 + 64 * k);
  }

  /** The bytes of the k-th child of an image: unity header, gap and file. */
  lemma ChildBytes(env: Env, h: PackHeader, parts: seq<Part>, k: nat)
    requires HeaderOk(h) && Buildable(parts) && k < |parts|
    ensures var image, c, p := Image(env, h, parts), 1024 + Offset(parts, k), parts[k];
      && PartOk(p) && c + 512 + |p.data| <= |image| && image[c + 512..c + 512 + |p.data|] == p.data
      && IsMagic(image[c..c + 8]) && Number(image, c + 8, 100) && Number(image, c + 12, p.product)
      && Number(image, c + 16, 101) && Number(image, c + 20, p.date)
      && Number(image, c + 24, p.flashOffset) && Number(image, c + 28, |p.data|)
      && image[c + 32..c + 52] == Sha1.Digest(env.load, p.data) && Number(image, c + 52, env.crc32(p.data))
      && image[c + 56..c + 88] == p.name + [0] + p.junk.name
      && image[c + 88..c + 216] == INFO + p.junk.info
  {
    hide Image, UnityIn, Unity, Number, ImageSize, Offset, Sha1.Digest, IsMagic, PartsOk, Buildable, PartOk;
    ChildPlace(env, h, parts, k);
    UnityBytes(Image(env, h, parts), 1024 + Offset(parts, k));
    UnityFields(env, parts[k]);
  }

  lemma UnityFields(env: Env, p: Part)
    requires PartOk(p)
    ensures var h := Unity(env, p);
      && IsMagic(h.magic) && h.version == 100 && h.product == p.product && h.sw == 101 && h.date == p.date
      && h.flashOffset == p.flashOffset && h.dataLength == |p.data| && h.hash == Sha1.Digest(env.load, p.data)
      && h.crc == env.crc32(p.data) && h.fileName == p.name + [0] + p.junk.name && h.info == INFO + p.junk.info
  {
    hide IsMagic, Sha1.Digest;
    MagicSpells();
  }

  // Where the parser finds the headers of a child and its file.
  lemma ChildPlace(env: Env, h: PackHeader, parts: seq<Part>, k: nat)
    requires HeaderOk(h) && Buildable(parts) && k < |parts|
    ensures PartOk(parts[k])
    ensures var image, c := Image(env, h, parts), 1024 + Offset(parts, k);
      && c + 512 + |parts[k].data| <= |image| && image[c + 512..c + 512 + |parts[k].data|] == parts[k].data
      && UnityIn(image, c) == Unity(env, parts[k])
  {
    hide Image, UnityIn, InventoryIn, InventoryAt, ImageSize, Offset, CString, Inventory, Unity, IsMagic, ValidAt,
         PartsOk, HeaderOk, NoNul, Buildable, CString;
    AtMostEight(parts);
    SizeAtLeast(parts);
    PartRecovered(env, h, parts, k);
    InventoryFields(parts, k);
    HeadersAgree(env, parts, k);
  }

  lemma AtMostEight(parts: seq<Part>)
    requires Buildable(parts)
    ensures |parts| <= 8
  {
  }

  /** Each child starts behind the one before it, at the next multiple of 0x100. */
  lemma OffsetIs(parts: seq<Part>, k: nat)
    requires k < |parts|
    ensures Offset(parts, 0) == 0
    ensures Offset(parts, k + 1) == Offset(parts, k) + (512 + |parts[k].data| + 0xFF) / 0x100 * 0x100
  {
    var n := 512 + |parts[k].data|;
    assert ChildSize(parts[k]) == (n + 0xFF) / 0x100 * 0x100;
  }

  /** Parsing a finished image gives back the partitions, exactly as many, in
      order, each with its flash offset, name and bytes; and it verifies. */
  lemma RoundTrip(env: Env, h: PackHeader, parts: seq<Part>)
    requires HeaderOk(h) && Buildable(parts)
    ensures var image := Image(env, h, parts);
      && CountFrom(image, 0) == |parts|
      && (forall k :: 0 <= k < |parts| ==> Gives(image, k, parts[k]))
      && Wellformed(image) && Verified(env, image)
      && PackIn(image) == h
  {
    hide Image, Gives, VerifiedAt, CountFrom, PartsOk, Offset, Skipped, HeaderInside;
    CountRecovered(env, h, parts, 0);
    HeaderRecovered(env, h, parts);
    ImageWellformed(env, h, parts);
    forall k | 0 <= k < |parts|
      ensures Gives(Image(env, h, parts), k, parts[k]) && VerifiedAt(env, Image(env, h, parts), k)
    {
      PartGiven(env, h, parts, k);
    }
  }

  /** The padded regions of the partitions are aligned, pairwise disjoint, inside
      the image and behind the slots. */
  lemma RegionsDisjoint(parts: seq<Part>, i: nat, k: nat)
    requires i < k < |parts|
    ensures Offset(parts, i) % 0x100 == 0 && ChildSize(parts[i]) % 0x100 == 0
    ensures CHILDREN + Offset(parts, i) + ChildSize(parts[i]) <= CHILDREN + Offset(parts, k)
    ensures CHILDREN + Offset(parts, k) + ChildSize(parts[k]) <= ImageSize(parts)
  {
    hide ChildSize;
    OffsetAligned(parts, i);
    OffsetGrows(parts, i, k);
    OffsetGrows(parts, k, |parts|);
    assert ChildSize(parts[i]) % 0x100 == 0;
  }

  // ------------------------------------------------------------- the program

  // A pointer into a buffer that is only read through it.
  datatype Pointer = Pointer(base: Bytes, at: int) {
    predicate Readable(n: int) {
      0 <= at && 0 <= n && at + n <= |base|
    }

    function Bytes(n: int): (r: Octets.Bytes)
      requires Readable(n)
      ensures |r| == n
    {
      base[at..at + n]
    }
  }

  method MemCpy(dst: array<bv8>, at: nat, src: Bytes)
    requires at + |src| <= dst.Length
    modifies dst
    ensures dst[..] == old(dst[..at]) + src + old(dst[at + |src|..])
  {
    var i := 0;
    while i < |src|
      invariant i <= |src|
      invariant forall k :: 0 <= k < dst.Length ==> dst[k] == if at <= k < at + i then src[k - at] else old(dst[k])
    {
      dst[at + i] := src[i];
      i := i + 1;
    }
  }

  class SwUnity {
    var mHeader: UnityHeader
    var mDataLength: nat
    var mData: Pointer
    var mChildDataLength: nat
    var mChildData: Pointer

    // malloc'ed holds what was in the memory of the header.
    constructor (date: U32, malloced: UnityHeader)
      requires Shaped(malloced)
      ensures mHeader == UnityHeader(MAGIC, VERSION, 0x11321000, 101, date, 0, 0, malloced.hash, malloced.crc,
                                     malloced.fileName,
                                     INFO + malloced.info[16..])
    {
      mHeader := UnityHeader(MAGIC, VERSION, 0x11321000, 101, date, 0, 0, malloced.hash, malloced.crc,
                             malloced.fileName,
                             INFO + malloced.info[16..]);
      mDataLength, mChildDataLength := 0, 0;
      mData, mChildData := Pointer([], 0), Pointer([], 0);
    }

    constructor OfData(data: Pointer, datalen: nat)
      ensures mData == data && mDataLength == datalen
    {
      mData, mDataLength := data, datalen;
      mHeader := UnityHeader([], 0, 0, 0, 0, 0, 0, [], 0, [], []);
      mChildDataLength, mChildData := 0, Pointer([], 0);
    }

    method SetProductCode(code: U32)
      modifies this`mHeader
      ensures mHeader == old(mHeader).(product := code)
    {
      mHeader := mHeader.(product := code);
    }

    // calcSH1 without libgcrypt.
    method CalcSH1(load: Sha1.Load) returns (hash: array<bv8>)
      requires mChildData.Readable(mChildDataLength) && mChildDataLength < TWO32
      ensures fresh(hash) && hash[..] == Sha1.Digest(load, mChildData.Bytes(mChildDataLength))
    {
      var context := new Sha1.SHA1Ctx(load);
      context.Update(mChildData.Bytes(mChildDataLength));
      assert [] + mChildData.Bytes(mChildDataLength) == mChildData.Bytes(mChildDataLength);
      hash := context.Final();
    }

    // The loop that copies the hash into the header.
    method CopyHash(hash: array<bv8>)
      requires hash.Length == 20 && |mHeader.hash| == 20
      modifies this`mHeader
      ensures mHeader == old(mHeader).(hash := hash[..])
    {
      ghost var before := mHeader;
      var i := 0;
      while i < 20
        invariant i <= 20 && |mHeader.hash| == 20
        invariant mHeader.hash[..i] == hash[..i]
        invariant mHeader == before.(hash := mHeader.hash)
      {
        mHeader := mHeader.(hash := mHeader.hash[i := hash[i]]);
        i := i + 1;
      }
      assert mHeader.hash == mHeader.hash[..20] == hash[..];
    }

    // Compute the hash and the CRC of the file and store them in the header.
    method StoreChecks(env: Env)
      requires mChildData.Readable(mChildDataLength) && mChildDataLength < TWO32 && Shaped(mHeader)
      modifies this`mHeader
      ensures var file := mChildData.Bytes(mChildDataLength);
        mHeader == old(mHeader).(hash := Sha1.Digest(env.load, file), crc := env.crc32(file))
    {
      hide Sha1.Digest;
      var hash := CalcSH1(env.load);
      CopyHash(hash);
      mHeader := mHeader.(crc := env.crc32(mChildData.Bytes(mChildDataLength)));
    }

    // gap is what the memory of mData held between the header and the file.
    method SetPartition(env: Env, flashOffset: U32, filename: Bytes, data: Bytes, gap: Bytes)
      requires Shaped(mHeader) && |filename| <= 31 && |data| < TWO32 && |gap| == 296
      modifies this
      ensures mHeader == old(mHeader).(flashOffset := flashOffset, dataLength := |data|,
                fileName := filename + [0] + old(mHeader.fileName)[|filename| + 1..],
                hash := Sha1.Digest(env.load, data), crc := env.crc32(data))
      ensures mDataLength == HEADER_SIZE + |data| && mData == Pointer(EncodeUnity(mHeader) + gap + data, 0)
    {
      hide EncodeUnity, Sha1.Digest;
      mHeader := mHeader.(flashOffset := flashOffset);
      mHeader := mHeader.(fileName := filename + mHeader.fileName[|filename|..]);
      mHeader := mHeader.(fileName := mHeader.fileName[|filename| := 0]);
      assert mHeader.fileName == filename + [0] + old(mHeader.fileName)[|filename| + 1..];
      mHeader := mHeader.(dataLength := |data|);
      mChildDataLength, mChildData := |data|, Pointer(data, 0);
      assert mChildData.Bytes(mChildDataLength) == data;
      StoreChecks(env);
      mDataLength := mChildDataLength + HEADER_SIZE;
      var buffer := new bv8[mDataLength](i => if UNITY_SIZE <= i < HEADER_SIZE then gap[i - UNITY_SIZE] else 0);
      MemCpy(buffer, 0, EncodeUnity(mHeader));
      MemCpy(buffer, HEADER_SIZE, data);
      mData := Pointer(buffer[..], 0);
      assert mData.base == EncodeUnity(mHeader) + gap + data;
    }

    // getData into the caller's buffer.
    method GetData(data: array<bv8>) returns (len: nat)
      requires mData.Readable(mDataLength) && data.Length == mDataLength
      modifies data
      ensures len == mDataLength && data[..] == mData.Bytes(mDataLength)
    {
      MemCpy(data, 0, mData.Bytes(mDataLength));
      len := mDataLength;
    }

    method Parse() returns (n: nat)
      requires mDataLength < TWO32 && (mDataLength >= UNITY_SIZE ==> mData.Readable(UNITY_SIZE))
      modifies this`mHeader, this`mChildData, this`mChildDataLength
      ensures n == if mDataLength >= UNITY_SIZE then UNITY_SIZE else 0
      ensures mDataLength >= UNITY_SIZE ==>
        && mHeader == UnityIn(mData.base, mData.at)
        && mChildData == Pointer(mData.base, mData.at + HEADER_SIZE)
        && mChildDataLength == FileLength(mDataLength, mHeader.dataLength)
    {
      hide UnityIn;
      if mDataLength >= UNITY_SIZE {
        mHeader := UnityIn(mData.base, mData.at);
        mChildDataLength := (mDataLength as int - HEADER_SIZE) % TWO32;
        if mChildDataLength > mHeader.dataLength {
          mChildDataLength := mHeader.dataLength;
        }
        mChildData := Pointer(mData.base, mData.at + HEADER_SIZE);
        return UNITY_SIZE;
      }
      return 0;
    }

    method Verify(env: Env) returns (ok: bool)
      requires mChildData.Readable(mChildDataLength) && mChildDataLength < TWO32
      ensures ok <==> FileVerified(env, mHeader, mChildData.Bytes(mChildDataLength))
    {
      var hash := CalcSH1(env.load);
      var sh1 := mHeader.hash == hash[..];
      var crc := env.crc32(mChildData.Bytes(mChildDataLength)) == mHeader.crc;
      ok := crc && sh1;
    }
  }

  class SwInventory {
    var mHeader: InventoryHeader
    var mDataOffsetToBOF: nat
    var mDataLength: nat
    var mData: Pointer
    var mChildDataLength: nat
    var mChildData: Pointer
    var mUnity: SwUnity

    constructor (date: U32, malloced: UnityHeader)
      requires Shaped(malloced)
      ensures fresh(mUnity) && mHeader == InventoryHeader(MAGIC, VERSION, 0, 0, 0, 0, 0)
      ensures mUnity.mHeader == UnityHeader(MAGIC, VERSION, 0x11321000, 101, date, 0, 0, malloced.hash, malloced.crc,
                                            malloced.fileName, INFO + malloced.info[16..])
    {
      mHeader := InventoryHeader(MAGIC, VERSION, 0, 0, 0, 0, 0);
      mDataOffsetToBOF, mDataLength, mChildDataLength := 0, 0, 0;
      mData, mChildData := Pointer([], 0), Pointer([], 0);
      mUnity := new SwUnity(date, malloced);
    }

    constructor OfData(data: Pointer, offset: nat, datalen: nat)
      ensures mData == data && mDataOffsetToBOF == offset && mDataLength == datalen && fresh(mUnity)
    {
      mData, mDataOffsetToBOF, mDataLength := data, offset, datalen;
      mHeader := InventoryHeader([], 0, 0, 0, 0, 0, 0);
      mChildDataLength, mChildData := 0, Pointer([], 0);
      mUnity := new SwUnity.OfData(Pointer([], 0), 0);
    }

    // gap and pad are the bytes of memory behind the unity header, and behind
    // the unity data up to its padded length.
    method SetPartition(env: Env, flashOffset: U32, filename: Bytes, data: Bytes, imageOffset: U32, gap: Bytes,
                        pad: Bytes)
      requires |mHeader.magic| == 8 && Shaped(mUnity.mHeader)
      requires |filename| <= 31 && |data| + HEADER_SIZE + 0x100 <= MAX_IMAGE && |gap| == 296
      requires |pad| == Padding(HEADER_SIZE + |data|)
      modifies this, mUnity
      ensures mUnity == old(mUnity)
      ensures mUnity.mHeader == old(mUnity.mHeader).(flashOffset := flashOffset, dataLength := |data|,
                fileName := filename + [0] + old(mUnity.mHeader.fileName)[|filename| + 1..],
                hash := Sha1.Digest(env.load, data), crc := env.crc32(data))
      ensures mChildDataLength == HEADER_SIZE + |data| + |pad|
      ensures mChildData == Pointer(EncodeUnity(mUnity.mHeader) + gap + data + pad, 0)
      ensures mDataLength == INVENTORY_HEADER
      ensures mData == Pointer(EncodeInventory(old(mHeader).(flashOffset := flashOffset, imageOffset := imageOffset,
                                                            imageSize := |data| + HEADER_SIZE)), 0)
      ensures mHeader.imageOffset == imageOffset
      ensures mHeader.imageSize == if pad == [] then |data| + HEADER_SIZE else mChildDataLength
    {
      hide EncodeUnity, EncodeInventory, Sha1.Digest;
      mHeader := mHeader.(flashOffset := flashOffset);
      mHeader := mHeader.(imageOffset := imageOffset);
      mHeader := mHeader.(imageSize := |data| + HEADER_SIZE);
      mUnity.SetPartition(env, flashOffset, filename, data, gap);
      mDataLength := INVENTORY_HEADER;
      mData := Pointer(EncodeInventory(mHeader), 0);
      var buffer := new bv8[mUnity.mDataLength](_ => 0);
      mChildDataLength := mUnity.GetData(buffer);
      mChildData := Pointer(buffer[..] + pad, 0);
      assert buffer[..] == mUnity.mData.base;
      if mChildDataLength % 0x100 != 0 {
        mChildDataLength := mChildDataLength + (0x100 - mChildDataLength % 0x100);
        mHeader := mHeader.(imageSize := mChildDataLength);
      }
    }

    method GetData(data: array<bv8>) returns (len: nat)
      requires mData.Readable(mDataLength) && data.Length == mDataLength
      modifies data
      ensures len == mDataLength && data[..] == mData.Bytes(mDataLength)
    {
      MemCpy(data, 0, mData.Bytes(mDataLength));
      len := mDataLength;
    }

    method GetChildData(data: array<bv8>) returns (len: nat)
      requires mChildData.Readable(mChildDataLength) && data.Length == mChildDataLength
      modifies data
      ensures len == mChildDataLength && data[..] == mChildData.Bytes(mChildDataLength)
    {
      MemCpy(data, 0, mChildData.Bytes(mChildDataLength));
      len := mChildDataLength;
    }

    // A parsed slot: the headers where the casts read them, and the file.
    ghost predicate Parsed(image: Bytes, k: nat)
      requires |image| >= CHILDREN && k < MAX_INVENTORIES
      reads this, mUnity
    {
      && mHeader == InventoryAt(image, k)
      && (HeaderInside(image, k) ==>
            && mUnity.mHeader == UnityAt(image, k)
            && mUnity.mChildData == Pointer(image, UnityPos(image, k) + HEADER_SIZE)
            && mUnity.mChildDataLength == FileLength(mHeader.imageSize, mUnity.mHeader.dataLength))
    }

    lemma ParsedFile(image: Bytes, k: nat)
      requires |image| >= CHILDREN && k < MAX_INVENTORIES && Parsed(image, k) && FileInside(image, k)
      ensures mUnity.mHeader == UnityAt(image, k)
      ensures mUnity.mChildDataLength < TWO32 && mUnity.mChildData.Readable(mUnity.mChildDataLength)
      ensures mUnity.mChildData.Bytes(mUnity.mChildDataLength) == FileAt(image, k)
    {
      hide UnityIn, InventoryIn, FileLength;
    }

    method Parse(ghost image: Bytes, ghost k: nat) returns (n: nat)
      requires |image| >= CHILDREN && k < MAX_INVENTORIES
      requires mData == Pointer(image, SlotPos(k)) && mDataOffsetToBOF == SlotPos(k)
      requires Skipped(image, k) || HeaderInside(image, k)
      modifies this
      ensures mDataLength == old(mDataLength)
      ensures mDataLength >= INVENTORY_HEADER ==> fresh(mUnity) && Parsed(image, k) && n == INVENTORY_HEADER
      ensures mDataLength < INVENTORY_HEADER ==> mUnity == old(mUnity) && n == 0
    {
      hide UnityIn, InventoryIn;
      if mDataLength >= INVENTORY_HEADER {
        mHeader := InventoryIn(mData.base, mData.at);
        mChildDataLength := mHeader.imageSize;
        mChildData := Pointer(mData.base,
                              mData.at - mDataOffsetToBOF + mHeader.imageOffset + HEADER_SIZE
                                + MAX_INVENTORIES * INVENTORY_SIZE);
        mUnity := new SwUnity.OfData(mChildData, mChildDataLength);
        var m := mUnity.Parse();
        return INVENTORY_HEADER;
      }
      return 0;
    }

    method IsValid() returns (ok: bool)
      ensures ok <==> mHeader.magic == MAGIC && mHeader.version == VERSION
    {
      if mHeader.magic != MAGIC {
        return false;
      }
      if mHeader.version != VERSION {
        return false;
      }
      return true;
    }
  }

  class SwPack {
    const env: Env
    var mHeader: PackHeader
    var mDataLength: nat
    var mData: Bytes
    var mInventoryCount: nat
    var mInventory: seq<SwInventory>
    var mCurInventoryOffset: nat
    // The partitions appended so far.
    ghost var parts: seq<Part>

    // What an appended inventory holds.
    ghost predicate Holds(i: nat)
      requires i < |parts| == |mInventory| && Buildable(parts)
      reads this`parts, this`mInventory, mInventory
    {
      && mInventory[i].mDataLength == INVENTORY_HEADER
      && mInventory[i].mData == Pointer(EncodeInventory(Inventory(parts, i)), 0)
      && mInventory[i].mChildDataLength == ChildSize(parts[i])
      && mInventory[i].mChildData == Pointer(Child(env, parts[i]), 0)
      && mInventory[i].mHeader.imageOffset == Offset(parts, i)
    }

    ghost predicate Valid()
      reads this`mHeader, this`parts, this`mInventoryCount, this`mInventory, this`mCurInventoryOffset, mInventory
    {
      && HeaderOk(mHeader) && Buildable(parts)
      && mInventoryCount == |mInventory| == |parts|
      && mCurInventoryOffset == Offset(parts, |parts|)
      && forall i :: 0 <= i < |parts| ==> Holds(i)
    }

    constructor (env: Env, date: U32, malloced: Bytes)
      requires |malloced| == 128
      ensures Valid() && parts == [] && this.env == env
      ensures mHeader == PackHeader(MAGIC, VERSION, 0x11321000, 101, date, 0, 0, INFO + malloced[16..])
    {
      this.env := env;
      mHeader := PackHeader(MAGIC, VERSION, 0x11321000, 101, date, 0, 0, INFO + malloced[16..]);
      mDataLength, mData, mInventoryCount, mInventory, mCurInventoryOffset := 0, [], 0, [], 0;
      parts := [];
    }

    constructor OfData(env: Env, data: Bytes)
      ensures mData == data && mDataLength == |data| && this.env == env
    {
      this.env := env;
      mData, mDataLength := data, |data|;
      mHeader := PackHeader([], 0, 0, 0, 0, 0, 0, []);
      mInventoryCount, mInventory, mCurInventoryOffset := 0, [], 0;
      parts := [];
    }

    method SetProductCode(code: U32)
      requires Valid()
      modifies this`mHeader
      ensures Valid() && mHeader == old(mHeader).(product := code)
    {
      hide Child, Inventory, EncodeInventory, ChildSize, Offset, PartOk, ImageSize;
      mHeader := mHeader.(product := code);
    }

    // gap and pad as for SwInventory.SetPartition.
    method AppendPartition(flashOffset: U32, filename: Bytes, data: Bytes, date: U32, malloced: UnityHeader, gap: Bytes,
                           pad: Bytes)
      requires Valid() && |parts| < MAX_INVENTORIES && Shaped(malloced)
      requires |filename| <= 31 && NoNul(filename) && |data| < TWO32 && |gap| == 296
        && |pad| == Padding(HEADER_SIZE + |data|)
      requires ImageSize(parts) + HEADER_SIZE + |data| + |pad| <= MAX_IMAGE
      modifies this`mInventory, this`mInventoryCount, this`mCurInventoryOffset, this`parts
      ensures Valid()
      ensures parts == old(parts) + [Part(flashOffset, filename, data, mHeader.product, date,
                                          Junk(malloced.fileName[|filename| + 1..], malloced.info[16..], gap, pad))]
    {
      hide EncodeInventory, EncodeUnity, Offset, Padding, Sha1.Digest, NoNul;
      ghost var part := Part(flashOffset, filename, data, mHeader.product, date,
                             Junk(malloced.fileName[|filename| + 1..], malloced.info[16..], gap, pad));
      AppendedPart(parts, part);
      var inventory := new SwInventory(date, malloced);
      inventory.mUnity.SetProductCode(mHeader.product);
      inventory.SetPartition(env, flashOffset, filename, data, mCurInventoryOffset, gap, pad);
      assert inventory.mUnity.mHeader == Unity(env, part);
      assert inventory.mChildData.base == Child(env, part);
      mInventory := mInventory + [inventory];
      mCurInventoryOffset := mCurInventoryOffset + inventory.mChildDataLength;
      mInventoryCount := mInventoryCount + 1;
      parts := parts + [part];
      forall i | 0 <= i < |parts|
        ensures Holds(i)
      {
        if i < |parts| - 1 { assert old(Holds(i)); }
      }
    }

    // The size of the whole image.
    method SumLengths()
      requires Valid()
      modifies this`mDataLength
      ensures mDataLength == ImageSize(parts)
    {
      hide EncodeInventory, Child, Inventory, ChildSize, Offset, PartOk;
      mDataLength := HEADER_SIZE + MAX_INVENTORIES * INVENTORY_SIZE;
      OffsetStart(parts);
      var i := 0;
      while i < mInventoryCount
        invariant i <= mInventoryCount && mDataLength == CHILDREN + Offset(parts, i)
      {
        assert Holds(i);
        OffsetStep(parts, i);
        mDataLength := mDataLength + mInventory[i].mChildDataLength;
        i := i + 1;
      }
    }

    // The zero-filled buffer of the image with the SwPack header in front.
    method StartImage() returns (image: array<bv8>)
      requires Valid() && mDataLength == ImageSize(parts)
      ensures fresh(image) && image[..] == Filled(env, mHeader, parts, 0)
    {
      hide EncodePack, Offset, PartOk, Filled, Holds;
      image := new bv8[mDataLength](_ => 0);
      assert image[..] == Zeros(mDataLength);
      MemCpy(image, 0, EncodePack(mHeader));
      assert image[..] == EncodePack(mHeader) + Zeros(mDataLength)[160..];
      FilledFirst(env, mHeader, parts, image[..]);
    }

    // The buffer of the image, filled part by part.
    method FillImage() returns (image: array<bv8>)
      requires Valid() && mDataLength == ImageSize(parts)
      ensures fresh(image) && image[..] == Image(env, mHeader, parts)
    {
      hide Offset, PartOk, Filled, Image, Holds, ImageSize;
      image := StartImage();
      var i := 0;
      while i < mInventoryCount
        invariant i <= mInventoryCount && image[..] == Filled(env, mHeader, parts, i)
      {
        CopyInventory(i, image);
        i := i + 1;
      }
      FilledLast(env, mHeader, parts);
    }

    method CreateImage() returns (data: array<bv8>)
      requires Valid()
      modifies this`mDataLength, this`mData
      ensures Valid() && fresh(data) && data[..] == mData == Image(env, mHeader, parts) && mDataLength == |mData|
    {
      hide Offset, PartOk, Image, Holds;
      SumLengths();
      var image := FillImage();
      mData := image[..];
      data := new bv8[mDataLength](_ => 0);
      MemCpy(data, 0, mData);
    }

    // The inventory header into its slot.
    method CopyHeader(i: nat, image: array<bv8>)
      requires i < |parts| == |mInventory| && Buildable(parts) && Holds(i) && image.Length >= CHILDREN
      modifies image
      ensures image[..] == old(image[..SlotPos(i)]) + EncodeInventory(Inventory(parts, i))
        + old(image[SlotPos(i) + 32..])
    {
      hide EncodeInventory, Child, Inventory, Offset, PartOk, ChildSize;
      var cData := new bv8[mInventory[i].mDataLength](_ => 0);
      var len := mInventory[i].GetData(cData);
      MemCpy(image, HEADER_SIZE + i * INVENTORY_SIZE, cData[..]);
    }

    // The child behind the children before it.
    method CopyChild(i: nat, image: array<bv8>)
      requires i < |parts| == |mInventory| && Buildable(parts) && Holds(i)
      requires CHILDREN + Offset(parts, i) + ChildSize(parts[i]) <= image.Length
      modifies image
      ensures var at := CHILDREN + Offset(parts, i);
        image[..] == old(image[..at]) + Child(env, parts[i]) + old(image[at + ChildSize(parts[i])..])
    {
      hide EncodeInventory, Child, Inventory, Offset, PartOk, ChildSize;
      var cData := new bv8[mInventory[i].mChildDataLength](_ => 0);
      var len := mInventory[i].GetChildData(cData);
      MemCpy(image, mInventory[i].mHeader.imageOffset + HEADER_SIZE + MAX_INVENTORIES * INVENTORY_SIZE, cData[..]);
    }

    // One round of createImage.
    method CopyInventory(i: nat, image: array<bv8>)
      requires Valid() && i < |parts| && image[..] == Filled(env, mHeader, parts, i)
      modifies image
      ensures image[..] == Filled(env, mHeader, parts, i + 1)
    {
      hide EncodeInventory, Child, Inventory, Offset, PartOk, Filled, ChildSize;
      assert Holds(i);
      ghost var b0 := image[..];
      OffsetGrows(parts, i, |parts|);
      CopyHeader(i, image);
      ghost var b1 := image[..];
      assert Holds(i);
      CopyChild(i, image);
      FilledStep(env, mHeader, parts, i, b0, b1, image[..]);
    }

    // After parsing: the inventories are those of the image.
    ghost predicate ParsedAll()
      reads this, mInventory, set i: SwInventory | i in mInventory :: i.mUnity
    {
      && |mData| >= CHILDREN && mInventoryCount == |mInventory| == CountFrom(mData, 0)
      && forall i :: 0 <= i < |mInventory| ==> mInventory[i].Parsed(mData, i)
    }

    method Parse()
      requires Wellformed(mData) && mDataLength == |mData|
      modifies this`mHeader, this`mInventory, this`mInventoryCount
      ensures ParsedAll() && mHeader == PackIn(mData)
    {
      hide PackIn, InventoryAt, UnityAt, UnityPos, HeaderInside, Skipped, FileLength;
      mHeader := PackIn(mData);
      var mChildDataOffset := HEADER_SIZE;
      var mChildDataLength := mDataLength - mChildDataOffset;
      mInventoryCount, mInventory := 0, [];
      var offsetNextEntry := 0;
      while mInventoryCount < MAX_INVENTORIES
        invariant mInventoryCount == |mInventory| <= MAX_INVENTORIES
        invariant offsetNextEntry == mInventoryCount * INVENTORY_SIZE && mHeader == PackIn(mData)
        invariant CountFrom(mData, mInventoryCount) == CountFrom(mData, 0)
        invariant forall i :: 0 <= i < |mInventory| ==> mInventory[i].Parsed(mData, i)
      {
        var inventory := new SwInventory.OfData(Pointer(mData, mChildDataOffset + offsetNextEntry),
                                                mChildDataOffset + offsetNextEntry,
                                                mChildDataLength - offsetNextEntry);
        var n := inventory.Parse(mData, mInventoryCount);
        offsetNextEntry := offsetNextEntry + INVENTORY_SIZE;
        var valid := inventory.IsValid();
        if !valid {
          break;
        }
        mInventory := mInventory + [inventory];
        mInventoryCount := mInventoryCount + 1;
      }
    }

    /** verify: true exactly when every stored hash and CRC is that of the file. */
    method Verify() returns (rtv: bool)
      requires ParsedAll()
      requires forall k :: 0 <= k < CountFrom(mData, 0) ==> FileInside(mData, k)
      ensures rtv <==> Verified(env, mData)
    {
      hide FileVerified, InventoryAt, UnityAt, FileAt, FileInside, CountFrom;
      rtv := true;
      var i := 0;
      while i < mInventoryCount
        invariant i <= mInventoryCount
        invariant rtv <==> forall k :: 0 <= k < i ==> VerifiedAt(env, mData, k)
      {
        mInventory[i].ParsedFile(mData, i);
        var ok := mInventory[i].mUnity.Verify(env);
        assert ok <==> VerifiedAt(env, mData, i);
        if !ok {
          rtv := false;
        }
        i := i + 1;
      }
    }
  }

  lemma {:induction false} OffsetPrefix(parts: seq<Part>, part: Part, k: nat)
    requires k <= |parts|
    ensures Offset(parts + [part], k) == Offset(parts, k)
  {
    hide ChildSize;
    if k > 0 { OffsetPrefix(parts, part, k - 1); }
  }

  // Appending a partition leaves the inventories before it as they were.
  lemma AppendedPart(parts: seq<Part>, part: Part)
    requires Buildable(parts) && |parts| < MAX_INVENTORIES && PartOk(part)
    requires ImageSize(parts) + ChildSize(part) <= MAX_IMAGE
    ensures Buildable(parts + [part])
    ensures Offset(parts + [part], |parts|) == Offset(parts, |parts|)
    ensures Offset(parts + [part], |parts| + 1) == Offset(parts, |parts|) + ChildSize(part)
    ensures forall i :: 0 <= i < |parts| ==> Offset(parts + [part], i) == Offset(parts, i)
    ensures forall i :: 0 <= i < |parts| ==> Inventory(parts + [part], i) == Inventory(parts, i)
  {
    hide ChildSize, PartOk;
    forall i | 0 <= i <= |parts|
      ensures Offset(parts + [part], i) == Offset(parts, i)
    {
      OffsetPrefix(parts, part, i);
    }
  }

  // ------------------------------------------------------ creating an update

  // What the loop of `mup c` has for one partition when it appends it: the place
  // in flash, the name and bytes, the time, and what memory held.
  datatype Given = Given(flashOffset: U32, name: Bytes, data: Bytes, date: U32, malloced: UnityHeader, gap: Bytes,
                         pad: Bytes)

  // The product code for the number that was typed.
  function ProductCode(choice: int): (code: U32)
    ensures code == 0x11321000 <==> choice == 1
    ensures code == 0x11321006 <==> choice == 3
    ensures code == 0x11301003 <==> choice != 1 && choice != 3
  {
    if choice == 1 then 0x11321000 else if choice == 3 then 0x11321006 else 0x11301003
  }

  predicate GivenOk(g: Given) {
    && |g.name| <= 31 && NoNul(g.name) && |g.data| < TWO32 && Shaped(g.malloced) && |g.gap| == 296
    && |g.pad| == Padding(HEADER_SIZE + |g.data|)
  }

  function PartOf(g: Given, code: U32): (p: Part)
    requires GivenOk(g)
    ensures PartOk(p)
  {
    Part(g.flashOffset, g.name, g.data, code, g.date,
         Junk(g.malloced.fileName[|g.name| + 1..], g.malloced.info[16..], g.gap, g.pad))
  }

  function PartsOf(given: seq<Given>, code: U32): (parts: seq<Part>)
    requires forall i :: 0 <= i < |given| ==> GivenOk(given[i])
    ensures |parts| == |given| && forall i :: 0 <= i < |parts| ==> parts[i] == PartOf(given[i], code)
  {
    seq(|given|, i requires 0 <= i < |given| => PartOf(given[i], code))
  }

  lemma {:induction false} OffsetTake(parts: seq<Part>, n: nat, k: nat)
    requires k <= n <= |parts|
    ensures Offset(parts[..n], k) == Offset(parts, k)
  {
    hide ChildSize;
    if k > 0 { OffsetTake(parts, n, k - 1); }
  }

  // There is room for one more of the partitions.
  lemma RoomForNext(parts: seq<Part>, n: nat)
    requires n < |parts|
    ensures ImageSize(parts[..n]) + ChildSize(parts[n]) <= ImageSize(parts)
  {
    hide ChildSize;
    OffsetTake(parts, n, n);
    OffsetGrows(parts, n, |parts|);
  }

  /** The branch of mup.cpp that creates an update: the product code is set once,
      the partitions are appended, and the image is made. */
  method CreateUpdate(env: Env, date: U32, malloced: Bytes, choice: int, given: seq<Given>) returns (data: array<bv8>)
    requires |malloced| == 128 && forall i :: 0 <= i < |given| ==> GivenOk(given[i])
    requires Buildable(PartsOf(given, ProductCode(choice)))
    ensures data[..] == Image(env,
                              PackHeader(MAGIC, VERSION, ProductCode(choice), 101, date, 0, 0, INFO + malloced[16..]),
                              PartsOf(given, ProductCode(choice)))
  {
    hide Image, ImageSize, ChildSize, PartOk, NoNul, Padding, Buildable, SwPack.Holds;
    var swpack := new SwPack(env, date, malloced);
    var code := ProductCode(choice);
    swpack.SetProductCode(code);
    ghost var parts := PartsOf(given, code);
    BuildableCount(parts);
    var i := 0;
    while i < |given|
      invariant i <= |given| && fresh(swpack) && swpack.Valid() && swpack.parts == parts[..i]
      invariant swpack.env == env
      invariant swpack.mHeader == PackHeader(MAGIC, VERSION, code, 101, date, 0, 0, INFO + malloced[16..])
    {
      var g := given[i];
      RoomForNext(parts, i);
      GivenSize(parts, i, g, code);
      swpack.AppendPartition(g.flashOffset, g.name, g.data, g.date, g.malloced, g.gap, g.pad);
      assert parts[..i + 1] == parts[..i] + [parts[i]];
      i := i + 1;
    }
    assert parts[..i] == parts;
    data := swpack.CreateImage();
  }

  lemma BuildableCount(parts: seq<Part>)
    requires Buildable(parts)
    ensures |parts| <= MAX_INVENTORIES && ImageSize(parts) <= MAX_IMAGE
  {
    hide Offset, PartOk;
  }

  lemma GivenSize(parts: seq<Part>, i: nat, g: Given, code: U32)
    requires i < |parts| && GivenOk(g) && parts[i] == PartOf(g, code)
    ensures ChildSize(parts[i]) == HEADER_SIZE + |g.data| + |g.pad|
  {
  }

  // What the parser finds for a given partition: a file of its bytes, its name,
  // date and place, and the product code of the pack header.
  ghost predicate Recovers(image: Bytes, k: nat, g: Given) {
    && |image| >= CHILDREN && k < MAX_INVENTORIES && FileInside(image, k) && FileAt(image, k) == g.data
    && UnityAt(image, k).product == PackIn(image).product && UnityAt(image, k).date == g.date
    && UnityAt(image, k).flashOffset == g.flashOffset && CString(UnityAt(image, k).fileName) == g.name
  }

  lemma GivenRecovered(image: Bytes, k: nat, g: Given, code: U32)
    requires GivenOk(g) && |image| >= CHILDREN && k < MAX_INVENTORIES
    requires Gives(image, k, PartOf(g, code)) && PackIn(image).product == code
    ensures Recovers(image, k, g)
  {
    hide FileInside, FileAt, UnityAt, PackIn, CString, InventoryAt, GivenOk;
  }

  /** What the created image says: the product code that was chosen, in its header
      and in the header of every partition, and for each partition what was given. */
  lemma CreatedUpdate(env: Env, date: U32, malloced: Bytes, choice: int, given: seq<Given>)
    requires |malloced| == 128 && forall i :: 0 <= i < |given| ==> GivenOk(given[i])
    requires Buildable(PartsOf(given, ProductCode(choice)))
    ensures var code := ProductCode(choice);
      var image := Image(env, PackHeader(MAGIC, VERSION, code, 101, date, 0, 0, INFO + malloced[16..]),
                         PartsOf(given, code));
      && CountFrom(image, 0) == |given| && PackIn(image).product == code
      && forall k :: 0 <= k < |given| ==> Recovers(image, k, given[k])
  {
    hide Image, ImageSize, Buildable, PartOk, GivenOk, PackIn, CountFrom, Verified, Wellformed, Gives, Recovers;
    var code := ProductCode(choice);
    var h := PackHeader(MAGIC, VERSION, code, 101, date, 0, 0, INFO + malloced[16..]);
    var parts := PartsOf(given, code);
    BuildableCount(parts);
    SizeAtLeast(parts);
    RoundTrip(env, h, parts);
    var image := Image(env, h, parts);
    forall k | 0 <= k < |given|
      ensures Recovers(image, k, given[k])
    {
      GivenRecovered(image, k, given[k], code);
    }
  }
}

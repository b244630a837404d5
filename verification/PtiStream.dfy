/** The transport-stream pipeline of driver/pti/pti_main.c (the variant with a
    software read pointer): the controller fills a ring of packets, a timer turns
    the filled part into work items, and an injector thread sorts the packets of
    each item by tag and hands them to the demultiplexers in batches. */
module PtiStream {
  import opened Octets

  const HEADER_SIZE: nat := 6
  const PACKET_SIZE: nat := 194
  const RING_PACKETS: nat := 4096
  const BUFFER_SIZE: nat := 794624
  const QUEUE_SIZE: nat := 400
  const TAG_COUNT: nat := 4
  const AUX_COUNT: nat := 20

  type Payload = Bytes

  // A work item: a byte offset into the ring and a number of packets.
  datatype Item = Item(offset: nat, count: nat)

  // One call of the demultiplexer.
  datatype Batch = Batch(tag: nat, packets: seq<Payload>)

  // The injector between two of its steps; aux holds the packets collected per tag.
  datatype Injector =
    | Idle
    | Busy(offset: nat, count: nat, n: nat, aux: seq<seq<Payload>>)

  datatype State = State(
    base: nat,               // physical address of the ring
    ring: Bytes,
    rp: nat,                 // software read pointer
    pread: nat,              // packets announced to the firmware, 0 once acknowledged
    queue: seq<Item>,
    readIndex: nat,
    writeIndex: nat,
    sem: nat,
    demux: seq<bool>,        // which tags have a demultiplexer
    inj: Injector,
    log: seq<Batch>)

  // ------------------------------------------------------------- the steps

  // The controller writes the next byte of the stream at its write position.
  function DmaByte(s: State, pos: nat, b: bv8): State
    requires |s.ring| == BUFFER_SIZE
  {
    s.(ring := s.ring[pos % BUFFER_SIZE := b])
  }

  function Aligned(base: nat, wp: nat): nat
    requires base <= wp
  {
    wp - (wp - base) % PACKET_SIZE
  }

  // The end test compares the two addresses without their low four bits.
  function Rewound(base: nat, rp: nat): nat {
    if rp / 16 == (base + BUFFER_SIZE) / 16 then base else rp
  }

  function Push(s: State, offset: nat, count: nat): State
    requires s.writeIndex < |s.queue|
  {
    s.(queue := s.queue[s.writeIndex := Item(offset, count)],
       writeIndex := (s.writeIndex + 1) % QUEUE_SIZE,
       sem := s.sem + 1)
  }

  predicate Shaped(s: State) {
    && |s.ring| == BUFFER_SIZE && |s.queue| == QUEUE_SIZE && |s.demux| == TAG_COUNT
    && s.readIndex < QUEUE_SIZE && s.writeIndex < QUEUE_SIZE
    && s.base <= s.rp <= s.base + BUFFER_SIZE
  }

  function Pending(base: nat, rp: nat, wp: nat): nat
    requires base <= rp <= base + BUFFER_SIZE && base <= wp
  {
    if rp <= wp then (wp - rp) / PACKET_SIZE
    else ((base + BUFFER_SIZE - rp) + (wp - base)) / PACKET_SIZE
  }

  // Queue the packets between the two pointers, in two pieces if they wrap.
  function Announced(s: State, wp: nat): State
    requires Shaped(s) && s.base <= wp
  {
    var count := Pending(s.base, s.rp, wp);
    if s.rp <= wp then
      Push(s, s.rp - s.base, count).(rp := wp, pread := count)
    else
      var first := (s.base + BUFFER_SIZE - s.rp) / PACKET_SIZE;
      Push(Push(s, s.rp - s.base, first), 0, count - first).(rp := wp, pread := count)
  }

  // One poll of the timer that reads `register` as the controller's write pointer.
  function Tick(s: State, register: nat): State
    requires Shaped(s) && s.base <= register <= s.base + BUFFER_SIZE
  {
    var wp := Aligned(s.base, register);
    var rp := Rewound(s.base, s.rp);
    if Pending(s.base, rp, wp) == 0 || s.pread != 0 then s.(rp := rp)
    else Announced(s.(rp := rp), wp)
  }

  // The firmware has taken note of the announced packets.
  function Ack(s: State): State {
    s.(pread := 0)
  }

  const NO_PACKETS: seq<seq<Payload>> := [[], [], [], []]

  // The injector gets past the semaphore and picks up a work item, unless the
  // indices say that there is none.
  function Take(s: State): State
    requires Shaped(s) && s.sem > 0
  {
    if s.writeIndex == s.readIndex then s.(sem := s.sem - 1)
    else
      var item := s.queue[s.readIndex];
      s.(sem := s.sem - 1, inj := Busy(item.offset, item.count, 0, NO_PACKETS))
  }

  // The tag in the first byte of a packet's header.
  function TagOf(b: bv8): nat {
    (b as nat / 4) % 16
  }

  function Tag(packet: Bytes): nat
    requires packet != []
  {
    TagOf(packet[0])
  }

  predicate Wanted(demux: seq<bool>, tag: nat) {
    tag < |demux| && demux[tag]
  }

  // Put one packet into its batch, and hand the batch over when it is full.
  function Sort(demux: seq<bool>, aux: seq<seq<Payload>>, log: seq<Batch>, packet: Bytes)
      : (seq<seq<Payload>>, seq<Batch>)
    requires |aux| == |demux| && |packet| == PACKET_SIZE
  {
    var tag := Tag(packet);
    if !Wanted(demux, tag) then (aux, log)
    else
      var batch := aux[tag] + [packet[HEADER_SIZE..]];
      if |batch| >= AUX_COUNT then (aux[tag := []], log + [Batch(tag, batch)])
      else (aux[tag := batch], log)
  }

  predicate CanInject(s: State) {
    && s.inj.Busy? && s.inj.n < s.inj.count && |s.inj.aux| == |s.demux|
    && s.inj.offset + (s.inj.n + 1) * PACKET_SIZE <= |s.ring|
  }

  function PacketAt(ring: Bytes, offset: nat, n: nat): (p: Bytes)
    requires offset + (n + 1) * PACKET_SIZE <= |ring|
    ensures |p| == PACKET_SIZE
  {
    ring[offset + n * PACKET_SIZE..offset + (n + 1) * PACKET_SIZE]
  }

  // The injector sorts the next packet of its item.
  function Inject(s: State): State
    requires CanInject(s)
  {
    var (aux, log) := Sort(s.demux, s.inj.aux, s.log, PacketAt(s.ring, s.inj.offset, s.inj.n));
    s.(inj := s.inj.(n := s.inj.n + 1, aux := aux), log := log)
  }

  // Hand over what is left for tags from..TAG_COUNT.
  function Rest(demux: seq<bool>, aux: seq<seq<Payload>>, from: nat): seq<Batch>
    requires |aux| == |demux| && from <= |demux|
    decreases |demux| - from
  {
    if from == |demux| then []
    else (if aux[from] != [] && demux[from] then [Batch(from, aux[from])] else []) + Rest(demux, aux, from + 1)
  }

  // All packets are sorted: hand over the rest and give the slot back.
  function Flush(s: State): State
    requires s.inj.Busy? && |s.inj.aux| == |s.demux|
  {
    s.(log := s.log + Rest(s.demux, s.inj.aux, 0),
       readIndex := (s.readIndex + 1) % QUEUE_SIZE,
       inj := Idle)
  }

  // ------------------------------------------------------ what should happen

  // The k-th packet of the stream.
  function Packet(stream: Bytes, k: nat): (p: Bytes)
    requires (k + 1) * PACKET_SIZE <= |stream|
    ensures |p| == PACKET_SIZE
  {
    stream[k * PACKET_SIZE..(k + 1) * PACKET_SIZE]
  }

  // The payloads with tag t among the first m packets of the stream, in order.
  function Select(stream: Bytes, m: nat, t: nat): seq<Payload>
    requires m * PACKET_SIZE <= |stream|
  {
    if m == 0 then []
    else
      var p := Packet(stream, m - 1);
      Select(stream, m - 1, t) + (if Tag(p) == t then [p[HEADER_SIZE..]] else [])
  }

  // Everything handed to the demultiplexer of tag t, in order.
  function Received(log: seq<Batch>, t: nat): seq<Payload> {
    if log == [] then []
    else
      var b := log[|log| - 1];
      Received(log[..|log| - 1], t) + (if b.tag == t then b.packets else [])
  }

  // ------------------------------------------------------------ the history

  // The bytes produced, the work items queued, and how many of them are done.
  datatype History = History(stream: Bytes, items: seq<Item>, out: nat)

  // Packets in the first i work items.
  function Total(items: seq<Item>, i: nat): (r: nat)
    requires i <= |items|
  {
    if i == 0 then 0 else Total(items, i - 1) + items[i - 1].count
  }

  // The items of one poll, as Tick queues them.
  function Polled(s: State, register: nat): seq<Item>
    requires Shaped(s) && s.base <= register <= s.base + BUFFER_SIZE
  {
    var wp := Aligned(s.base, register);
    var rp := Rewound(s.base, s.rp);
    var count := Pending(s.base, rp, wp);
    if count == 0 || s.pread != 0 then [] else NewItems(s.base, rp, wp)
  }

  function NewItems(base: nat, rp: nat, wp: nat): seq<Item>
    requires base <= rp <= base + BUFFER_SIZE && base <= wp
  {
    var count := Pending(base, rp, wp);
    if rp <= wp then [Item(rp - base, count)]
    else
      var first := (base + BUFFER_SIZE - rp) / PACKET_SIZE;
      [Item(rp - base, first), Item(0, count - first)]
  }

  function RingIndex(k: nat): (r: nat)
    ensures r < BUFFER_SIZE
  {
    k % BUFFER_SIZE
  }

  function QueueIndex(i: nat): (r: nat)
    ensures r < QUEUE_SIZE
  {
    i % QUEUE_SIZE
  }

  // What the write-pointer register can read when len bytes have been produced:
  // after a full turn it rests at the start of the ring or at its end.
  function Register(base: nat, len: nat, top: bool): (r: nat)
    ensures base <= r <= base + BUFFER_SIZE
  {
    if top && RingIndex(len) == 0 then base + BUFFER_SIZE else base + RingIndex(len)
  }

  // The byte offset of the ring slot of packet m.
  function SlotOffset(m: nat): (r: nat)
    ensures r + PACKET_SIZE <= BUFFER_SIZE
  {
    m % RING_PACKETS * PACKET_SIZE
  }

  // The last BUFFER_SIZE bytes of the stream are in the ring.
  ghost predicate RingOk(ring: Bytes, stream: Bytes)
    requires |ring| == BUFFER_SIZE
  {
    forall k :: 0 <= k < |stream| && |stream| <= k + BUFFER_SIZE ==> ring[RingIndex(k)] == stream[k]
  }

  // The outstanding items are in the circular queue.
  ghost predicate QueueOk(queue: seq<Item>, readIndex: nat, writeIndex: nat, items: seq<Item>, out: nat)
    requires |queue| == QUEUE_SIZE
  {
    && out <= |items| < out + QUEUE_SIZE
    && readIndex == QueueIndex(out)
    && writeIndex == QueueIndex(|items|)
    && forall i :: out <= i < |items| ==> queue[QueueIndex(i)] == items[i]
  }

  // The items name the ring slots of packets 0, 1, 2, ... in order, each
  // exactly once, and none runs over the end of the ring.
  ghost predicate Tiled(items: seq<Item>) {
    forall i :: 0 <= i < |items| ==>
      && items[i].offset == SlotOffset(Total(items, i))
      && items[i].offset + items[i].count * PACKET_SIZE <= BUFFER_SIZE
  }

  // The address p is that of the slot of packet m.
  predicate Behind(base: nat, p: nat, m: nat) {
    p == base + SlotOffset(m) || (p == base + BUFFER_SIZE && SlotOffset(m) == 0)
  }

  // The software pointer stands after the last queued packet, perhaps at the end
  // of the ring instead of at its start; no packet is queued before it is
  // complete, and no queued slot has been overwritten.
  ghost predicate PointersOk(base: nat, rp: nat, produced: nat, items: seq<Item>, out: nat)
    requires out <= |items|
  {
    && Behind(base, rp, Total(items, |items|))
    && Total(items, |items|) * PACKET_SIZE <= produced
    && produced <= Total(items, out) * PACKET_SIZE + BUFFER_SIZE
  }

  ghost predicate InjectorOk(inj: Injector, sem: nat, items: seq<Item>, out: nat)
    requires out <= |items|
  {
    match inj
    case Idle => sem == |items| - out
    case Busy(offset, count, n, aux) =>
      && out < |items| && sem == |items| - out - 1
      && items[out] == Item(offset, count)
      && n <= count && |aux| == TAG_COUNT
      && forall t :: 0 <= t < TAG_COUNT ==> |aux[t]| < AUX_COUNT
  }

  function Collected(inj: Injector, t: nat): seq<Payload> {
    if inj.Busy? && t < |inj.aux| then inj.aux[t] else []
  }

  // How many packets the injector has sorted.
  function Sorted(inj: Injector, items: seq<Item>, out: nat): nat
    requires out <= |items|
  {
    Total(items, out) + if inj.Busy? then inj.n else 0
  }

  // Each demultiplexer has received, or is about to receive, exactly the first
  // m packets' payloads of its tag in order; tags without one nothing.
  ghost predicate DeliveredOk(demux: seq<bool>, inj: Injector, log: seq<Batch>, stream: Bytes, m: nat) {
    && m * PACKET_SIZE <= |stream|
    && (forall t: nat :: Received(log, t) + Collected(inj, t)
          == if Wanted(demux, t) then Select(stream, m, t) else [])
    && (forall i :: 0 <= i < |log| ==> 1 <= |log[i].packets| <= AUX_COUNT)
  }

  ghost predicate Inv(s: State, h: History) {
    && Shaped(s) && h.out <= |h.items|
    && RingOk(s.ring, h.stream)
    && QueueOk(s.queue, s.readIndex, s.writeIndex, h.items, h.out)
    && Tiled(h.items)
    && PointersOk(s.base, s.rp, |h.stream|, h.items, h.out)
    && InjectorOk(s.inj, s.sem, h.items, h.out)
    && DeliveredOk(s.demux, s.inj, s.log, h.stream, Sorted(s.inj, h.items, h.out))
  }

  // The state the driver starts in.
  function Initial(base: nat, ring: Bytes, queue: seq<Item>, demux: seq<bool>): State {
    State(base, ring, base, 0, queue, 0, 0, 0, demux, Idle, [])
  }

  lemma InitialInv(base: nat, ring: Bytes, queue: seq<Item>, demux: seq<bool>)
    requires |ring| == BUFFER_SIZE && |queue| == QUEUE_SIZE && |demux| == TAG_COUNT
    ensures Inv(Initial(base, ring, queue, demux), History([], [], 0))
  {
  }

  // -------------------------------------------------------------- arithmetic

  // Where byte j of packet m sits in the ring.
  lemma SlotOf(m: nat, j: nat)
    requires j < PACKET_SIZE
    ensures RingIndex(m * PACKET_SIZE + j) == SlotOffset(m) + j
  {
    var q, r := m / RING_PACKETS, m % RING_PACKETS;
    assert m * PACKET_SIZE + j == q * BUFFER_SIZE + (r * PACKET_SIZE + j);
  }

  // The controller's write pointer, rounded down, is the slot of the first incomplete packet.
  lemma AlignedIsSlot(base: nat, len: nat)
    ensures Aligned(base, base + RingIndex(len)) == base + SlotOffset(len / PACKET_SIZE)
  {
    var m, j := len / PACKET_SIZE, len % PACKET_SIZE;
    SlotOf(m, j);
    assert m * PACKET_SIZE + j == len;
    assert (SlotOffset(m) + j) % PACKET_SIZE == j by { ModOfSum(m % RING_PACKETS, j); }
  }

  lemma ModOfSum(q: nat, j: nat)
    requires j < PACKET_SIZE
    ensures (q * PACKET_SIZE + j) % PACKET_SIZE == j
  {
  }

  // The end test sends a software pointer at the end of the ring back to its
  // start, and no other one that stands at a slot.
  lemma EndTestRewinds(base: nat, p: nat, m: nat)
    requires Behind(base, p, m)
    ensures Rewound(base, p) == base + SlotOffset(m)
    ensures Rewound(base, p) != p <==> p == base + BUFFER_SIZE
  {
  }

  lemma AlignedRegister(base: nat, len: nat, top: bool)
    ensures var wp := Aligned(base, Register(base, len, top));
      && Behind(base, wp, len / PACKET_SIZE)
      && (wp == base + BUFFER_SIZE <==> top && RingIndex(len) == 0)
      && (top && RingIndex(len) == 0 ==> len / PACKET_SIZE * PACKET_SIZE == len)
  {
    AlignedIsSlot(base, len);
    if top && RingIndex(len) == 0 {
      assert len == len / BUFFER_SIZE * BUFFER_SIZE;
      assert len / PACKET_SIZE == len / BUFFER_SIZE * RING_PACKETS;
    }
  }

  // What the poll computes is the number of complete packets not yet queued,
  // except that a completely full ring looks empty.
  lemma PendingIs(base: nat, queued: nat, len: nat)
    requires queued * PACKET_SIZE <= len <= queued * PACKET_SIZE + BUFFER_SIZE
    ensures var rp, wp := base + SlotOffset(queued), base + SlotOffset(len / PACKET_SIZE);
      var count := Pending(base, rp, wp);
      && (count == len / PACKET_SIZE - queued || (count == 0 && len / PACKET_SIZE == queued + RING_PACKETS))
      && (rp <= wp ==> SlotOffset(queued) + count * PACKET_SIZE <= BUFFER_SIZE)
      && (rp > wp ==>
            var first := (base + BUFFER_SIZE - rp) / PACKET_SIZE;
            && first <= count
            && SlotOffset(queued) + first * PACKET_SIZE == BUFFER_SIZE
            && (count - first) * PACKET_SIZE <= BUFFER_SIZE
            && SlotOffset(queued + first) == 0)
  {
    var a, b := queued % RING_PACKETS, len / PACKET_SIZE % RING_PACKETS;
    var full := len / PACKET_SIZE;
    assert full * PACKET_SIZE <= len < (full + 1) * PACKET_SIZE;
    assert queued <= full <= queued + RING_PACKETS;
  }

  // What the poll computes when it reads the end of the ring: too many exactly
  // when nothing waits and the software pointer is at the start.
  lemma TopReading(base: nat, queued: nat, len: nat)
    requires queued * PACKET_SIZE <= len <= queued * PACKET_SIZE + BUFFER_SIZE
    requires RingIndex(len) == 0
    ensures var count := Pending(base, base + SlotOffset(queued), base + BUFFER_SIZE);
      var waiting := len / PACKET_SIZE - queued;
      && waiting >= 0 && count > 0 && SlotOffset(queued) + count * PACKET_SIZE == BUFFER_SIZE
      && (count == waiting <==> SlotOffset(queued) != 0 || waiting == RING_PACKETS)
      && (count != waiting ==> waiting == 0 && count == RING_PACKETS)
  {
    var full := len / BUFFER_SIZE;
    assert len == full * BUFFER_SIZE && len / PACKET_SIZE == full * RING_PACKETS;
    assert queued <= full * RING_PACKETS <= queued + RING_PACKETS;
  }

  lemma {:induction false} TotalAppend(items: seq<Item>, more: seq<Item>, i: nat)
    requires i <= |items|
    ensures Total(items + more, i) == Total(items, i)
  {
    if i > 0 {
      TotalAppend(items, more, i - 1);
      assert (items + more)[i - 1] == items[i - 1];
    }
  }

  lemma {:induction false} TotalMono(items: seq<Item>, i: nat, j: nat)
    requires i <= j <= |items|
    ensures Total(items, i) <= Total(items, j)
  {
    if i < j { TotalMono(items, i, j - 1); }
  }

  lemma {:induction false} SelectAppend(stream: Bytes, more: Bytes, m: nat, t: nat)
    requires m * PACKET_SIZE <= |stream|
    ensures Select(stream + more, m, t) == Select(stream, m, t)
  {
    if m > 0 {
      SelectAppend(stream, more, m - 1, t);
      assert Packet(stream + more, m - 1) == Packet(stream, m - 1);
    }
  }

  // ------------------------------------------------------------ the DMA step

  lemma DifferentSlots(k: nat, l: nat)
    requires k < l < k + BUFFER_SIZE
    ensures RingIndex(k) != RingIndex(l)
  {
  }

  lemma DmaRing(ring: Bytes, stream: Bytes, b: bv8)
    requires |ring| == BUFFER_SIZE && RingOk(ring, stream)
    ensures RingOk(ring[RingIndex(|stream|) := b], stream + [b])
  {
    hide RingIndex;
    var stream' := stream + [b];
    forall k | 0 <= k < |stream'| && |stream'| <= k + BUFFER_SIZE
      ensures ring[RingIndex(|stream|) := b][RingIndex(k)] == stream'[k]
    {
      if k < |stream| { DifferentSlots(k, |stream|); }
    }
  }

  lemma DmaDelivered(demux: seq<bool>, inj: Injector, log: seq<Batch>, stream: Bytes, m: nat, b: bv8)
    requires DeliveredOk(demux, inj, log, stream, m)
    ensures DeliveredOk(demux, inj, log, stream + [b], m)
  {
    hide Select, Received;
    forall t: nat ensures Received(log, t) + Collected(inj, t)
        == if Wanted(demux, t) then Select(stream + [b], m, t) else []
    {
      SelectAppend(stream, [b], m, t);
    }
  }

  lemma DmaInv(s: State, h: History, b: bv8)
    requires Inv(s, h) && |h.stream| < Total(h.items, h.out) * PACKET_SIZE + BUFFER_SIZE
    ensures Inv(DmaByte(s, |h.stream|, b), h.(stream := h.stream + [b]))
  {
    hide RingOk, DeliveredOk, Tiled, QueueOk, InjectorOk;
    DmaRing(s.ring, h.stream, b);
    DmaDelivered(s.demux, s.inj, s.log, h.stream, Sorted(s.inj, h.items, h.out), b);
  }

  // ---------------------------------------------------------- the timer step

  lemma QueueNext(i: nat)
    ensures QueueIndex(i + 1) == (QueueIndex(i) + 1) % QUEUE_SIZE
  {
  }

  lemma QueueDistinct(i: nat, j: nat)
    requires i < j < i + QUEUE_SIZE
    ensures QueueIndex(i) != QueueIndex(j)
  {
  }

  lemma PushQueue(queue: seq<Item>, readIndex: nat, writeIndex: nat, items: seq<Item>, out: nat, item: Item)
    requires |queue| == QUEUE_SIZE && QueueOk(queue, readIndex, writeIndex, items, out)
    requires |items| + 1 < out + QUEUE_SIZE
    ensures QueueOk(queue[writeIndex := item], readIndex, (writeIndex + 1) % QUEUE_SIZE, items + [item], out)
  {
    hide QueueIndex;
    var items', queue' := items + [item], queue[writeIndex := item];
    QueueNext(|items|);
    forall i | out <= i < |items'| ensures queue'[QueueIndex(i)] == items'[i] {
      if i < |items| { QueueDistinct(i, |items|); }
    }
  }

  lemma PushTiled(items: seq<Item>, item: Item)
    requires Tiled(items)
    requires item.offset == SlotOffset(Total(items, |items|))
    requires item.offset + item.count * PACKET_SIZE <= BUFFER_SIZE
    ensures Tiled(items + [item])
    ensures Total(items + [item], |items| + 1) == Total(items, |items|) + item.count
  {
    hide SlotOffset;
    forall i | 0 <= i <= |items| ensures Total(items + [item], i) == Total(items, i) {
      TotalAppend(items, [item], i);
    }
  }

  lemma PushTiledTwice(items: seq<Item>, a: Item, b: Item)
    requires Tiled(items)
    requires a.offset == SlotOffset(Total(items, |items|)) && a.offset + a.count * PACKET_SIZE <= BUFFER_SIZE
    requires b.offset == SlotOffset(Total(items, |items|) + a.count) && b.offset + b.count * PACKET_SIZE <= BUFFER_SIZE
    ensures Tiled(items + [a, b])
    ensures Total(items + [a, b], |items| + 2) == Total(items, |items|) + a.count + b.count
  {
    hide SlotOffset, Tiled, Total;
    PushTiled(items, a);
    PushTiled(items + [a], b);
    assert items + [a, b] == items + [a] + [b];
  }

  // The items of a poll continue the tiling and queue every complete packet.
  lemma PolledTiled(base: nat, rp: nat, wp: nat, produced: nat, items: seq<Item>)
    requires Tiled(items)
    requires rp == base + SlotOffset(Total(items, |items|)) && Behind(base, wp, produced / PACKET_SIZE)
    requires Total(items, |items|) * PACKET_SIZE <= produced <= Total(items, |items|) * PACKET_SIZE + BUFFER_SIZE
    requires Pending(base, rp, wp) != 0
    requires wp == base + BUFFER_SIZE ==>
      RingIndex(produced) == 0 && Pending(base, rp, wp) == produced / PACKET_SIZE - Total(items, |items|)
    ensures var items' := items + NewItems(base, rp, wp);
      Tiled(items') && Total(items', |items'|) == produced / PACKET_SIZE
  {
    hide SlotOffset, Pending, Total, Tiled, RingIndex;
    var count := Pending(base, rp, wp);
    if wp == base + BUFFER_SIZE {
      TopReading(base, Total(items, |items|), produced);
    } else {
      PendingIs(base, Total(items, |items|), produced);
    }
    if rp <= wp {
      PushTiled(items, Item(rp - base, count));
    } else {
      var first := (base + BUFFER_SIZE - rp) / PACKET_SIZE;
      PushTiledTwice(items, Item(rp - base, first), Item(0, count - first));
    }
  }

  lemma OutstandingFit(produced: nat, items: seq<Item>, out: nat)
    requires out <= |items| && produced <= Total(items, out) * PACKET_SIZE + BUFFER_SIZE
    ensures produced <= Total(items, |items|) * PACKET_SIZE + BUFFER_SIZE
  {
    TotalMono(items, out, |items|);
  }

  lemma PolledQueue(s: State, items: seq<Item>, out: nat, register: nat)
    requires Shaped(s) && s.base <= register <= s.base + BUFFER_SIZE
    requires QueueOk(s.queue, s.readIndex, s.writeIndex, items, out)
    requires |items| + |Polled(s, register)| < out + QUEUE_SIZE
    ensures var s' := Tick(s, register);
      && |s'.queue| == QUEUE_SIZE && s'.writeIndex < QUEUE_SIZE
      && QueueOk(s'.queue, s'.readIndex, s'.writeIndex, items + Polled(s, register), out)
  {
    hide QueueOk;
    var more := Polled(s, register);
    if |more| > 0 {
      PushQueue(s.queue, s.readIndex, s.writeIndex, items, out, more[0]);
      if |more| == 2 {
        var s1 := Push(s, more[0].offset, more[0].count);
        PushQueue(s1.queue, s1.readIndex, s1.writeIndex, items + [more[0]], out, more[1]);
        assert items + more == items + [more[0]] + [more[1]];
      }
    } else {
      assert items + more == items;
    }
  }

  lemma PolledInjector(s: State, h: History, more: seq<Item>, sem: nat)
    requires h.out <= |h.items| && InjectorOk(s.inj, s.sem, h.items, h.out) && sem == s.sem + |more|
    ensures InjectorOk(s.inj, sem, h.items + more, h.out)
    ensures Sorted(s.inj, h.items + more, h.out) == Sorted(s.inj, h.items, h.out)
  {
    TotalAppend(h.items, more, h.out);
  }

  // A reading of the end of the ring is harmless: the poll does not announce
  // anything, or the software pointer is not at the start, or the whole ring is new.
  ghost predicate CountsRight(s: State, h: History, top: bool) {
    top && RingIndex(|h.stream|) == 0 ==>
      var queued := Total(h.items, |h.items|);
      s.pread != 0 || SlotOffset(queued) != 0 || |h.stream| / PACKET_SIZE - queued == RING_PACKETS
  }

  // A poll leaves the software pointer after the last queued packet, and if it
  // queues anything it queues every packet that is complete.
  lemma TickPointers(s: State, h: History, top: bool)
    requires Shaped(s) && h.out <= |h.items| && Tiled(h.items)
    requires PointersOk(s.base, s.rp, |h.stream|, h.items, h.out) && CountsRight(s, h, top)
    ensures var register := Register(s.base, |h.stream|, top);
      var s', items' := Tick(s, register), h.items + Polled(s, register);
      && s'.base == s.base && s.base <= s'.rp <= s.base + BUFFER_SIZE
      && Tiled(items') && PointersOk(s.base, s'.rp, |h.stream|, items', h.out)
      && (Polled(s, register) != [] ==> Total(items', |items'|) == |h.stream| / PACKET_SIZE)
  {
    hide SlotOffset, RingIndex, Rewound, Aligned, Pending, Total, Tiled, NewItems, Register;
    var register := Register(s.base, |h.stream|, top);
    var queued := Total(h.items, |h.items|);
    EndTestRewinds(s.base, s.rp, queued);
    AlignedRegister(s.base, |h.stream|, top);
    OutstandingFit(|h.stream|, h.items, h.out);
    var more, wp, rp := Polled(s, register), Aligned(s.base, register), Rewound(s.base, s.rp);
    TotalAppend(h.items, more, h.out);
    if s.pread != 0 || Pending(s.base, rp, wp) == 0 {
      assert h.items + more == h.items;
    } else {
      if wp == s.base + BUFFER_SIZE { TopReading(s.base, queued, |h.stream|); }
      PolledTiled(s.base, rp, wp, |h.stream|, h.items);
      CompletePackets(|h.stream|);
    }
  }

  lemma CompletePackets(produced: nat)
    ensures produced / PACKET_SIZE * PACKET_SIZE <= produced
  {
  }

  lemma TickFrame(s: State, register: nat)
    requires Shaped(s) && s.base <= register <= s.base + BUFFER_SIZE
    ensures var s' := Tick(s, register);
      && s'.base == s.base && s'.ring == s.ring && s'.demux == s.demux && s'.inj == s.inj && s'.log == s.log
      && s'.readIndex == s.readIndex && s'.sem == s.sem + |Polled(s, register)|
  {
    hide Pending, Aligned, Rewound;
  }

  lemma TickInv(s: State, h: History, top: bool)
    requires Inv(s, h) && CountsRight(s, h, top)
    requires |h.items| + |Polled(s, Register(s.base, |h.stream|, top))| < h.out + QUEUE_SIZE
    ensures var register := Register(s.base, |h.stream|, top);
      Inv(Tick(s, register), h.(items := h.items + Polled(s, register)))
  {
    hide Register, CountsRight, QueueOk, RingOk, Tiled, PointersOk, InjectorOk, DeliveredOk, Polled, Tick, Sorted;
    var register := Register(s.base, |h.stream|, top);
    TickFrame(s, register);
    TickPointers(s, h, top);
    PolledQueue(s, h.items, h.out, register);
    PolledInjector(s, h, Polled(s, register), Tick(s, register).sem);
  }

  // ------------------------------------------------------ the injector steps

  lemma HeadOfQueue(queue: seq<Item>, readIndex: nat, writeIndex: nat, items: seq<Item>, out: nat)
    requires |queue| == QUEUE_SIZE && QueueOk(queue, readIndex, writeIndex, items, out) && out < |items|
    ensures readIndex != writeIndex && readIndex < QUEUE_SIZE && queue[readIndex] == items[out]
  {
    hide QueueIndex;
    assert queue[QueueIndex(out)] == items[out];
    QueueDistinct(out, |items|);
  }

  lemma TakeInv(s: State, h: History)
    requires Inv(s, h) && s.inj.Idle? && s.sem > 0
    ensures Inv(Take(s), h) && Take(s).inj.Busy?
  {
    hide RingOk, Tiled, PointersOk, QueueOk, Received, Select, Total, SlotOffset, RingIndex, QueueIndex;
    HeadOfQueue(s.queue, s.readIndex, s.writeIndex, h.items, h.out);
    forall t: nat ensures Collected(Take(s).inj, t) == Collected(s.inj, t) {}
  }

  lemma TiledAt(items: seq<Item>, i: nat)
    requires i < |items| && Tiled(items)
    ensures items[i].offset == SlotOffset(Total(items, i))
    ensures items[i].offset + items[i].count * PACKET_SIZE <= BUFFER_SIZE
    ensures Total(items, i) + items[i].count <= Total(items, |items|)
  {
    hide SlotOffset;
    TotalMono(items, i + 1, |items|);
  }

  lemma NextPacketFits(h: History, n: nat)
    requires h.out < |h.items| && n < h.items[h.out].count && Tiled(h.items)
    requires Total(h.items, |h.items|) * PACKET_SIZE <= |h.stream|
    ensures (Total(h.items, h.out) + n + 1) * PACKET_SIZE <= |h.stream|
    ensures h.items[h.out].offset + (n + 1) * PACKET_SIZE <= BUFFER_SIZE
    ensures SlotOffset(Total(h.items, h.out) + n) == h.items[h.out].offset + n * PACKET_SIZE
  {
    hide SlotOffset, Total, Tiled;
    TiledAt(h.items, h.out);
    SlotWithin(Total(h.items, h.out), n);
  }

  lemma SlotWithin(m: nat, n: nat)
    ensures SlotOffset(m) + (n + 1) * PACKET_SIZE <= BUFFER_SIZE ==>
      SlotOffset(m + n) == SlotOffset(m) + n * PACKET_SIZE
  {
  }

  // The packet the injector reads from the ring is the next packet of the stream.
  lemma RingHoldsPacket(s: State, h: History)
    requires Inv(s, h) && s.inj.Busy? && s.inj.n < s.inj.count
    ensures CanInject(s)
    ensures (Sorted(s.inj, h.items, h.out) + 1) * PACKET_SIZE <= |h.stream|
    ensures PacketAt(s.ring, s.inj.offset, s.inj.n) == Packet(h.stream, Sorted(s.inj, h.items, h.out))
  {
    hide QueueOk, Tiled, DeliveredOk, Total, SlotOffset, RingIndex;
    var m := Sorted(s.inj, h.items, h.out);
    NextPacketFits(h, s.inj.n);
    var got, want := PacketAt(s.ring, s.inj.offset, s.inj.n), Packet(h.stream, m);
    forall j | 0 <= j < PACKET_SIZE ensures got[j] == want[j] {
      SlotOf(m, j);
      var k := m * PACKET_SIZE + j;
      assert want[j] == h.stream[k];
      assert h.stream[k] == s.ring[RingIndex(k)];
    }
  }

  lemma ReceivedAppend(log: seq<Batch>, b: Batch, t: nat)
    ensures Received(log + [b], t) == Received(log, t) + if b.tag == t then b.packets else []
  {
    assert (log + [b])[..|log|] == log;
  }

  // Sorting one packet delivers or collects it under its own tag only.
  lemma SortDelivers(demux: seq<bool>, aux: seq<seq<Payload>>, log: seq<Batch>, packet: Bytes, t: nat)
    requires |aux| == |demux| && |packet| == PACKET_SIZE
    ensures var (aux', log') := Sort(demux, aux, log, packet);
      && |aux'| == |aux|
      && Received(log', t) + (if t < |aux'| then aux'[t] else [])
         == Received(log, t) + (if t < |aux| then aux[t] else [])
            + (if Wanted(demux, t) && Tag(packet) == t then [packet[HEADER_SIZE..]] else [])
  {
    hide Tag, Received;
    var tag := Tag(packet);
    if Wanted(demux, tag) {
      var batch := aux[tag] + [packet[HEADER_SIZE..]];
      ReceivedAppend(log, Batch(tag, batch), t);
    }
  }

  lemma InjectDelivered(s: State, stream: Bytes, m: nat)
    requires CanInject(s) && DeliveredOk(s.demux, s.inj, s.log, stream, m)
    requires (m + 1) * PACKET_SIZE <= |stream| && PacketAt(s.ring, s.inj.offset, s.inj.n) == Packet(stream, m)
    requires forall t :: 0 <= t < |s.inj.aux| ==> |s.inj.aux[t]| < AUX_COUNT
    ensures DeliveredOk(s.demux, Inject(s).inj, Inject(s).log, stream, m + 1)
    ensures |Inject(s).inj.aux| == |s.inj.aux|
    ensures forall t :: 0 <= t < |s.inj.aux| ==> |Inject(s).inj.aux[t]| < AUX_COUNT
  {
    hide Received, Tag, PacketAt, Packet;
    var s' := Inject(s);
    forall t: nat ensures Received(s'.log, t) + Collected(s'.inj, t)
        == if Wanted(s.demux, t) then Select(stream, m + 1, t) else []
    {
      SortDelivers(s.demux, s.inj.aux, s.log, Packet(stream, m), t);
    }
  }

  lemma InjectInv(s: State, h: History)
    requires Inv(s, h) && s.inj.Busy? && s.inj.n < s.inj.count
    ensures CanInject(s) && Inv(Inject(s), h)
  {
    hide RingOk, QueueOk, Tiled, PointersOk, DeliveredOk, Total, PacketAt, Packet, Sort, SlotOffset, RingIndex,
         QueueIndex;
    RingHoldsPacket(s, h);
    InjectDelivered(s, h.stream, Sorted(s.inj, h.items, h.out));
  }

  lemma {:induction false} RestDelivers(demux: seq<bool>, aux: seq<seq<Payload>>, log: seq<Batch>, from: nat, t: nat)
    requires |aux| == |demux| && from <= |demux|
    ensures Received(log + Rest(demux, aux, from), t)
      == Received(log, t) + if from <= t < |demux| && demux[t] then aux[t] else []
    decreases |demux| - from
  {
    hide Received;
    if from == |demux| {
      assert log + [] == log;
    } else if aux[from] != [] && demux[from] {
      var b := Batch(from, aux[from]);
      assert log + ([b] + Rest(demux, aux, from + 1)) == log + [b] + Rest(demux, aux, from + 1);
      RestDelivers(demux, aux, log + [b], from + 1, t);
      ReceivedAppend(log, b, t);
    } else {
      assert [] + Rest(demux, aux, from + 1) == Rest(demux, aux, from + 1);
      RestDelivers(demux, aux, log, from + 1, t);
    }
  }

  lemma {:induction false} RestSizes(demux: seq<bool>, aux: seq<seq<Payload>>, from: nat)
    requires |aux| == |demux| && from <= |demux|
    requires forall t :: 0 <= t < |aux| ==> |aux[t]| < AUX_COUNT
    ensures forall i :: 0 <= i < |Rest(demux, aux, from)| ==> 1 <= |Rest(demux, aux, from)[i].packets| <= AUX_COUNT
    decreases |demux| - from
  {
    if from < |demux| { RestSizes(demux, aux, from + 1); }
  }

  lemma FlushDelivered(s: State, stream: Bytes, m: nat)
    requires s.inj.Busy? && |s.inj.aux| == |s.demux| && DeliveredOk(s.demux, s.inj, s.log, stream, m)
    requires forall t :: 0 <= t < |s.inj.aux| ==> |s.inj.aux[t]| < AUX_COUNT
    ensures DeliveredOk(s.demux, Idle, Flush(s).log, stream, m)
  {
    hide Received, Rest, Select;
    RestSizes(s.demux, s.inj.aux, 0);
    forall t: nat ensures Received(Flush(s).log, t) + Collected(Idle, t)
        == if Wanted(s.demux, t) then Select(stream, m, t) else []
    {
      RestDelivers(s.demux, s.inj.aux, s.log, 0, t);
    }
  }

  lemma PopQueue(queue: seq<Item>, readIndex: nat, writeIndex: nat, items: seq<Item>, out: nat)
    requires |queue| == QUEUE_SIZE && QueueOk(queue, readIndex, writeIndex, items, out) && out < |items|
    ensures QueueOk(queue, (readIndex + 1) % QUEUE_SIZE, writeIndex, items, out + 1)
  {
    hide QueueIndex;
    QueueNext(out);
  }

  lemma PopPointers(base: nat, rp: nat, produced: nat, items: seq<Item>, out: nat)
    requires out < |items| && PointersOk(base, rp, produced, items, out)
    ensures PointersOk(base, rp, produced, items, out + 1)
  {
    hide SlotOffset;
    assert Total(items, out + 1) == Total(items, out) + items[out].count;
  }

  lemma TotalStep(items: seq<Item>, i: nat)
    requires i < |items|
    ensures Total(items, i + 1) == Total(items, i) + items[i].count
  {
  }

  lemma FlushFrame(s: State)
    requires s.inj.Busy? && |s.inj.aux| == |s.demux|
    ensures var s' := Flush(s);
      && s'.inj == Idle && s'.readIndex == (s.readIndex + 1) % QUEUE_SIZE < QUEUE_SIZE
      && s' == s.(log := s'.log, readIndex := s'.readIndex, inj := Idle)
  {
    hide Rest;
  }

  lemma FlushInv(s: State, h: History)
    requires Inv(s, h) && s.inj.Busy? && s.inj.n == s.inj.count
    ensures Inv(Flush(s), h.(out := h.out + 1))
  {
    hide RingOk, Tiled, DeliveredOk, QueueOk, PointersOk, Total, Rest, Flush;
    TotalStep(h.items, h.out);
    FlushFrame(s);
    PopQueue(s.queue, s.readIndex, s.writeIndex, h.items, h.out);
    PopPointers(s.base, s.rp, |h.stream|, h.items, h.out);
    FlushDelivered(s, h.stream, Sorted(s.inj, h.items, h.out));
  }

  // -------------------------------------------------------------- whole runs

  // What can happen next: the controller produces a bv8, the timer fires, the
  // firmware acknowledges, or the injector takes its next step.
  datatype Event = Produced(b: bv8) | Poll(top: bool) | Acknowledge | Down | Sorting | Flushing

  // The assumptions on the environment: the controller does not overwrite a slot
  // that is still queued, fewer than QUEUE_SIZE items are outstanding, and its
  // write pointer rests at the end of the ring only where a poll counts right.
  ghost predicate Enabled(s: State, h: History, e: Event) {
    && Shaped(s) && h.out <= |h.items|
    && match e
       case Produced(_) => |h.stream| < Total(h.items, h.out) * PACKET_SIZE + BUFFER_SIZE
       case Poll(top) =>
         CountsRight(s, h, top) && |h.items| + |Polled(s, Register(s.base, |h.stream|, top))| < h.out + QUEUE_SIZE
       case Acknowledge => true
       case Down => s.inj.Idle? && s.sem > 0
       case Sorting => CanInject(s)
       case Flushing => s.inj.Busy? && s.inj.n == s.inj.count && |s.inj.aux| == |s.demux|
  }

  ghost function Next(s: State, h: History, e: Event): (State, History)
    requires Enabled(s, h, e)
  {
    match e
    case Produced(b) => (DmaByte(s, |h.stream|, b), h.(stream := h.stream + [b]))
    case Poll(top) =>
      var register := Register(s.base, |h.stream|, top);
      (Tick(s, register), h.(items := h.items + Polled(s, register)))
    case Acknowledge => (Ack(s), h)
    case Down => (Take(s), h)
    case Sorting => (Inject(s), h)
    case Flushing => (Flush(s), h.(out := h.out + 1))
  }

  // (s, h) is reached from the start by the events, one after the other.
  ghost predicate Reached(s0: State, events: seq<Event>, s: State, h: History) {
    if events == [] then s == s0 && h == History([], [], 0)
    else
      var n := |events| - 1;
      exists s1, h1 :: Reached(s0, events[..n], s1, h1) && Enabled(s1, h1, events[n])
        && (s, h) == Next(s1, h1, events[n])
  }

  ghost predicate IsInitial(s: State) {
    && s == Initial(s.base, s.ring, s.queue, s.demux)
    && |s.ring| == BUFFER_SIZE && |s.queue| == QUEUE_SIZE && |s.demux| == TAG_COUNT
  }

  lemma NextInv(s: State, h: History, e: Event)
    requires Inv(s, h) && Enabled(s, h, e)
    ensures Inv(Next(s, h, e).0, Next(s, h, e).1)
  {
    hide RingOk, QueueOk, Tiled, PointersOk, InjectorOk, DeliveredOk, DmaByte, Tick, Take, Inject, Flush, Polled;
    match e
    case Produced(b) => DmaInv(s, h, b);
    case Poll(top) => TickInv(s, h, top);
    case Acknowledge =>
    case Down => TakeInv(s, h);
    case Sorting => InjectInv(s, h);
    case Flushing => FlushInv(s, h);
  }

  lemma {:induction false} RunInv(s0: State, events: seq<Event>, s: State, h: History)
    requires IsInitial(s0) && Reached(s0, events, s, h)
    ensures Inv(s, h)
  {
    hide Inv, Enabled, Next, Shaped;
    if events == [] {
      InitialInv(s0.base, s0.ring, s0.queue, s0.demux);
    } else {
      var n := |events| - 1;
      var s1, h1 :| Reached(s0, events[..n], s1, h1) && Enabled(s1, h1, events[n]) && (s, h) == Next(s1, h1, events[n]);
      RunInv(s0, events[..n], s1, h1);
      NextInv(s1, h1, events[n]);
    }
  }

  /** In every run, the work items name the ring slots of the packets 0, 1, 2, ...
      in order, each exactly once and within the ring, and only complete packets. */
  lemma ItemsTileTheRing(s0: State, events: seq<Event>, s: State, h: History)
    requires IsInitial(s0) && Reached(s0, events, s, h)
    ensures Tiled(h.items) && Total(h.items, |h.items|) * PACKET_SIZE <= |h.stream|
  {
    RunInv(s0, events, s, h);
  }

  /** In every run and at every moment, the demultiplexer of tag t has been given
      the payloads of tag t among the packets sorted so far, in order, nothing
      else, except for fewer than AUX_COUNT that wait in its buffer; once the
      injector has done all items and the items cover all complete packets, it
      has been given them all. Batches hold 1 to AUX_COUNT packets. */
  lemma StreamDelivered(s0: State, events: seq<Event>, s: State, h: History, t: nat)
    requires IsInitial(s0) && Reached(s0, events, s, h)
    ensures h.out <= |h.items| && Sorted(s.inj, h.items, h.out) * PACKET_SIZE <= |h.stream|
    ensures Wanted(s.demux, t) ==>
      Received(s.log, t) + Collected(s.inj, t) == Select(h.stream, Sorted(s.inj, h.items, h.out), t)
    ensures !Wanted(s.demux, t) ==> Received(s.log, t) == []
    ensures |Collected(s.inj, t)| < AUX_COUNT
    ensures var complete := |h.stream| / PACKET_SIZE;
      s.inj.Idle? && h.out == |h.items| && Total(h.items, |h.items|) == complete && Wanted(s.demux, t) ==>
        Received(s.log, t) == Select(h.stream, complete, t)
    ensures forall i :: 0 <= i < |s.log| ==> 1 <= |s.log[i].packets| <= AUX_COUNT
  {
    RunInv(s0, events, s, h);
    hide RingOk, QueueOk, Tiled, PointersOk, Total, Select, Received;
  }

  // ------------------------------------------------------- packets by meaning

  /** A packet as the stream merger writes it: in the first byte two bits, the four
      bits of the tag, and two bits; five more header bytes; the payload. */
  datatype TsPacket = TsPacket(high: nat, tag: nat, low: nat, header: Bytes, payload: Payload)

  predicate IsPacket(p: TsPacket) {
    p.high < 4 && p.tag < 16 && p.low < 4 && |p.header| == 5 && |p.payload| == 188
  }

  predicate ArePackets(ps: seq<TsPacket>) {
    forall i :: 0 <= i < |ps| ==> IsPacket(ps[i])
  }

  function Written(p: TsPacket): Bytes {
    [Byte(64 * p.high + 4 * p.tag + p.low)] + p.header + p.payload
  }

  function Stream(ps: seq<TsPacket>): Bytes {
    if ps == [] then [] else Stream(ps[..|ps| - 1]) + Written(ps[|ps| - 1])
  }

  /** The payloads for tag t, in order. */
  function PayloadsFor(ps: seq<TsPacket>, t: nat): seq<Payload> {
    if ps == [] then []
    else PayloadsFor(ps[..|ps| - 1], t) + (if ps[|ps| - 1].tag == t then [ps[|ps| - 1].payload] else [])
  }

  lemma TagBits(high: nat, tag: nat, low: nat)
    requires high < 4 && tag < 16 && low < 4
    ensures 64 * high + 4 * tag + low < 256 && (64 * high + 4 * tag + low) / 4 % 16 == tag
  {
    assert (64 * high + 4 * tag + low) / 4 == 16 * high + tag;
  }

  lemma TagIs(b: bv8, v: nat)
    requires b as nat == v
    ensures TagOf(b) == v / 4 % 16
  {
  }

  lemma WrittenIs(p: TsPacket)
    requires IsPacket(p)
    ensures |Written(p)| == PACKET_SIZE && Tag(Written(p)) == p.tag && Written(p)[HEADER_SIZE..] == p.payload
  {
    hide TagOf, Byte;
    var v := 64 * p.high + 4 * p.tag + p.low;
    TagBits(p.high, p.tag, p.low);
    ByteIs(v);
    TagIs(Byte(v), v);
    hide IsPacket;
    assert |p.header| == 5 && |p.payload| == 188 ==> Written(p)[HEADER_SIZE..] == p.payload;
  }

  lemma {:induction false} StreamLength(ps: seq<TsPacket>)
    requires ArePackets(ps)
    ensures |Stream(ps)| == |ps| * PACKET_SIZE
  {
    hide Written;
    if ps != [] {
      StreamLength(ps[..|ps| - 1]);
      WrittenIs(ps[|ps| - 1]);
    }
  }

  // A stream that begins with these packets has their payloads by tag.
  lemma {:induction false} SelectIs(ps: seq<TsPacket>, stream: Bytes, t: nat)
    requires ArePackets(ps) && Stream(ps) <= stream
    ensures |ps| * PACKET_SIZE <= |stream| && Select(stream, |ps|, t) == PayloadsFor(ps, t)
  {
    StreamLength(ps);
    if ps != [] {
      var front, p := ps[..|ps| - 1], ps[|ps| - 1];
      hide Written, Tag, Stream;
      StreamStep(ps);
      StreamLength(front);
      SelectIs(front, stream, t);
      WrittenIs(p);
      SliceAt(Stream(front), Written(p), stream);
      assert Packet(stream, |ps| - 1) == Written(p);
    }
  }

  lemma StreamStep(ps: seq<TsPacket>)
    requires ps != []
    ensures Stream(ps) == Stream(ps[..|ps| - 1]) + Written(ps[|ps| - 1])
  {
  }

  lemma SliceAt(a: Bytes, b: Bytes, s: Bytes)
    requires a + b <= s
    ensures a <= s && s[|a|..|a| + |b|] == b
  {
    assert (a + b)[|a|..] == b && (a + b)[..|a|] == a;
  }

  /** Sorting one packet: its last 188 bytes go to the tag in bits 2 to 5 of its
      first byte if that has a demultiplexer, and to no other. */
  lemma SortRoutes(demux: seq<bool>, aux: seq<seq<Payload>>, log: seq<Batch>, packet: Bytes,
                   high: nat, tag: nat, low: nat, t: nat)
    requires |aux| == |demux| && |packet| == 194
    requires packet[0] as nat == 64 * high + 4 * tag + low && high < 4 && tag < 16 && low < 4
    ensures var (aux', log') := Sort(demux, aux, log, packet);
      && |aux'| == |aux|
      && Received(log', t) + (if t < |aux'| then aux'[t] else [])
         == Received(log, t) + (if t < |aux| then aux[t] else [])
            + (if t == tag && tag < |demux| && demux[tag] then [packet[194 - 188..]] else [])
  {
    TagBits(high, tag, low);
    TagIs(packet[0], 64 * high + 4 * tag + low);
    hide TagOf;
    assert Tag(packet) == tag;
    hide Tag, Sort, Received;
    SortDelivers(demux, aux, log, packet, t);
  }

  /** In every run on a stream that begins with the packets ps: once the injector
      has sorted exactly those, the demultiplexer of tag t has been given their
      payloads for t, in order, up to fewer than 20 that wait in its buffer; and it
      has been given all of them once it is idle. */
  lemma PacketsDelivered(s0: State, events: seq<Event>, s: State, h: History, ps: seq<TsPacket>, t: nat)
    requires IsInitial(s0) && Reached(s0, events, s, h) && ArePackets(ps) && Stream(ps) <= h.stream
    requires h.out <= |h.items| && Sorted(s.inj, h.items, h.out) == |ps| && t < |s.demux|
    ensures var waiting := if s.inj.Busy? && t < |s.inj.aux| then s.inj.aux[t] else [];
      && Received(s.log, t) + waiting == (if s.demux[t] then PayloadsFor(ps, t) else [])
      && |waiting| < 20
      && (s.inj.Idle? ==> waiting == [])
  {
    RunInv(s0, events, s, h);
    DemuxCount(s, h);
    hide Inv, Reached, Select, PayloadsFor, Stream, Received, Sorted, IsInitial, ArePackets, DeliveredOk, InjectorOk;
    StreamDelivered(s0, events, s, h, t);
    SelectIs(ps, h.stream, t);
  }

  lemma DemuxCount(s: State, h: History)
    requires Inv(s, h)
    ensures |s.demux| == TAG_COUNT
  {
  }

  lemma {:induction false} TotalSums(items: seq<Item>, more: seq<Item>)
    requires |more| <= 2
    ensures Total(items + more, |items + more|) == Total(items, |items|)
      + (if |more| > 0 then more[0].count else 0) + (if |more| > 1 then more[1].count else 0)
  {
    TotalAppend(items, more, |items|);
  }

  /** What a poll tells the firmware is the number of packets it queues; until
      that is acknowledged no further poll queues anything. */
  lemma AnnouncedIsQueued(s: State, h: History, register: nat)
    requires Shaped(s) && s.base <= register <= s.base + BUFFER_SIZE
    ensures var more := Polled(s, register);
      && (s.pread != 0 ==> more == [] && Tick(s, register).pread == s.pread)
      && (more == [] ==> Tick(s, register).pread == s.pread)
      && (more != [] ==>
            && Tick(s, register).pread > 0
            && Tick(s, register).pread == Total(h.items + more, |h.items + more|) - Total(h.items, |h.items|))
  {
    hide Aligned, Rewound, Total;
    var wp, rp := Aligned(s.base, register), Rewound(s.base, s.rp);
    TotalSums(h.items, Polled(s, register));
  }

  /** In no run does the injector throw a work item away: whenever it gets past
      the semaphore there is an item, namely the next one in order. */
  lemma NoItemDiscarded(s0: State, events: seq<Event>, s: State, h: History)
    requires IsInitial(s0) && Reached(s0, events, s, h) && s.inj.Idle? && s.sem > 0
    ensures s.writeIndex != s.readIndex && h.out < |h.items| && s.queue[s.readIndex] == h.items[h.out]
  {
    hide RingOk, Tiled, PointersOk, DeliveredOk, Reached, Total, SlotOffset;
    RunInv(s0, events, s, h);
    HeadOfQueue(s.queue, s.readIndex, s.writeIndex, h.items, h.out);
  }

  // --------------------------------------------------- where the limits are

  /** A poll that may announce packets queues all complete ones, unless the ring
      is completely full and its start is read, which looks like an empty ring. */
  lemma PollQueuesAll(s: State, h: History, top: bool)
    requires Inv(s, h) && s.pread == 0 && CountsRight(s, h, top)
    ensures var waiting := |h.stream| / PACKET_SIZE - Total(h.items, |h.items|);
      var more := Polled(s, Register(s.base, |h.stream|, top));
      && 0 <= waiting <= RING_PACKETS
      && (more != [] <==> 0 < waiting && (waiting < RING_PACKETS || (top && RingIndex(|h.stream|) == 0)))
      && (more != [] ==> Total(h.items + more, |h.items + more|) == |h.stream| / PACKET_SIZE)
  {
    hide SlotOffset, RingIndex, Rewound, Aligned, Pending, Total, Tiled, NewItems, RingOk, QueueOk, DeliveredOk,
         Register;
    var queued := Total(h.items, |h.items|);
    var register := Register(s.base, |h.stream|, top);
    EndTestRewinds(s.base, s.rp, queued);
    AlignedRegister(s.base, |h.stream|, top);
    OutstandingFit(|h.stream|, h.items, h.out);
    PendingIs(s.base, queued, |h.stream|);
    PendingBelow(s.base, queued, |h.stream|);
    if top && RingIndex(|h.stream|) == 0 { TopReading(s.base, queued, |h.stream|); }
    TickPointers(s, h, top);
    NewItemsNonempty(s.base, Rewound(s.base, s.rp), Aligned(s.base, register));
  }

  /** Where the end of the ring is read, a poll keeps the invariant exactly if it
      counts right; if not, it queues a whole ring although nothing waits. */
  lemma TopReadingKeepsIff(s: State, h: History)
    requires Inv(s, h) && RingIndex(|h.stream|) == 0 && |h.items| + 1 < h.out + QUEUE_SIZE
    ensures var register := s.base + BUFFER_SIZE;
      && (CountsRight(s, h, true) <==> Inv(Tick(s, register), h.(items := h.items + Polled(s, register))))
      && (!CountsRight(s, h, true) ==>
            && Total(h.items, |h.items|) * PACKET_SIZE == |h.stream|
            && Polled(s, register) == [Item(0, RING_PACKETS)])
  {
    hide RingOk, QueueOk, Tiled, InjectorOk, DeliveredOk, Total, SlotOffset, RingIndex, Aligned, Rewound, Pending, Tick;
    var register := Register(s.base, |h.stream|, true);
    var queued := Total(h.items, |h.items|);
    EndTestRewinds(s.base, s.rp, queued);
    AlignedRegister(s.base, |h.stream|, true);
    OutstandingFit(|h.stream|, h.items, h.out);
    TopReading(s.base, queued, |h.stream|);
    assert |Polled(s, register)| <= 1;
    if CountsRight(s, h, true) {
      TickInv(s, h, true);
    } else {
      TotalOneMore(h.items, Item(0, RING_PACKETS));
    }
  }

  lemma TotalOneMore(items: seq<Item>, item: Item)
    ensures Total(items + [item], |items| + 1) == Total(items, |items|) + item.count
  {
    TotalAppend(items, [item], |items|);
  }

  lemma ReachedNext(s0: State, events: seq<Event>, s: State, h: History, e: Event)
    requires Reached(s0, events, s, h) && Enabled(s, h, e)
    ensures Reached(s0, events + [e], Next(s, h, e).0, Next(s, h, e).1)
  {
    hide Enabled, Next;
    assert (events + [e])[..|events|] == events;
  }

  // The controller alone produces n bytes.
  lemma {:induction false} Produce(s0: State, n: nat) returns (events: seq<Event>, s: State, h: History)
    requires IsInitial(s0) && n <= BUFFER_SIZE
    ensures Reached(s0, events, s, h) && Shaped(s)
    ensures |h.stream| == n && h.items == [] && h.out == 0 && s.pread == 0 && s.base == s.rp == s0.base
  {
    if n == 0 {
      events, s, h := [], s0, History([], [], 0);
    } else {
      events, s, h := Produce(s0, n - 1);
      assert Enabled(s, h, Produced(0));
      ReachedNext(s0, events, s, h, Produced(0));
      hide Reached;
      events, s, h := events + [Produced(0)], Next(s, h, Produced(0)).0, Next(s, h, Produced(0)).1;
    }
  }

  /** The condition is needed: after a full turn of the ring has been queued and
      acknowledged, one more reading of the end queues it all again. */
  lemma StaleTopReading(s0: State) returns (events: seq<Event>, s: State, h: History)
    requires IsInitial(s0)
    ensures Reached(s0, events, s, h) && Inv(s, h) && !CountsRight(s, h, true)
    ensures h.items == [Item(0, RING_PACKETS)] && |h.stream| == BUFFER_SIZE && s.rp == s.base + BUFFER_SIZE
    ensures Polled(s, s.base + BUFFER_SIZE) == [Item(0, RING_PACKETS)]
  {
    events, s, h := Produce(s0, BUFFER_SIZE);
    hide Reached;
    FullTurn(s, h);
    ReachedNext(s0, events, s, h, Poll(true));
    events, s, h := events + [Poll(true)], Next(s, h, Poll(true)).0, Next(s, h, Poll(true)).1;
    ReachedNext(s0, events, s, h, Acknowledge);
    events, s, h := events + [Acknowledge], Next(s, h, Acknowledge).0, Next(s, h, Acknowledge).1;
    RunInv(s0, events, s, h);
    TopReadingKeepsIff(s, h);
  }

  // The poll after the first full turn.
  lemma FullTurn(s: State, h: History)
    requires Shaped(s) && s.rp == s.base && s.pread == 0 && |h.stream| == BUFFER_SIZE && h.items == [] && h.out == 0
    ensures Enabled(s, h, Poll(true))
    ensures var (s', h') := Next(s, h, Poll(true));
      && h' == h.(items := [Item(0, RING_PACKETS)]) && s'.base == s.base && s'.rp == s.base + BUFFER_SIZE
      && Shaped(s')
  {
    assert Register(s.base, BUFFER_SIZE, true) == s.base + BUFFER_SIZE;
    assert Aligned(s.base, s.base + BUFFER_SIZE) == s.base + BUFFER_SIZE;
    assert Rewound(s.base, s.base) == s.base;
    assert Pending(s.base, s.base, s.base + BUFFER_SIZE) == RING_PACKETS;
    assert [] + [Item(0, RING_PACKETS)] == [Item(0, RING_PACKETS)];
    hide Register, Aligned, Rewound, Pending, RingIndex, SlotOffset;
  }

  lemma NewItemsNonempty(base: nat, rp: nat, wp: nat)
    requires base <= rp <= base + BUFFER_SIZE && base <= wp
    ensures NewItems(base, rp, wp) != []
  {
  }

  lemma PendingBelow(base: nat, queued: nat, len: nat)
    requires queued * PACKET_SIZE <= len <= queued * PACKET_SIZE + BUFFER_SIZE
    ensures 0 <= len / PACKET_SIZE - queued <= RING_PACKETS
    ensures Pending(base, base + SlotOffset(queued), base + SlotOffset(len / PACKET_SIZE)) < RING_PACKETS
  {
  }

  /** With at most QUEUE_SIZE items outstanding, the injector throws one away
      instead of processing it exactly when there are QUEUE_SIZE of them. */
  lemma FullQueueDiscards(s: State, items: nat, out: nat)
    requires Shaped(s) && s.inj.Idle? && s.sem > 0
    requires out < items <= out + 400
    requires s.readIndex == QueueIndex(out) && s.writeIndex == QueueIndex(items)
    ensures Take(s) == s.(sem := s.sem - 1) <==> items == out + 400
  {
    if items < out + QUEUE_SIZE { QueueDistinct(out, items); }
  }

  // ------------------------------------------------------------- the driver

  // One item from its first unsorted packet to the end.
  ghost function InjectAll(s: State): (r: State)
    ensures r.inj.Busy? && r.inj.n == s.inj.count && |r.inj.aux| == |r.demux|
    ensures r == s.(inj := r.inj, log := r.log)
    requires s.inj.Busy? && s.inj.n <= s.inj.count && |s.inj.aux| == |s.demux|
    requires s.inj.offset + s.inj.count * PACKET_SIZE <= |s.ring|
    decreases s.inj.count - s.inj.n
  {
    if s.inj.n == s.inj.count then s else InjectAll(Inject(s))
  }

  lemma InjectAllDone(s: State)
    requires s.inj.Busy? && s.inj.n == s.inj.count && |s.inj.aux| == |s.demux|
    requires s.inj.offset + s.inj.count * PACKET_SIZE <= |s.ring|
    ensures InjectAll(s) == s
  {
  }

  lemma InjectAllStep(s: State)
    requires CanInject(s) && s.inj.offset + s.inj.count * PACKET_SIZE <= |s.ring|
    ensures |Inject(s).inj.aux| == |s.demux| && InjectAll(s) == InjectAll(Inject(s))
  {
    hide Tag;
  }

  // One round of the injector's loop, uninterrupted.
  ghost function InjectItem(s: State): State
    requires Shaped(s) && s.sem > 0
    requires s.writeIndex != s.readIndex ==>
      s.queue[s.readIndex].offset + s.queue[s.readIndex].count * PACKET_SIZE <= BUFFER_SIZE
  {
    if s.writeIndex == s.readIndex then Take(s) else Flush(InjectAll(Take(s)))
  }

  // The packets in the auxiliary buffer: tag t owns AUX_COUNT slots.
  function AuxView(slots: seq<Payload>, count1: seq<nat>): seq<seq<Payload>>
    requires |slots| == TAG_COUNT * AUX_COUNT && |count1| == TAG_COUNT
    requires forall t :: 0 <= t < TAG_COUNT ==> count1[t] <= AUX_COUNT
  {
    [slots[..count1[0]], slots[AUX_COUNT..AUX_COUNT + count1[1]],
     slots[2 * AUX_COUNT..2 * AUX_COUNT + count1[2]], slots[3 * AUX_COUNT..3 * AUX_COUNT + count1[3]]]
  }

  lemma AuxStore(slots: seq<Payload>, count1: seq<nat>, t: nat, p: Payload)
    requires |slots| == TAG_COUNT * AUX_COUNT && |count1| == TAG_COUNT && t < TAG_COUNT
    requires forall t :: 0 <= t < TAG_COUNT ==> count1[t] < AUX_COUNT
    ensures var view := AuxView(slots, count1);
      AuxView(slots[t * AUX_COUNT + count1[t] := p], count1[t := count1[t] + 1]) == view[t := view[t] + [p]]
  {
    var slots', count' := slots[t * AUX_COUNT + count1[t] := p], count1[t := count1[t] + 1];
    forall i | 0 <= i < TAG_COUNT
      ensures slots'[i * AUX_COUNT..i * AUX_COUNT + count'[i]]
        == slots[i * AUX_COUNT..i * AUX_COUNT + count1[i]] + if i == t then [p] else []
    {
    }
  }

  lemma AuxOf(slots: seq<Payload>, count1: seq<nat>, t: nat)
    requires |slots| == TAG_COUNT * AUX_COUNT && |count1| == TAG_COUNT && t < TAG_COUNT
    requires forall t :: 0 <= t < TAG_COUNT ==> count1[t] <= AUX_COUNT
    ensures |AuxView(slots, count1)| == TAG_COUNT
    ensures AuxView(slots, count1)[t] == slots[t * AUX_COUNT..t * AUX_COUNT + count1[t]]
  {
  }

  lemma AuxEmpty(slots: seq<Payload>, count1: seq<nat>)
    requires |slots| == TAG_COUNT * AUX_COUNT && count1 == [0, 0, 0, 0]
    ensures AuxView(slots, count1) == NO_PACKETS
  {
    forall t | 0 <= t < TAG_COUNT ensures AuxView(slots, count1)[t] == NO_PACKETS[t] {
      AuxOf(slots, count1, t);
    }
  }

  lemma AuxClear(slots: seq<Payload>, count1: seq<nat>, t: nat)
    requires |slots| == TAG_COUNT * AUX_COUNT && |count1| == TAG_COUNT && t < TAG_COUNT
    requires forall t :: 0 <= t < TAG_COUNT ==> count1[t] <= AUX_COUNT
    ensures AuxView(slots, count1[t := 0]) == AuxView(slots, count1)[t := []]
  {
    assert slots[t * AUX_COUNT..t * AUX_COUNT + 0] == [];
  }

  class PtiDriver {
    const base: nat
    const backBuffer: array<bv8>
    const workQueue: array<Item>
    const auxbuf: array<Payload>
    var rp: nat
    var pread: nat
    var readIndex: nat
    var writeIndex: nat
    var workSem: nat
    var demux: seq<bool>
    var log: seq<Batch>

    ghost predicate Valid()
      reads this, backBuffer, workQueue, auxbuf
    {
      Shaped(Model()) && auxbuf.Length == TAG_COUNT * AUX_COUNT
    }

    // The driver's state between two calls.
    ghost function Model(): State
      reads this, backBuffer, workQueue
    {
      State(base, backBuffer[..], rp, pread, workQueue[..], readIndex, writeIndex, workSem, demux, Idle, log)
    }

    constructor (base: nat, demux: seq<bool>)
      requires |demux| == TAG_COUNT
      ensures Valid() && IsInitial(Model()) && this.base == base && this.demux == demux
    {
      this.base := base;
      backBuffer := new bv8[BUFFER_SIZE];
      workQueue := new Item[QUEUE_SIZE](_ => Item(0, 0));
      auxbuf := new Payload[TAG_COUNT * AUX_COUNT](_ => []);
      rp := base;
      pread, readIndex, writeIndex, workSem := 0, 0, 0, 0;
      this.demux := demux;
      log := [];
    }

    // Fill the next entry of the work queue and wake the injector.
    method Enqueue(offset: nat, count: nat)
      requires Valid()
      modifies this`writeIndex, this`workSem, workQueue
      ensures Valid() && Model() == Push(old(Model()), offset, count)
    {
      workQueue[writeIndex] := Item(offset, count);
      writeIndex := (writeIndex + 1) % QUEUE_SIZE;
      workSem := workSem + 1;
    }

    // process_pti_dma, when the controller has not discarded packets.
    method ProcessPtiDma(register: nat)
      requires Valid() && base <= register <= base + BUFFER_SIZE
      modifies this`rp, this`pread, this`writeIndex, this`workSem, workQueue
      ensures Valid() && Model() == Tick(old(Model()), register)
    {
      var wp := register - (register - base) % PACKET_SIZE;
      var top := base + BUFFER_SIZE;
      var bufferRound := false;
      var numPackets: nat;
      if rp / 16 == top / 16 {
        rp := base;
      }
      if rp <= wp {
        numPackets := (wp - rp) / PACKET_SIZE;
      } else {
        numPackets := ((top - rp) + (wp - base)) / PACKET_SIZE;
        bufferRound := true;
      }
      if numPackets != 0 && pread == 0 {
        Announce(wp, numPackets, bufferRound);
      }
    }

    // The part of process_pti_dma that tells the firmware and the injector.
    method Announce(wp: nat, numPackets: nat, bufferRound: bool)
      requires Valid() && base <= wp <= base + BUFFER_SIZE && bufferRound == (rp > wp)
      requires numPackets == Pending(base, rp, wp)
      modifies this`rp, this`pread, this`writeIndex, this`workSem, workQueue
      ensures Valid() && Model() == Announced(old(Model()), wp)
    {
      assert bufferRound ==> numPackets >= (base + BUFFER_SIZE - rp) / PACKET_SIZE;
      hide Pending, IsInitial;
      pread := numPackets;
      if bufferRound {
        var numPackets1: nat := (base + BUFFER_SIZE - rp) / PACKET_SIZE;
        Enqueue(rp - base, numPackets1);
        Enqueue(0, numPackets - numPackets1);
      } else {
        Enqueue(rp - base, numPackets);
      }
      rp := wp;
    }

    ghost predicate Counts(count1: array<nat>)
      reads this, count1, auxbuf
    {
      && auxbuf.Length == TAG_COUNT * AUX_COUNT && count1.Length == TAG_COUNT && |demux| == TAG_COUNT
      && forall t :: 0 <= t < TAG_COUNT ==> count1[t] < AUX_COUNT
    }

    // Put the packet at `from` into the auxiliary buffer of its tag, and hand
    // the buffer over when it is full.
    method SortPacket(from: nat, count1: array<nat>)
      requires Counts(count1) && from + PACKET_SIZE <= backBuffer.Length
      modifies this`log, auxbuf, count1
      ensures Counts(count1)
      ensures (AuxView(auxbuf[..], count1[..]), log)
        == Sort(demux, old(AuxView(auxbuf[..], count1[..])), old(log), backBuffer[from..from + PACKET_SIZE])
    {
      hide AuxView, TagOf;
      var tag := TagOf(backBuffer[from]);
      ghost var packet := backBuffer[from..from + PACKET_SIZE];
      ghost var view := AuxView(auxbuf[..], count1[..]);
      AuxOf(auxbuf[..], count1[..], 0);
      assert tag == Tag(packet);
      if tag < TAG_COUNT && demux[tag] {
        var payload := backBuffer[from + HEADER_SIZE..from + PACKET_SIZE];
        assert payload == packet[HEADER_SIZE..];
        AuxStore(auxbuf[..], count1[..], tag, payload);
        auxbuf[tag * AUX_COUNT + count1[tag]] := payload;
        count1[tag] := count1[tag] + 1;
        assert auxbuf[..] == old(auxbuf[..])[tag * AUX_COUNT + old(count1[tag]) := payload];
        assert count1[..] == old(count1[..])[tag := old(count1[tag]) + 1];
        ghost var batch := view[tag] + [payload];
        assert AuxView(auxbuf[..], count1[..]) == view[tag := batch];
        AuxOf(auxbuf[..], count1[..], tag);
        assert |batch| == count1[tag];
        if count1[tag] >= AUX_COUNT {
          AuxClear(auxbuf[..], count1[..], tag);
          log := log + [Batch(tag, auxbuf[tag * AUX_COUNT..tag * AUX_COUNT + count1[tag]])];
          ghost var counts := count1[..];
          count1[tag] := 0;
          assert count1[..] == counts[tag := 0];
          assert view[tag := batch][tag := []] == view[tag := []];
        }
      }
    }

    // Hand over what is left in the auxiliary buffers.
    method InjectRemainders(count1: array<nat>)
      requires Counts(count1)
      modifies this`log
      ensures log == old(log) + Rest(demux, AuxView(auxbuf[..], count1[..]), 0)
    {
      hide AuxView;
      ghost var aux := AuxView(auxbuf[..], count1[..]);
      assert |aux| == TAG_COUNT by { AuxOf(auxbuf[..], count1[..], 0); }
      var n := 0;
      while n < TAG_COUNT
        invariant n <= TAG_COUNT
        invariant log + Rest(demux, aux, n) == old(log) + Rest(demux, aux, 0)
      {
        AuxOf(auxbuf[..], count1[..], n);
        ghost var before := log;
        if count1[n] > 0 && demux[n] {
          log := log + [Batch(n, auxbuf[n * AUX_COUNT..n * AUX_COUNT + count1[n]])];
        }
        assert before + Rest(demux, aux, n) == log + Rest(demux, aux, n + 1);
        n := n + 1;
      }
    }

    // One round of stream_injector's loop, from a successful down() on.
    method StreamInjector()
      requires Valid() && workSem > 0
      requires writeIndex != readIndex ==>
        workQueue[readIndex].offset + workQueue[readIndex].count * PACKET_SIZE <= BUFFER_SIZE
      modifies this`readIndex, this`workSem, this`log, auxbuf
      ensures Valid() && Model() == InjectItem(old(Model()))
    {
      hide AuxView, Sort, Rest, Tag, InjectAll;
      workSem := workSem - 1;
      if writeIndex == readIndex {
        return;
      }
      var offset := workQueue[readIndex].offset;
      var count := workQueue[readIndex].count;
      var count1 := new nat[TAG_COUNT](_ => 0);
      AuxEmpty(auxbuf[..], count1[..]);
      ghost var first := Model().(inj := Busy(offset, count, 0, NO_PACKETS));
      var n := 0;
      while n < count
        invariant Valid() && n <= count && Counts(count1)
        invariant Model().(log := first.log, inj := first.inj) == first
        invariant |AuxView(auxbuf[..], count1[..])| == TAG_COUNT
        invariant InjectAll(Model().(inj := Busy(offset, count, n, AuxView(auxbuf[..], count1[..]))))
          == InjectAll(first)
      {
        ghost var s := Model().(inj := Busy(offset, count, n, AuxView(auxbuf[..], count1[..])));
        InjectAllStep(s);
        SortPacket(offset + n * PACKET_SIZE, count1);
        n := n + 1;
        AuxOf(auxbuf[..], count1[..], 0);
        assert Model().(inj := Busy(offset, count, n, AuxView(auxbuf[..], count1[..]))) == Inject(s);
      }
      assert InjectAll(Model().(inj := Busy(offset, count, n, AuxView(auxbuf[..], count1[..]))))
        == Model().(inj := Busy(offset, count, n, AuxView(auxbuf[..], count1[..]))) by {
        InjectAllDone(Model().(inj := Busy(offset, count, n, AuxView(auxbuf[..], count1[..]))));
      }
      InjectRemainders(count1);
      readIndex := (readIndex + 1) % QUEUE_SIZE;
    }
  }
}
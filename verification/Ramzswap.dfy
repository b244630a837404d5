/** The compressed page store of compcache/ramzswap.c. LZO is a pair of functions
    of which only the round trip is known; failing compressions and allocations
    are inputs. Allocations have names that are never used again, so that a
    second kfree of the same one would show. */
module Ramzswap {
  import opened Octets
  import opened Wrappers

  const PAGE_SIZE: nat := 4096
  const SECTOR_SIZE: nat := 512
  const SECTORS_PER_PAGE: nat := 8

  datatype Lzo = Lzo(compress: Bytes -> Bytes, decompress: Bytes -> Option<Bytes>)

  // The one axiom about LZO.
  ghost predicate RoundTrips(lzo: Lzo) {
    forall p: Bytes :: |p| == PAGE_SIZE ==> lzo.decompress(lzo.compress(p)) == Some(p)
  }

  // ------------------------------------------------------------------ flags

  datatype Flag = UNCOMPRESSED | INUSE

  function Mask(f: Flag): bv8 {
    if f.UNCOMPRESSED? then 1 else 2
  }

  predicate TestFlag(flags: bv8, f: Flag) {
    flags & Mask(f) != 0
  }

  function SetFlag(flags: bv8, f: Flag): bv8 {
    flags | Mask(f)
  }

  function ClearFlag(flags: bv8, f: Flag): bv8 {
    flags & !Mask(f)
  }

  lemma FlagsIndependent(flags: bv8, f: Flag, g: Flag)
    ensures TestFlag(SetFlag(flags, f), g) <==> f == g || TestFlag(flags, g)
    ensures TestFlag(ClearFlag(flags, f), g) <==> f != g && TestFlag(flags, g)
  {
  }

  // --------------------------------------------------------------- requests

  datatype Bio = Bio(sector: nat, vcnt: nat, size: nat, offset: nat)

  // valid_swap_request.
  predicate ValidRequest(bio: Bio, disksize: nat) {
    !(bio.sector >= disksize / SECTOR_SIZE || bio.sector % SECTORS_PER_PAGE != 0 || bio.vcnt != 1
      || bio.size != PAGE_SIZE || bio.offset != 0)
  }

  function IndexOf(bio: Bio): nat {
    bio.sector / SECTORS_PER_PAGE
  }

  /** A request is accepted exactly when it is for one whole page whose first
      sector is that of a page inside the table. */
  lemma ValidIffPage(bio: Bio, disksize: nat)
    requires disksize % 4096 == 0
    ensures ValidRequest(bio, disksize) <==>
      (bio.sector == 8 * IndexOf(bio) && IndexOf(bio) < disksize / 4096
       && bio.vcnt == 1 && bio.size == 4096 && bio.offset == 0)
  {
    var n := disksize / PAGE_SIZE;
    assert disksize == n * PAGE_SIZE && disksize / SECTOR_SIZE == n * SECTORS_PER_PAGE;
  }

  // ------------------------------------------------------------- the history

  function Zeros(): (r: Bytes)
    ensures |r| == PAGE_SIZE
  {
    seq(PAGE_SIZE, _ => 0)
  }

  // A write to a page, and whether it succeeded.
  datatype Event = Event(index: nat, page: Bytes, ok: bool)

  // What a page should hold: the page of the last write to it, zeros if that
  // failed, or what it held at first.
  function LastWritten(first: Bytes, history: seq<Event>, index: nat): Bytes {
    if history == [] then first
    else
      var e := history[|history| - 1];
      if e.index != index then LastWritten(first, history[..|history| - 1], index)
      else if e.ok then e.page else Zeros()
  }

  lemma LastWrittenStep(first: Bytes, history: seq<Event>, e: Event, index: nat)
    ensures LastWritten(first, history + [e], index)
      == if e.index != index then LastWritten(first, history, index) else if e.ok then e.page else Zeros()
  {
    assert (history + [e])[..|history|] == history;
  }

  // The first page is a swap header, the others are empty.
  function First(header: Bytes, index: nat): Bytes {
    if index == 0 then header else Zeros()
  }

  // --------------------------------------------------------------- the table

  datatype Entry = Entry(pagepos: nat, flags: bv8, size: nat)

  predicate InUse(e: Entry) {
    TestFlag(e.flags, INUSE)
  }

  // What an entry stands for.
  function PageOf(lzo: Lzo, e: Entry, heap: map<nat, Bytes>): Bytes {
    if !InUse(e) || e.pagepos !in heap then Zeros()
    else if TestFlag(e.flags, UNCOMPRESSED) then heap[e.pagepos]
    else
      var page := lzo.decompress(heap[e.pagepos]);
      if page.Some? then page.value else Zeros()
  }

  // The stored bytes of an entry in use make a page.
  predicate EntryOk(lzo: Lzo, e: Entry, heap: map<nat, Bytes>) {
    InUse(e) ==>
      && e.pagepos in heap
      && (TestFlag(e.flags, UNCOMPRESSED) ==> |heap[e.pagepos]| == PAGE_SIZE)
      && (!TestFlag(e.flags, UNCOMPRESSED) ==>
            e.size == |heap[e.pagepos]| && lzo.decompress(heap[e.pagepos]).Some?
            && |lzo.decompress(heap[e.pagepos]).value| == PAGE_SIZE)
  }

  // No two entries share an allocation.
  predicate Separate(table: seq<Entry>) {
    forall i, j :: 0 <= i < j < |table| && InUse(table[i]) && InUse(table[j]) ==> table[i].pagepos != table[j].pagepos
  }

  ghost predicate Holds(table: seq<Entry>, h: nat) {
    exists i :: 0 <= i < |table| && InUse(table[i]) && table[i].pagepos == h
  }

  // The live allocations are those of the entries in use.
  ghost predicate NoLeak(table: seq<Entry>, heap: map<nat, Bytes>) {
    forall h :: h in heap ==> Holds(table, h)
  }

  // Every entry holds a page, and every allocation has its entry.
  ghost predicate Fits(lzo: Lzo, table: seq<Entry>, heap: map<nat, Bytes>) {
    && (forall i :: 0 <= i < |table| ==> EntryOk(lzo, table[i], heap))
    && Separate(table) && NoLeak(table, heap)
  }

  // The pages of all entries but one are the same.
  ghost predicate OthersKept(lzo: Lzo, t: seq<Entry>, heap: map<nat, Bytes>, t': seq<Entry>, heap': map<nat, Bytes>,
                             i: nat) {
    |t'| == |t| && forall j :: 0 <= j < |t| && j != i ==> PageOf(lzo, t'[j], heap') == PageOf(lzo, t[j], heap)
  }

  // An entry's allocation goes, and the entry is not in use any more.
  lemma Released(lzo: Lzo, t: seq<Entry>, heap: map<nat, Bytes>, i: nat, e: Entry)
    requires Fits(lzo, t, heap) && i < |t| && InUse(t[i]) && !InUse(e)
    ensures t[i].pagepos in heap
    ensures var t', heap' := t[i := e], heap - {t[i].pagepos};
      Fits(lzo, t', heap') && OthersKept(lzo, t, heap, t', heap', i)
  {
    hide InUse, TestFlag;
    var t', heap' := t[i := e], heap - {t[i].pagepos};
    forall h | h in heap'
      ensures Holds(t', h)
    {
      assert Holds(t, h);
      var j :| 0 <= j < |t| && InUse(t[j]) && t[j].pagepos == h;
      assert t'[j] == t[j];
    }
  }

  // An entry that is not in use changes without becoming so.
  lemma StaysUnused(lzo: Lzo, t: seq<Entry>, heap: map<nat, Bytes>, i: nat, e: Entry)
    requires Fits(lzo, t, heap) && i < |t| && !InUse(t[i]) && !InUse(e)
    ensures Fits(lzo, t[i := e], heap) && OthersKept(lzo, t, heap, t[i := e], heap, i)
  {
    hide InUse, TestFlag;
    forall h | h in heap
      ensures Holds(t[i := e], h)
    {
      assert Holds(t, h);
      var j :| 0 <= j < |t| && InUse(t[j]) && t[j].pagepos == h;
      assert t[i := e][j] == t[j];
    }
  }

  // An entry gets a new allocation.
  lemma Filled(lzo: Lzo, t: seq<Entry>, heap: map<nat, Bytes>, i: nat, e: Entry, data: Bytes)
    requires Fits(lzo, t, heap) && i < |t| && !InUse(t[i]) && InUse(e) && e.pagepos !in heap
    requires EntryOk(lzo, e, heap[e.pagepos := data])
    ensures var t', heap' := t[i := e], heap[e.pagepos := data];
      Fits(lzo, t', heap') && OthersKept(lzo, t, heap, t', heap', i)
  {
    hide InUse, TestFlag;
    var t', heap' := t[i := e], heap[e.pagepos := data];
    forall h | h in heap'
      ensures Holds(t', h)
    {
      if h == e.pagepos {
        assert t'[i] == e;
      } else {
        assert Holds(t, h);
        var j :| 0 <= j < |t| && InUse(t[j]) && t[j].pagepos == h;
        assert t'[j] == t[j];
      }
    }
  }

  // Allocations are named 1, 2, 3 and so on (0 is NULL); each is live or was freed, once.
  ghost predicate FreedOnce(heap: map<nat, Bytes>, freed: seq<nat>, next: nat) {
    && 0 < next
    && (forall h :: h in heap ==> 0 < h < next && h !in freed)
    && (forall h :: h in freed ==> 0 < h < next)
    && (forall h: nat :: 0 < h < next ==> h in heap || h in freed)
    && (forall i, j :: 0 <= i < j < |freed| ==> freed[i] != freed[j])
  }

  datatype Status = DONE | IO_ERROR

  class Store {
    const lzo: Lzo
    const disksize: nat
    const table: array<Entry>
    var heap: map<nat, Bytes>
    var next: nat
    ghost var freed: seq<nat>
    ghost const header: Bytes
    ghost var history: seq<Event>

    ghost predicate Shape()
    {
      && disksize % PAGE_SIZE == 0 && disksize > 0 && table.Length == disksize / PAGE_SIZE
      && RoundTrips(lzo) && |header| == PAGE_SIZE
    }

    // Table and heap fit together.
    ghost predicate Sound()
      reads this, table
    {
      Shape() && Fits(lzo, table[..], heap) && FreedOnce(heap, freed, next)
    }

    // Every page is what was last written to it.
    ghost predicate Faithful()
      reads this, table
    {
      forall i :: 0 <= i < table.Length ==> PageOf(lzo, table[i], heap) == LastWritten(First(header, i), history, i)
    }

    ghost predicate Valid()
      reads this, table
    {
      Sound() && Faithful()
    }

    // The table as ramzswap_init leaves it, with the swap header in page 0.
    constructor (lzo: Lzo, disksize: nat, header: Bytes)
      requires disksize % PAGE_SIZE == 0 && disksize > 0 && RoundTrips(lzo) && |header| == PAGE_SIZE
      ensures Valid() && history == [] && this.header == header && this.disksize == disksize && fresh(table)
    {
      hide RoundTrips;
      this.lzo, this.disksize, this.header := lzo, disksize, header;
      table := new Entry[disksize / PAGE_SIZE](i => Entry(0, 0, 0));
      heap, next, freed, history := map[], 1, [], [];
      new;
      var page := Kmalloc(PAGE_SIZE);
      heap := heap[page := header];
      table[0] := table[0].(pagepos := page, flags := SetFlag(SetFlag(table[0].flags, UNCOMPRESSED), INUSE));
      hide TestFlag, SetFlag, PageOf, EntryOk, Separate, NoLeak, FreedOnce;
      InitialTable(lzo, table[..], page, header);
      SameNames(map[], page, seq<bv8>(PAGE_SIZE, _ => 0), header, freed, next);
      assert heap == map[page := header];
      forall i | 0 <= i < table.Length
        ensures PageOf(lzo, table[i], heap) == LastWritten(First(header, i), history, i)
      {
        assert table[..][i] == table[i];
      }
    }

    // A successful kmalloc: a new allocation of n bytes.
    method Kmalloc(n: nat) returns (h: nat)
      requires FreedOnce(heap, freed, next)
      modifies this`heap, this`next
      ensures h == old(next) && h !in old(heap) && next == h + 1
      ensures heap == old(heap)[h := seq<bv8>(n, _ => 0)] && FreedOnce(heap, freed, next)
    {
      h := next;
      heap := heap[h := seq<bv8>(n, _ => 0)];
      next := next + 1;
    }

    // kfree: only of a live allocation.
    method Kfree(h: nat)
      requires FreedOnce(heap, freed, next) && h in heap
      modifies this`heap, this`freed
      ensures heap == old(heap) - {h} && freed == old(freed) + [h] && FreedOnce(heap, freed, next)
    {
      heap := heap - {h};
      freed := freed + [h];
    }

    // Read the page of an entry in use into a buffer.
    method Fetch(e: Entry, page: array<bv8>) returns (status: Status)
      requires InUse(e) && e.pagepos in heap && page.Length == PAGE_SIZE
      requires TestFlag(e.flags, UNCOMPRESSED) ==> |heap[e.pagepos]| == PAGE_SIZE
      requires !TestFlag(e.flags, UNCOMPRESSED) ==> e.size == |heap[e.pagepos]|
      modifies page
      ensures var intact := TestFlag(e.flags, UNCOMPRESSED) || Fills(lzo.decompress(heap[e.pagepos]));
        status == if intact then DONE else IO_ERROR
      ensures status == DONE ==> page[..] == PageOf(lzo, e, heap)
    {
      hide TestFlag;
      if TestFlag(e.flags, UNCOMPRESSED) {
        CopyPage(heap[e.pagepos], page);
      } else {
        assert heap[e.pagepos][..e.size] == heap[e.pagepos];
        var out := lzo.decompress(heap[e.pagepos][..e.size]);
        if !Fills(out) {
          return IO_ERROR;
        }
        CopyPage(out.value, page);
      }
      return DONE;
    }

    method CopyPage(from: Bytes, page: array<bv8>)
      requires |from| == page.Length
      modifies page
      ensures page[..] == from
    {
      forall k | 0 <= k < page.Length { page[k] := from[k]; }
    }

    /** A read gives what was last written to the page. */
    method Read(bio: Bio, page: array<bv8>) returns (status: Status)
      requires Valid() && ValidRequest(bio, disksize) && page.Length == PAGE_SIZE && (page as object) != table
      modifies page
      ensures Valid() && status == DONE
      ensures page[..] == LastWritten(First(header, IndexOf(bio)), history, IndexOf(bio))
    {
      hide RoundTrips, TestFlag, NoLeak, FreedOnce, Separate;
      ValidIffPage(bio, disksize);
      var index := IndexOf(bio);
      assert table[..][index] == table[index] && EntryOk(lzo, table[index], heap);
      assert PageOf(lzo, table[index], heap) == LastWritten(First(header, index), history, index);
      var e := table[index];
      if !TestFlag(e.flags, INUSE) {
        CopyPage(Zeros(), page);
        return DONE;
      }
      status := Fetch(e, page);
    }

    // The start of a write: the old allocation goes.
    method Release(index: nat)
      requires Sound() && index < table.Length
      modifies this`heap, this`freed, table
      ensures Sound() && !InUse(table[index]) && !TestFlag(table[index].flags, UNCOMPRESSED)
      ensures OthersKept(lzo, old(table[..]), old(heap), table[..], heap, index)
    {
      hide RoundTrips, TestFlag, SetFlag, ClearFlag, FreedOnce, Fits, OthersKept;
      ghost var t, h := table[..], heap;
      var e := table[index];
      ghost var e' := e.(flags := ClearFlag(ClearFlag(e.flags, INUSE), UNCOMPRESSED));
      Cleared(e.flags);
      if TestFlag(e.flags, INUSE) {
        Released(lzo, t, heap, index, e');
        Kfree(table[index].pagepos);
      } else {
        StaysUnused(lzo, t, heap, index, e');
      }
      table[index] := table[index].(flags := ClearFlag(table[index].flags, INUSE));
      table[index] := table[index].(flags := ClearFlag(table[index].flags, UNCOMPRESSED));
      assert table[..] == t[index := e'];
    }

    /** A write stores the page if compression and allocation succeed, and empties
        it otherwise. */
    method Write(bio: Bio, page: Bytes, compressOk: bool, allocOk: bool) returns (status: Status)
      requires Valid() && ValidRequest(bio, disksize) && |page| == PAGE_SIZE
      modifies this, table
      ensures Valid() && status == if compressOk && allocOk then DONE else IO_ERROR
      ensures history == old(history) + [Event(IndexOf(bio), page, compressOk && allocOk)]
    {
      hide RoundTrips, TestFlag, SetFlag, ClearFlag, FreedOnce, Fits, OthersKept, PageOf, LastWritten;
      ValidIffPage(bio, disksize);
      var index := IndexOf(bio);
      ghost var t, h := table[..], heap;
      Release(index);
      ghost var t1, h1 := table[..], heap;
      status := Fill(index, page, compressOk, allocOk);
      KeptTwice(lzo, t, h, t1, h1, table[..], heap, index);
      ghost var e := Event(index, page, compressOk && allocOk);
      history := history + [e];
      forall j | 0 <= j < table.Length
        ensures PageOf(lzo, table[j], heap) == LastWritten(First(header, j), history, j)
      {
        LastWrittenStep(First(header, j), old(history), e, j);
        if j != index { KeptAt(lzo, t, h, table[..], heap, index, j); }
      }
    }

    /** ramzswap_make_request: an invalid request fails and changes nothing. */
    method MakeRequest(bio: Bio, isWrite: bool, page: array<bv8>, compressOk: bool, allocOk: bool)
        returns (status: Status)
      requires Valid() && page.Length == PAGE_SIZE && (page as object) != table
      modifies this, table, page
      ensures Valid()
      ensures !ValidRequest(bio, disksize) ==>
        status == IO_ERROR && history == old(history) && page[..] == old(page[..])
      ensures ValidRequest(bio, disksize) && !isWrite ==>
        && status == DONE && history == old(history)
        && page[..] == LastWritten(First(header, IndexOf(bio)), history, IndexOf(bio))
      ensures ValidRequest(bio, disksize) && isWrite ==>
        && page[..] == old(page[..])
        && status == (if compressOk && allocOk then DONE else IO_ERROR)
        && history == old(history) + [Event(IndexOf(bio), page[..], compressOk && allocOk)]
    {
      hide Valid, LastWritten, ValidRequest;
      if !ValidRequest(bio, disksize) {
        return IO_ERROR;
      }
      if isWrite {
        status := Write(bio, page[..], compressOk, allocOk);
      } else {
        status := Read(bio, page);
      }
    }

    // The rest of a write, on an entry that is not in use.
    method Fill(index: nat, page: Bytes, compressOk: bool, allocOk: bool) returns (status: Status)
      requires Sound() && index < table.Length && |page| == PAGE_SIZE
      requires !InUse(table[index]) && !TestFlag(table[index].flags, UNCOMPRESSED)
      modifies this`heap, this`next, table
      ensures Sound() && status == if compressOk && allocOk then DONE else IO_ERROR
      ensures OthersKept(lzo, old(table[..]), old(heap), table[..], heap, index)
      ensures PageOf(lzo, table[index], heap) == if compressOk && allocOk then page else Zeros()
    {
      hide RoundTrips, TestFlag, SetFlag, ClearFlag, FreedOnce, Fits, OthersKept, PageOf;
      ghost var t := table[..];
      if !compressOk {
        Abandon(index, t);
        return IO_ERROR;
      }
      var lzopage := lzo.compress(page);
      var clen := |lzopage|;
      if clen >= PAGE_SIZE {
        clen := PAGE_SIZE;
        table[index] := table[index].(flags := SetFlag(table[index].flags, UNCOMPRESSED));
        lzopage := page;
      }
      if !allocOk {
        table[index] := table[index].(pagepos := 0);
        Abandon(index, t);
        return IO_ERROR;
      }
      ghost var h := heap;
      var pos := Kmalloc(clen);
      table[index] := table[index].(pagepos := pos);
      table[index] := table[index].(flags := SetFlag(table[index].flags, INUSE));
      table[index] := table[index].(size := clen);
      heap := heap[pos := lzopage[..clen]];
      ghost var e := table[index];
      Stored(lzo, t[index].flags, e, page, lzopage, heap);
      Filled(lzo, t, h, index, e, lzopage[..clen]);
      SameNames(h, pos, seq<bv8>(clen, _ => 0), lzopage[..clen], freed, next);
      assert heap == h[pos := lzopage[..clen]];
      assert table[..] == t[index := e];
      return DONE;
    }

    // The exit of a failing write: the flags are cleared.
    method Abandon(index: nat, ghost t: seq<Entry>)
      requires Shape() && index < table.Length == |t| && table[..] == t[index := table[index]]
      requires Fits(lzo, t, heap) && FreedOnce(heap, freed, next) && !InUse(t[index])
      modifies table
      ensures Sound() && PageOf(lzo, table[index], heap) == Zeros() && OthersKept(lzo, t, heap, table[..], heap, index)
    {
      hide RoundTrips, TestFlag, ClearFlag, FreedOnce, Fits, OthersKept;
      Cleared(table[index].flags);
      table[index] := table[index].(flags := ClearFlag(table[index].flags, INUSE));
      table[index] := table[index].(flags := ClearFlag(table[index].flags, UNCOMPRESSED));
      StaysUnused(lzo, t, heap, index, table[index]);
      assert table[..] == t[index := table[index]];
    }

    /** ramzswap_exit frees every allocation that is left. */
    method Exit()
      requires Valid()
      modifies this`heap, this`freed
      ensures heap == map[] && FreedOnce(heap, freed, next)
      ensures forall h: nat :: 0 < h < next ==> h in freed
    {
      hide RoundTrips, TestFlag, EntryOk, PageOf, LastWritten;
      ghost var t := table[..];
      var index := 0;
      LiveAtFirst(lzo, t, heap);
      while index < disksize / PAGE_SIZE
        invariant index <= table.Length && table[..] == t && FreedOnce(heap, freed, next)
        invariant LiveFrom(t, heap, index)
      {
        if TestFlag(table[index].flags, INUSE) {
          assert t[index] == table[index];
          LiveAfter(t, heap, index);
          Kfree(table[index].pagepos);
        } else {
          LiveSkips(t, heap, index);
        }
        index := index + 1;
      }
      NothingLive(t, heap, index);
    }
  }

  // The live allocations are those of the entries in use from an index on.
  ghost predicate LiveFrom(t: seq<Entry>, heap: map<nat, Bytes>, index: nat) {
    && Separate(t)
    && (forall i :: index <= i < |t| && InUse(t[i]) ==> t[i].pagepos in heap)
    && (forall h :: h in heap ==> HoldsFrom(t, h, index))
  }

  ghost predicate HoldsFrom(t: seq<Entry>, h: nat, index: nat) {
    exists i :: index <= i < |t| && InUse(t[i]) && t[i].pagepos == h
  }

  lemma LiveAtFirst(lzo: Lzo, t: seq<Entry>, heap: map<nat, Bytes>)
    requires Fits(lzo, t, heap)
    ensures LiveFrom(t, heap, 0)
  {
    hide InUse;
    forall h | h in heap
      ensures HoldsFrom(t, h, 0)
    {
      assert Holds(t, h);
    }
  }

  lemma LiveAfter(t: seq<Entry>, heap: map<nat, Bytes>, index: nat)
    requires LiveFrom(t, heap, index) && index < |t| && InUse(t[index])
    ensures t[index].pagepos in heap && LiveFrom(t, heap - {t[index].pagepos}, index + 1)
  {
    hide InUse;
    forall h | h in heap && h != t[index].pagepos
      ensures HoldsFrom(t, h, index + 1)
    {
      assert HoldsFrom(t, h, index);
    }
  }

  lemma LiveSkips(t: seq<Entry>, heap: map<nat, Bytes>, index: nat)
    requires LiveFrom(t, heap, index) && index < |t| && !InUse(t[index])
    ensures LiveFrom(t, heap, index + 1)
  {
    hide InUse;
    forall h | h in heap
      ensures HoldsFrom(t, h, index + 1)
    {
      assert HoldsFrom(t, h, index);
    }
  }

  lemma NothingLive(t: seq<Entry>, heap: map<nat, Bytes>, index: nat)
    requires LiveFrom(t, heap, index) && index == |t|
    ensures heap == map[]
  {
    forall h: nat
      ensures h !in heap
    {
      assert h in heap ==> HoldsFrom(t, h, index);
    }
  }

  lemma InitialTable(lzo: Lzo, t: seq<Entry>, page: nat, header: Bytes)
    requires |t| > 0 && |header| == PAGE_SIZE
    requires t[0] == Entry(page, SetFlag(SetFlag(0, UNCOMPRESSED), INUSE), 0)
    requires forall i :: 0 < i < |t| ==> t[i] == Entry(0, 0, 0)
    ensures Fits(lzo, t, map[page := header])
    ensures forall i :: 0 <= i < |t| ==> PageOf(lzo, t[i], map[page := header]) == First(header, i)
  {
    FlagsOfZero();
    hide TestFlag, SetFlag;
    assert InUse(t[0]);
  }

  lemma KeptTwice(lzo: Lzo, t: seq<Entry>, h: map<nat, Bytes>, t1: seq<Entry>, h1: map<nat, Bytes>, t2: seq<Entry>,
                  h2: map<nat, Bytes>, i: nat)
    requires OthersKept(lzo, t, h, t1, h1, i) && OthersKept(lzo, t1, h1, t2, h2, i)
    ensures OthersKept(lzo, t, h, t2, h2, i)
  {
    hide PageOf;
  }

  lemma KeptAt(lzo: Lzo, t: seq<Entry>, h: map<nat, Bytes>, t': seq<Entry>, h': map<nat, Bytes>, i: nat, j: nat)
    requires OthersKept(lzo, t, h, t', h', i) && j < |t| && j != i
    ensures j < |t'| && PageOf(lzo, t'[j], h') == PageOf(lzo, t[j], h)
  {
    hide PageOf;
  }

  // Writing into a live allocation changes no names.
  lemma SameNames(h: map<nat, Bytes>, pos: nat, a: Bytes, b: Bytes, freed: seq<nat>, next: nat)
    requires FreedOnce(h[pos := a], freed, next)
    ensures FreedOnce(h[pos := b], freed, next)
  {
    var x, y := h[pos := a], h[pos := b];
    assert forall k :: k in x <==> k in y;
  }

  // A stored entry makes the page: as it is, or through the round trip of LZO.
  lemma Stored(lzo: Lzo, flags: bv8, e: Entry, page: Bytes, lzopage: Bytes, heap: map<nat, Bytes>)
    requires RoundTrips(lzo) && |page| == PAGE_SIZE && !TestFlag(flags, UNCOMPRESSED) && e.pagepos in heap
    requires var c := lzo.compress(page);
      if |c| >= PAGE_SIZE then
        lzopage == page && e.size == PAGE_SIZE && e.flags == SetFlag(SetFlag(flags, UNCOMPRESSED), INUSE)
      else lzopage == c && e.size == |c| && e.flags == SetFlag(flags, INUSE)
    requires heap[e.pagepos] == lzopage[..e.size]
    ensures InUse(e) && EntryOk(lzo, e, heap) && PageOf(lzo, e, heap) == page
  {
    hide TestFlag, SetFlag;
    FlagsIndependent(flags, UNCOMPRESSED, UNCOMPRESSED);
    FlagsIndependent(flags, INUSE, UNCOMPRESSED);
    FlagsIndependent(flags, INUSE, INUSE);
    FlagsIndependent(SetFlag(flags, UNCOMPRESSED), INUSE, UNCOMPRESSED);
    FlagsIndependent(SetFlag(flags, UNCOMPRESSED), INUSE, INUSE);
    assert lzopage[..e.size] == lzopage;
  }

  // Whether the output of the decompressor is a whole page.
  predicate Fills(out: Option<Bytes>) {
    out.Some? && |out.value| == PAGE_SIZE
  }

  lemma Cleared(flags: bv8)
    ensures var f := ClearFlag(ClearFlag(flags, INUSE), UNCOMPRESSED);
      !TestFlag(f, INUSE) && !TestFlag(f, UNCOMPRESSED)
  {
  }

  lemma FlagsOfZero()
    ensures !TestFlag(0, INUSE)
    ensures var f := SetFlag(SetFlag(0, UNCOMPRESSED), INUSE);
      TestFlag(f, INUSE) && TestFlag(f, UNCOMPRESSED)
  {
  }
}

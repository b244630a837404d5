/** The PID table of pti_main.c: 32 slots, and a table of PIDs that the firmware
    reads while the driver changes it by single word writes. */
module PidTable {

  const HANDLE_OFFSET := 20000
  const SLOTS: nat := 32
  const TABLE_SIZE: nat := 64
  const NO_PID: nat := 0xFFFF

  datatype Slot = Slot(handle: int, inUse: bool, tcIndex: int, pid: nat)

  // The PIDs in the table, their number, and the slots.
  datatype State = State(table: seq<nat>, num: nat, slots: seq<Slot>) {
    // What the firmware searches.
    function Prefix(): (r: seq<nat>)
      requires num <= |table|
    {
      table[..num]
    }
  }

  datatype Op = Get | SetPid(handle: int, pid: nat) | ClearPid(handle: int) | Free(handle: int)

  // The state after an operation, what it returns, and what the firmware could
  // see after each single write.
  datatype Outcome = Outcome(state: State, result: int, views: seq<seq<nat>>)

  predicate Shape(s: State) {
    && |s.slots| == SLOTS && |s.table| == TABLE_SIZE && s.num <= TABLE_SIZE
    && forall i :: 0 <= i < SLOTS ==> s.slots[i].handle == HANDLE_OFFSET + i && -1 <= s.slots[i].tcIndex < TABLE_SIZE
  }

  // A slot has a PID in the table.
  predicate Armed(slot: Slot) {
    slot.tcIndex != -1
  }

  // Every armed slot is in use and stands for the entry with its PID.
  predicate SlotsPoint(table: seq<nat>, num: nat, slots: seq<Slot>) {
    forall i :: 0 <= i < |slots| && Armed(slots[i]) ==>
      slots[i].inUse && 0 <= slots[i].tcIndex < num <= |table| && table[slots[i].tcIndex] == slots[i].pid
  }

  predicate OneSlotEach(slots: seq<Slot>) {
    forall i, j :: 0 <= i < j < |slots| && Armed(slots[i]) ==> slots[i].tcIndex != slots[j].tcIndex
  }

  ghost predicate Owned(slots: seq<Slot>, k: nat) {
    exists i :: 0 <= i < |slots| && slots[i].tcIndex == k
  }

  ghost predicate EverySlotted(num: nat, slots: seq<Slot>) {
    forall k: nat :: k < num ==> Owned(slots, k)
  }

  predicate NoDuplicates(pids: seq<nat>) {
    forall j, k :: 0 <= j < k < |pids| ==> pids[j] != pids[k]
  }

  // The entries and the armed slots are in bijection, and no PID is in the
  // table twice.
  ghost predicate Inv(s: State) {
    && Shape(s)
    && SlotsPoint(s.table, s.num, s.slots)
    && OneSlotEach(s.slots)
    && EverySlotted(s.num, s.slots)
    && NoDuplicates(s.Prefix())
  }

  // ------------------------------------------------------------- operations

  function IndexOf(handle: int): int {
    handle - HANDLE_OFFSET
  }

  predicate HandleOk(handle: int) {
    0 <= IndexOf(handle) < SLOTS
  }

  // The first slot from position i on that satisfies the predicate.
  function FirstFree(slots: seq<Slot>, i: nat): (r: nat)
    requires i <= |slots|
    ensures i <= r <= |slots|
    ensures r < |slots| ==> !slots[r].inUse
    ensures forall j :: i <= j < r ==> slots[j].inUse
    decreases |slots| - i
  {
    if i == |slots| || !slots[i].inUse then i else FirstFree(slots, i + 1)
  }

  function FirstAt(slots: seq<Slot>, tcIndex: int, i: nat): (r: nat)
    requires i <= |slots|
    ensures i <= r <= |slots|
    ensures r < |slots| ==> slots[r].tcIndex == tcIndex
    ensures forall j :: i <= j < r ==> slots[j].tcIndex != tcIndex
    decreases |slots| - i
  {
    if i == |slots| || slots[i].tcIndex == tcIndex then i else FirstAt(slots, tcIndex, i + 1)
  }

  function GetNew(s: State): Outcome
    requires Shape(s)
  {
    var i := FirstFree(s.slots, 0);
    if i == SLOTS then Outcome(s, -1, [])
    else Outcome(s.(slots := s.slots[i := s.slots[i].(inUse := true, tcIndex := -1)]), s.slots[i].handle, [])
  }

  predicate SetFails(s: State, handle: int, pid: nat)
    requires Shape(s)
  {
    pid in s.Prefix() || !HandleOk(handle) || !s.slots[IndexOf(handle)].inUse
  }

  function Set(s: State, handle: int, pid: nat): Outcome
    requires Shape(s) && (SetFails(s, handle, pid) || s.num < TABLE_SIZE)
  {
    if SetFails(s, handle, pid) then Outcome(s, -1, [])
    else
      var i := IndexOf(handle);
      var table := s.table[s.num := pid];
      Outcome(State(table, s.num + 1, s.slots[i := s.slots[i].(pid := pid, tcIndex := s.num)]), 0,
              [table[..s.num], table[..s.num + 1]])
  }

  predicate ClearFails(slot: Slot) {
    slot.tcIndex < 0 || slot.pid == NO_PID
  }

  // Move the last entry to index c and the slot of the last entry with it.
  function Moved(slots: seq<Slot>, last: int, c: int): (r: seq<Slot>)
    ensures |r| == |slots|
  {
    var m := FirstAt(slots, last, 0);
    if m == |slots| then slots else slots[m := slots[m].(tcIndex := c)]
  }

  function Clear(s: State, handle: int): Outcome
    requires Shape(s) && HandleOk(handle) && (ClearFails(s.slots[IndexOf(handle)]) || s.num > 0)
  {
    var i := IndexOf(handle);
    if ClearFails(s.slots[i]) then Outcome(s, -1, [])
    else
      var c, last := s.slots[i].tcIndex, s.num - 1;
      var table := s.table[c := s.table[last]];
      var slots := Moved(s.slots, last, c);
      Outcome(State(table, last, slots[i := slots[i].(tcIndex := -1)]), 0, [table[..s.num], table[..last]])
  }

  function FreeSlot(s: State, handle: int): Outcome
    requires Shape(s) && HandleOk(handle) && (ClearFails(s.slots[IndexOf(handle)]) || s.num > 0)
  {
    var i := IndexOf(handle);
    var cleared := if s.slots[i].tcIndex != -1 then Clear(s, handle) else Outcome(s, 0, []);
    var slots := cleared.state.slots;
    Outcome(cleared.state.(slots := slots[i := slots[i].(inUse := false, pid := NO_PID, tcIndex := -1)]), 0,
            cleared.views)
  }

  // What the callers keep to: a PID other than the filler is set on a slot that
  // has none, and only handles that were given out are cleared or freed.
  predicate Allowed(s: State, op: Op)
    requires Shape(s)
  {
    match op
    case Get => true
    case SetPid(handle, pid) => pid < NO_PID && (HandleOk(handle) ==> !Armed(s.slots[IndexOf(handle)]))
    case ClearPid(handle) => HandleOk(handle)
    case Free(handle) => HandleOk(handle)
  }

  // A slot whose PID is the filler value cannot be cleared.
  predicate NoFiller(slots: seq<Slot>) {
    forall i :: 0 <= i < |slots| && Armed(slots[i]) ==> slots[i].pid != NO_PID
  }

  // ----------------------------------------------------------- room for PIDs

  function Below(n: nat): (r: set<nat>)
    ensures |r| == n && forall i: nat :: i in r <==> i < n
  {
    if n == 0 then {} else Below(n - 1) + {n - 1}
  }

  // The slots of the first k entries.
  ghost function Owners(slots: seq<Slot>, k: nat): (r: set<nat>)
    requires EverySlotted(k, slots)
    ensures forall i :: i in r ==> i < |slots| && 0 <= slots[i].tcIndex < k
    ensures |r| == k
  {
    if k == 0 then {} else
      assert Owned(slots, k - 1);
      var i: nat :| i < |slots| && slots[i].tcIndex == k - 1;
      Owners(slots, k - 1) + {i}
  }

  // A slot without a PID leaves room in the table.
  lemma RoomLeft(s: State, i: nat)
    requires Inv(s) && i < SLOTS && !Armed(s.slots[i])
    ensures s.num < SLOTS
  {
    hide Below, Owners, SlotsPoint, OneSlotEach, NoDuplicates;
    var owners := Owners(s.slots, s.num);
    assert owners <= Below(SLOTS) - {i};
    SubsetSize(owners, Below(SLOTS) - {i});
  }

  lemma {:induction false} SubsetSize(a: set<nat>, b: set<nat>)
    requires a <= b
    ensures |a| <= |b|
    decreases a
  {
    if a != {} {
      var x :| x in a;
      SubsetSize(a - {x}, b - {x});
    }
  }

  // An entry belongs to the slot that points to it, so some slot is armed.
  lemma ArmedMeansEntries(s: State, i: nat)
    requires Inv(s) && i < SLOTS && Armed(s.slots[i])
    ensures 0 <= s.slots[i].tcIndex < s.num
  {
  }

  // ------------------------------------------------------------- invariants

  lemma GetKeeps(s: State)
    requires Inv(s)
    ensures Inv(GetNew(s).state) && GetNew(s).state.Prefix() == s.Prefix()
    ensures NoFiller(s.slots) ==> NoFiller(GetNew(s).state.slots)
  {
    var i, s' := FirstFree(s.slots, 0), GetNew(s).state;
    if i < SLOTS {
      assert !Armed(s.slots[i]) && s'.slots[i].tcIndex == -1;
      forall k: nat | k < s.num
        ensures Owned(s'.slots, k)
      {
        assert Owned(s.slots, k);
        var j :| 0 <= j < SLOTS && s.slots[j].tcIndex == k;
        assert s'.slots[j].tcIndex == k;
      }
    }
  }

  lemma SetOwned(slots: seq<Slot>, num: nat, i: nat, slot: Slot)
    requires EverySlotted(num, slots) && i < |slots| && !Armed(slots[i]) && slot.tcIndex == num
    ensures EverySlotted(num + 1, slots[i := slot])
  {
    var slots' := slots[i := slot];
    forall k: nat | k < num + 1
      ensures Owned(slots', k)
    {
      if k == num {
        assert slots'[i].tcIndex == k;
      } else {
        assert Owned(slots, k);
        var j :| 0 <= j < |slots| && slots[j].tcIndex == k;
        assert slots'[j].tcIndex == k;
      }
    }
  }

  lemma SetPoints(table: seq<nat>, num: nat, slots: seq<Slot>, i: nat, pid: nat)
    requires SlotsPoint(table, num, slots) && num < |table| && i < |slots| && slots[i].inUse && OneSlotEach(slots)
    ensures var slots' := slots[i := slots[i].(pid := pid, tcIndex := num)];
      SlotsPoint(table[num := pid], num + 1, slots') && OneSlotEach(slots')
  {
  }

  lemma PrefixGrows(table: seq<nat>, num: nat, pid: nat)
    requires num < |table| && NoDuplicates(table[..num]) && pid !in table[..num]
    ensures NoDuplicates(table[num := pid][..num + 1])
  {
    assert table[num := pid][..num + 1] == table[..num] + [pid];
  }

  lemma SetKeeps(s: State, handle: int, pid: nat)
    requires Inv(s) && HandleOk(handle) && !Armed(s.slots[IndexOf(handle)])
    ensures SetFails(s, handle, pid) || s.num < TABLE_SIZE
    ensures Inv(Set(s, handle, pid).state)
    ensures NoFiller(s.slots) && pid != NO_PID ==> NoFiller(Set(s, handle, pid).state.slots)
  {
    var i := IndexOf(handle);
    RoomLeft(s, i);
    hide SlotsPoint, OneSlotEach, EverySlotted, NoDuplicates;
    if !SetFails(s, handle, pid) {
      SetPoints(s.table, s.num, s.slots, i, pid);
      PrefixGrows(s.table, s.num, pid);
      SetOwned(s.slots, s.num, i, s.slots[i].(pid := pid, tcIndex := s.num));
    }
  }

  /** Setting a PID keeps the bijection exactly when it fails or the slot had no
      PID; otherwise the slot's old entry is left without one. */
  lemma SetKeepsIff(s: State, handle: int, pid: nat)
    requires Inv(s) && (SetFails(s, handle, pid) || s.num < TABLE_SIZE)
    ensures Inv(Set(s, handle, pid).state) <==> SetFails(s, handle, pid) || !Armed(s.slots[IndexOf(handle)])
  {
    if !SetFails(s, handle, pid) {
      var i := IndexOf(handle);
      if !Armed(s.slots[i]) {
        SetKeeps(s, handle, pid);
      } else {
        var s', c := Set(s, handle, pid).state, s.slots[i].tcIndex;
        assert forall j :: 0 <= j < SLOTS ==> s'.slots[j].tcIndex != c;
        assert !Owned(s'.slots, c);
      }
    }
  }

  // Where every slot points after the last entry moved to index c.
  lemma MovedIs(s: State, i: nat)
    requires Inv(s) && i < SLOTS && Armed(s.slots[i])
    ensures s.num > 0
    ensures var c, last := s.slots[i].tcIndex, s.num - 1;
      var slots := Moved(s.slots, last, c);
      forall j :: 0 <= j < SLOTS ==>
        slots[j] == if s.slots[j].tcIndex == last then s.slots[j].(tcIndex := c) else s.slots[j]
  {
    assert Owned(s.slots, s.num - 1);
  }

  // The slots after index c was given to the slot of the last entry.
  predicate Cleared(slots: seq<Slot>, slots': seq<Slot>, i: nat, c: int, last: int) {
    && |slots'| == |slots|
    && forall j :: 0 <= j < |slots| ==>
         slots'[j] == if j == i then slots[j].(tcIndex := -1)
                      else if slots[j].tcIndex == last then slots[j].(tcIndex := c) else slots[j]
  }

  lemma ClearedPoint(s: State, slots': seq<Slot>, i: nat)
    requires Inv(s) && i < SLOTS && Armed(s.slots[i]) && s.num > 0
    requires Cleared(s.slots, slots', i, s.slots[i].tcIndex, s.num - 1)
    ensures SlotsPoint(s.table[s.slots[i].tcIndex := s.table[s.num - 1]], s.num - 1, slots')
    ensures OneSlotEach(slots')
  {
    hide EverySlotted, NoDuplicates;
    forall j, k | 0 <= j < k < |slots'| && Armed(slots'[j])
      ensures slots'[j].tcIndex != slots'[k].tcIndex
    {
      assert s.slots[j].tcIndex != s.slots[k].tcIndex;
    }
  }

  lemma ClearedOwned(s: State, slots': seq<Slot>, i: nat)
    requires Inv(s) && i < SLOTS && Armed(s.slots[i]) && s.num > 0
    requires Cleared(s.slots, slots', i, s.slots[i].tcIndex, s.num - 1)
    ensures EverySlotted(s.num - 1, slots')
  {
    hide SlotsPoint, NoDuplicates;
    var c, last := s.slots[i].tcIndex, s.num - 1;
    forall k: nat | k < last
      ensures Owned(slots', k)
    {
      assert Owned(s.slots, k) && Owned(s.slots, last);
      var j :| 0 <= j < SLOTS && s.slots[j].tcIndex == k;
      var m :| 0 <= m < SLOTS && s.slots[m].tcIndex == last;
      assert if k == c then slots'[m].tcIndex == k else slots'[j].tcIndex == k;
    }
  }

  // The entry at the end of the table moves into the gap.
  lemma ClearKeeps(s: State, handle: int)
    requires Inv(s) && HandleOk(handle) && !ClearFails(s.slots[IndexOf(handle)])
    ensures s.num > 0 && Inv(Clear(s, handle).state)
    ensures !Armed(Clear(s, handle).state.slots[IndexOf(handle)])
    ensures NoFiller(s.slots) ==> NoFiller(Clear(s, handle).state.slots)
  {
    hide SlotsPoint, OneSlotEach, EverySlotted;
    var i := IndexOf(handle);
    ArmedMeansEntries(s, i);
    MovedIs(s, i);
    var s' := Clear(s, handle).state;
    assert Cleared(s.slots, s'.slots, i, s.slots[i].tcIndex, s.num - 1);
    hide Clear, Moved;
    ClearedPoint(s, s'.slots, i);
    ClearedOwned(s, s'.slots, i);
  }

  lemma DisarmedFree(s: State, i: nat)
    requires Inv(s) && i < SLOTS && !Armed(s.slots[i])
    ensures var s' := s.(slots := s.slots[i := s.slots[i].(inUse := false, pid := NO_PID, tcIndex := -1)]);
      Inv(s') && (NoFiller(s.slots) ==> NoFiller(s'.slots))
  {
    var s' := s.(slots := s.slots[i := s.slots[i].(inUse := false, pid := NO_PID, tcIndex := -1)]);
    forall k: nat | k < s.num
      ensures Owned(s'.slots, k)
    {
      assert Owned(s.slots, k);
      var j :| 0 <= j < SLOTS && s.slots[j].tcIndex == k;
      assert s'.slots[j].tcIndex == k;
    }
  }

  /** Freeing a slot keeps the bijection exactly when the slot has no PID or one
      that can be cleared: a slot that was set to 0xffff is freed without its
      entry being removed. */
  lemma FreeKeepsIff(s: State, handle: int)
    requires Inv(s) && HandleOk(handle)
    ensures ClearFails(s.slots[IndexOf(handle)]) || s.num > 0
    ensures var slot := s.slots[IndexOf(handle)];
      Inv(FreeSlot(s, handle).state) <==> !Armed(slot) || slot.pid != 0xFFFF
    ensures NoFiller(s.slots) ==> NoFiller(FreeSlot(s, handle).state.slots)
  {
    var i := IndexOf(handle);
    if !Armed(s.slots[i]) {
      DisarmedFree(s, i);
    } else if s.slots[i].pid != NO_PID {
      ClearKeeps(s, handle);
      DisarmedFree(Clear(s, handle).state, i);
    } else {
      var s', c := FreeSlot(s, handle).state, s.slots[i].tcIndex;
      assert forall j :: 0 <= j < SLOTS ==> s'.slots[j].tcIndex != c;
      assert !Owned(s'.slots, c);
    }
  }

  // ------------------------------------------------- what the firmware sees

  // A prefix seen during a change: it has every PID that stays, and no PID that
  // is live neither before nor after.
  predicate ViewSafe(view: seq<nat>, before: seq<nat>, after: seq<nat>) {
    && (forall p :: p in before && p in after ==> p in view)
    && (forall p :: p in view ==> p in before || p in after)
  }

  predicate ViewsSafe(o: Outcome, before: seq<nat>, after: seq<nat>) {
    forall v :: 0 <= v < |o.views| ==> ViewSafe(o.views[v], before, after)
  }

  lemma SetSeen(s: State, handle: int, pid: nat)
    requires Shape(s) && (SetFails(s, handle, pid) || s.num < TABLE_SIZE)
    ensures var o := Set(s, handle, pid);
      && ViewsSafe(o, s.Prefix(), o.state.Prefix())
      && forall p :: p in o.state.Prefix() <==> p in s.Prefix() || (o.result == 0 && p == pid)
  {
    if !SetFails(s, handle, pid) {
      var o := Set(s, handle, pid);
      assert o.views[0] == s.Prefix();
      assert o.state.Prefix() == s.Prefix() + [pid];
    }
  }

  lemma ClearSeen(s: State, handle: int)
    requires Inv(s) && HandleOk(handle) && !ClearFails(s.slots[IndexOf(handle)])
    ensures s.num > 0
    ensures var o := Clear(s, handle);
      && ViewsSafe(o, s.Prefix(), o.state.Prefix())
      && forall p :: p in o.state.Prefix() <==> p in s.Prefix() && p != s.slots[IndexOf(handle)].pid
  {
    var slot := s.slots[IndexOf(handle)];
    var c, last, before := slot.tcIndex, s.num - 1, s.Prefix();
    var o := Clear(s, handle);
    assert o.state.table == s.table[c := s.table[last]];
    GapFilled(before, c);
    assert o.views[0] == before[c := before[last]];
    assert o.state.Prefix() == before[c := before[last]][..last];
  }

  // Filling the gap at index c with the last entry, and then dropping the last.
  lemma GapFilled(before: seq<nat>, c: nat)
    requires c < |before| && NoDuplicates(before)
    ensures var moved, last := before[c := before[|before| - 1]], |before| - 1;
      && ViewSafe(moved, before, moved[..last]) && ViewSafe(moved[..last], before, moved[..last])
      && forall p :: p in moved[..last] <==> p in before && p != before[c]
  {
    var moved, last := before[c := before[|before| - 1]], |before| - 1;
    var after := moved[..last];
    forall p | p in before && p != before[c]
      ensures p in after
    {
      var k :| 0 <= k < |before| && before[k] == p;
      assert if k == last then after[c] == p else after[k] == p;
    }
    forall p | p in after
      ensures p in before && p != before[c]
    {
      var k :| 0 <= k < |after| && after[k] == p;
      assert p == before[if k == c then last else k];
    }
    forall p | p in moved
      ensures p in before
    {
      var k :| 0 <= k < |moved| && moved[k] == p;
      assert p == before[if k == c then last else k];
    }
    forall p | p in after
      ensures p in moved
    {
    }
  }

  // ------------------------------------------------------------------- runs

  // Room in the table for a new PID, and an entry to remove: without them the
  // code would write or read outside the table.
  predicate Ready(s: State, op: Op)
    requires Shape(s) && Allowed(s, op)
  {
    && (op.SetPid? ==> SetFails(s, op.handle, op.pid) || s.num < TABLE_SIZE)
    && (op.ClearPid? || op.Free? ==> ClearFails(s.slots[IndexOf(op.handle)]) || s.num > 0)
  }

  function Step(s: State, op: Op): Outcome
    requires Shape(s) && Allowed(s, op) && Ready(s, op)
  {
    match op
    case Get => GetNew(s)
    case SetPid(handle, pid) => Set(s, handle, pid)
    case ClearPid(handle) => Clear(s, handle)
    case Free(handle) => FreeSlot(s, handle)
  }

  /** Every allowed operation keeps the bijection, and every prefix that the
      firmware can see between its writes is safe. */
  lemma StepKeeps(s: State, op: Op)
    requires Inv(s) && NoFiller(s.slots) && Allowed(s, op)
    ensures Ready(s, op)
    ensures var o := Step(s, op);
      Inv(o.state) && NoFiller(o.state.slots) && ViewsSafe(o, s.Prefix(), o.state.Prefix())
  {
    hide GetNew, Set, Clear, FreeSlot, ViewSafe, SlotsPoint, OneSlotEach, EverySlotted, NoDuplicates;
    match op
    case Get =>
      GetKeeps(s);
      GetSeen(s);
    case SetPid(handle, pid) =>
      if HandleOk(handle) {
        SetKeeps(s, handle, pid);
      } else {
        SetBadHandle(s, handle, pid);
      }
      SetSeen(s, handle, pid);
    case ClearPid(handle) =>
      if ClearFails(s.slots[IndexOf(handle)]) {
        ClearFailing(s, handle);
      } else {
        ClearKeeps(s, handle);
        ClearSeen(s, handle);
      }
    case Free(handle) =>
      FreeKeepsIff(s, handle);
      FreeSeen(s, handle);
  }

  lemma GetSeen(s: State)
    requires Shape(s)
    ensures GetNew(s).views == []
  {
  }

  lemma SetBadHandle(s: State, handle: int, pid: nat)
    requires Shape(s) && !HandleOk(handle)
    ensures Set(s, handle, pid).state == s
  {
  }

  lemma ClearFailing(s: State, handle: int)
    requires Shape(s) && HandleOk(handle) && ClearFails(s.slots[IndexOf(handle)])
    ensures Clear(s, handle) == Outcome(s, -1, [])
  {
  }

  lemma FreeSeen(s: State, handle: int)
    requires Inv(s) && HandleOk(handle)
    ensures ClearFails(s.slots[IndexOf(handle)]) || s.num > 0
    ensures var o := FreeSlot(s, handle);
      ViewsSafe(o, s.Prefix(), o.state.Prefix())
  {
    if !ClearFails(s.slots[IndexOf(handle)]) {
      ClearSeen(s, handle);
    }
  }

  // After pti_hal_init; the table itself holds anything.
  predicate Initial(s: State) {
    && |s.table| == TABLE_SIZE && s.num == 0 && |s.slots| == SLOTS
    && forall i :: 0 <= i < SLOTS ==> s.slots[i] == Slot(HANDLE_OFFSET + i, false, -1, NO_PID)
  }

  // s' can be the state after the operations, if each is allowed when it starts.
  // Where the code would leave the table, anything could follow.
  ghost predicate Run(s: State, ops: seq<Op>, s': State)
    decreases |ops|
  {
    if ops == [] then s' == s
    else
      && (Shape(s) ==> Allowed(s, ops[0]))
      && (Shape(s) && Ready(s, ops[0]) ==> Run(Step(s, ops[0]).state, ops[1..], s'))
  }

  /** In every run of allowed operations the entries and the armed slots stay in
      bijection, without duplicates, and the table is never left. */
  lemma {:induction false} RunKeeps(s: State, ops: seq<Op>, s': State)
    requires Inv(s) && NoFiller(s.slots) && Run(s, ops, s')
    ensures Inv(s') && NoFiller(s'.slots)
    decreases |ops|
  {
    hide Allowed, Step, NoFiller, Ready, SlotsPoint, OneSlotEach, EverySlotted, NoDuplicates;
    if ops != [] {
      StepKeeps(s, ops[0]);
      RunKeeps(Step(s, ops[0]).state, ops[1..], s');
    }
  }

  lemma InitialInv(s: State)
    requires Initial(s)
    ensures Inv(s) && NoFiller(s.slots)
  {
  }

  // ------------------------------------------------------ the reference model

  // An operation and what it returned.
  datatype Done = Done(op: Op, result: int)

  /** What callers need to know of the table: the handles that are out, and the
      PID of each that has one. */
  datatype Sessions = Sessions(out: set<int>, live: map<int, nat>)

  ghost predicate Live(r: Sessions, pid: nat) {
    exists handle :: handle in r.live && r.live[handle] == pid
  }

  predicate IsHandle(handle: int) {
    20000 <= handle < 20032
  }

  const NO_SESSIONS: Sessions := Sessions({}, map[])

  /** Get gives out a handle, Free takes it back; a PID is live from a successful
      set until a successful clear or a Free. */
  function After(r: Sessions, d: Done): Sessions {
    match d.op
    case Get => if d.result == -1 then r else r.(out := r.out + {d.result})
    case SetPid(handle, pid) => if d.result == 0 then r.(live := r.live[handle := pid]) else r
    case ClearPid(handle) => if d.result == 0 then r.(live := r.live - {handle}) else r
    case Free(handle) => Sessions(r.out - {handle}, r.live - {handle})
  }

  /** Get fails exactly when all 32 handles are out and otherwise gives one that is
      not; a set fails exactly when the handle is not out or the PID is live; a
      clear fails exactly when the handle has no PID. */
  ghost predicate Answer(r: Sessions, d: Done) {
    match d.op
    case Get => if |r.out| == 32 then d.result == -1 else IsHandle(d.result) && d.result !in r.out
    case SetPid(handle, pid) => d.result == (if handle in r.out && !Live(r, pid) then 0 else -1)
    case ClearPid(handle) => d.result == (if handle in r.live then 0 else -1)
    case Free(_) => d.result == 0
  }

  // The state holds these sessions.
  ghost predicate Holds(s: State, r: Sessions)
    requires Shape(s)
  {
    && (forall handle :: handle in r.out ==> IsHandle(handle))
    && (forall handle :: handle in r.live ==> handle in r.out)
    && forall i :: 0 <= i < SLOTS ==> HoldsAt(s.slots[i], HANDLE_OFFSET + i, r)
  }

  ghost predicate HoldsAt(slot: Slot, handle: int, r: Sessions) {
    && (slot.inUse <==> handle in r.out)
    && (Armed(slot) <==> handle in r.live)
    && (Armed(slot) ==> slot.pid == r.live[handle])
  }

  // The firmware's PIDs are those of the sessions.
  lemma LiveInTable(s: State, r: Sessions, pid: nat)
    requires Inv(s) && Holds(s, r)
    ensures pid in s.Prefix() <==> Live(r, pid)
  {
    if pid in s.Prefix() {
      var k :| 0 <= k < s.num && s.table[k] == pid;
      assert Owned(s.slots, k);
      var i :| 0 <= i < SLOTS && s.slots[i].tcIndex == k;
      assert HoldsAt(s.slots[i], HANDLE_OFFSET + i, r) && HANDLE_OFFSET + i in r.live;
    }
    if Live(r, pid) {
      var handle :| handle in r.live && r.live[handle] == pid;
      var i := handle - HANDLE_OFFSET;
      assert HoldsAt(s.slots[i], HANDLE_OFFSET + i, r);
      assert s.Prefix()[s.slots[i].tcIndex] == pid;
    }
  }

  function Handles(n: nat): (r: set<int>)
    ensures |r| == n && forall handle :: handle in r <==> HANDLE_OFFSET <= handle < HANDLE_OFFSET + n
  {
    if n == 0 then {} else Handles(n - 1) + {HANDLE_OFFSET + n - 1}
  }

  lemma SameSize(a: set<int>, b: set<int>)
    requires a <= b && |a| == |b|
    ensures a == b
  {
    assert b == a + (b - a);
  }

  lemma OutIff(s: State, r: Sessions, i: nat)
    requires Shape(s) && Holds(s, r) && i < SLOTS
    ensures s.slots[i].inUse <==> HANDLE_OFFSET + i in r.out
  {
    assert HoldsAt(s.slots[i], HANDLE_OFFSET + i, r);
  }

  lemma OutAreHandles(s: State, r: Sessions)
    requires Shape(s) && Holds(s, r)
    ensures r.out <= Handles(SLOTS)
  {
    hide HoldsAt;
  }

  // All handles are out exactly when no slot is free.
  lemma AllOut(s: State, r: Sessions)
    requires Shape(s) && Holds(s, r)
    ensures |r.out| == 32 <==> FirstFree(s.slots, 0) == SLOTS
    ensures FirstFree(s.slots, 0) < SLOTS ==> HANDLE_OFFSET + FirstFree(s.slots, 0) !in r.out
  {
    hide Handles, FirstFree, Holds, HoldsAt;
    var i, all := FirstFree(s.slots, 0), Handles(SLOTS);
    OutAreHandles(s, r);
    if i == SLOTS {
      forall handle | handle in all
        ensures handle in r.out
      {
        OutIff(s, r, handle - HANDLE_OFFSET);
      }
      assert r.out == all;
    } else {
      OutIff(s, r, i);
      assert HANDLE_OFFSET + i in all;
      if |r.out| == 32 { SameSize(r.out, all); }
    }
  }

  lemma GetAnswers(s: State, r: Sessions)
    requires Inv(s) && Holds(s, r)
    ensures var o := GetNew(s);
      Answer(r, Done(Get, o.result)) && Holds(o.state, After(r, Done(Get, o.result)))
  {
    var i := FirstFree(s.slots, 0);
    AllOut(s, r);
    if i < SLOTS { FreeIsDisarmed(s, i); }
    hide SlotsPoint, OneSlotEach, EverySlotted, NoDuplicates, FirstFree, HoldsAt;
    forall j | 0 <= j < SLOTS
      ensures HoldsAt(GetNew(s).state.slots[j], HANDLE_OFFSET + j, After(r, Done(Get, GetNew(s).result)))
    {
      GotAt(s, r, j);
    }
  }

  lemma GotAt(s: State, r: Sessions, j: nat)
    requires Inv(s) && Holds(s, r) && j < SLOTS
    ensures HoldsAt(GetNew(s).state.slots[j], HANDLE_OFFSET + j, After(r, Done(Get, GetNew(s).result)))
  {
    var i := FirstFree(s.slots, 0);
    if i < SLOTS { FreeIsDisarmed(s, i); }
    assert HoldsAt(s.slots[j], HANDLE_OFFSET + j, r);
    hide SlotsPoint, OneSlotEach, EverySlotted, NoDuplicates, FirstFree;
  }

  lemma FreeIsDisarmed(s: State, i: nat)
    requires Inv(s) && i < SLOTS && !s.slots[i].inUse
    ensures !Armed(s.slots[i])
  {
  }

  lemma SetAnswers(s: State, r: Sessions, handle: int, pid: nat)
    requires Inv(s) && Holds(s, r) && (SetFails(s, handle, pid) || s.num < TABLE_SIZE)
    ensures var o := Set(s, handle, pid);
      Answer(r, Done(SetPid(handle, pid), o.result)) && Holds(o.state, After(r, Done(SetPid(handle, pid), o.result)))
  {
    LiveInTable(s, r, pid);
    hide SlotsPoint, OneSlotEach, EverySlotted, NoDuplicates;
    if HandleOk(handle) {
      assert HoldsAt(s.slots[IndexOf(handle)], handle, r);
    }
  }

  // Clearing a slot's PID, seen from the slots alone.
  lemma ClearedHolds(s: State, r: Sessions, slots': seq<Slot>, i: nat)
    requires Inv(s) && Holds(s, r) && i < SLOTS && Armed(s.slots[i])
    requires Cleared(s.slots, slots', i, s.slots[i].tcIndex, s.num - 1)
    ensures forall j :: 0 <= j < SLOTS ==>
      HoldsAt(slots'[j], HANDLE_OFFSET + j, r.(live := r.live - {HANDLE_OFFSET + i}))
  {
    hide OneSlotEach, EverySlotted, NoDuplicates;
    forall j | 0 <= j < SLOTS
      ensures HoldsAt(slots'[j], HANDLE_OFFSET + j, r.(live := r.live - {HANDLE_OFFSET + i}))
    {
      assert HoldsAt(s.slots[j], HANDLE_OFFSET + j, r);
    }
  }

  lemma ClearAnswers(s: State, r: Sessions, handle: int)
    requires Inv(s) && NoFiller(s.slots) && Holds(s, r) && HandleOk(handle)
    ensures ClearFails(s.slots[IndexOf(handle)]) || s.num > 0
    ensures var o := Clear(s, handle);
      && Answer(r, Done(ClearPid(handle), o.result)) && Shape(o.state)
      && Holds(o.state, After(r, Done(ClearPid(handle), o.result)))
  {
    var i := IndexOf(handle);
    assert HoldsAt(s.slots[i], handle, r);
    hide SlotsPoint, OneSlotEach, EverySlotted, NoDuplicates, HoldsAt;
    if !ClearFails(s.slots[i]) {
      ClearKeeps(s, handle);
      MovedIs(s, i);
      ClearedHolds(s, r, Clear(s, handle).state.slots, i);
    }
  }

  lemma FreeAnswers(s: State, r: Sessions, handle: int)
    requires Inv(s) && NoFiller(s.slots) && Holds(s, r) && HandleOk(handle)
    ensures ClearFails(s.slots[IndexOf(handle)]) || s.num > 0
    ensures var o := FreeSlot(s, handle);
      && Answer(r, Done(Free(handle), o.result)) && Shape(o.state)
      && Holds(o.state, After(r, Done(Free(handle), o.result)))
  {
    ClearAnswers(s, r, handle);
    var i := IndexOf(handle);
    var cleared := if Armed(s.slots[i]) then Clear(s, handle).state else s;
    var r1 := if Armed(s.slots[i]) then r.(live := r.live - {handle}) else r;
    assert HoldsAt(s.slots[i], handle, r);
    hide SlotsPoint, OneSlotEach, EverySlotted, NoDuplicates, Clear;
    assert Holds(cleared, r1);
    forall j | 0 <= j < SLOTS
      ensures HoldsAt(FreeSlot(s, handle).state.slots[j], HANDLE_OFFSET + j, After(r, Done(Free(handle), 0)))
    {
      assert HoldsAt(cleared.slots[j], HANDLE_OFFSET + j, r1);
    }
  }

  /** Every allowed operation answers as the reference model says and leaves its
      sessions. */
  lemma StepAnswers(s: State, r: Sessions, op: Op)
    requires Inv(s) && NoFiller(s.slots) && Holds(s, r) && Allowed(s, op)
    ensures Ready(s, op) && var o := Step(s, op);
      Answer(r, Done(op, o.result)) && Shape(o.state) && Holds(o.state, After(r, Done(op, o.result)))
  {
    hide GetNew, Set, Clear, FreeSlot, Holds, Answer, After, SlotsPoint, OneSlotEach, EverySlotted, NoDuplicates;
    StepKeeps(s, op);
    match op
    case Get => GetAnswers(s, r);
    case SetPid(handle, pid) => SetAnswers(s, r, handle, pid);
    case ClearPid(handle) => ClearAnswers(s, r, handle);
    case Free(handle) => FreeAnswers(s, r, handle);
  }

  // Like Run, with what the operations returned.
  ghost predicate Trace(s: State, done: seq<Done>, s': State)
    decreases |done|
  {
    if done == [] then s' == s
    else
      && (Shape(s) ==> Allowed(s, done[0].op))
      && (Shape(s) && Ready(s, done[0].op) ==>
            && done[0].result == Step(s, done[0].op).result
            && Trace(Step(s, done[0].op).state, done[1..], s'))
  }

  function AfterAll(r: Sessions, done: seq<Done>): Sessions
    decreases |done|
  {
    if done == [] then r else AfterAll(After(r, done[0]), done[1..])
  }

  ghost predicate Answers(r: Sessions, done: seq<Done>)
    decreases |done|
  {
    done != [] ==> Answer(r, done[0]) && Answers(After(r, done[0]), done[1..])
  }

  lemma {:induction false} TraceFrom(s: State, r: Sessions, done: seq<Done>, s': State)
    requires Inv(s) && NoFiller(s.slots) && Holds(s, r) && Trace(s, done, s')
    ensures Answers(r, done) && Inv(s') && Holds(s', AfterAll(r, done))
    decreases |done|
  {
    hide Allowed, Step, NoFiller, Ready, Holds, Answer, After, SlotsPoint, OneSlotEach, EverySlotted, NoDuplicates;
    if done != [] {
      StepKeeps(s, done[0].op);
      StepAnswers(s, r, done[0].op);
      TraceFrom(Step(s, done[0].op).state, After(r, done[0]), done[1..], s');
    }
  }

  /** In every run of allowed operations after initialisation the driver answers
      each one as the reference model does: a handle that is out is not given out
      again before it is freed, a freed one can be, and Get fails only when all 32
      are out; and the firmware's PIDs are exactly the live ones. */
  lemma RunAnswers(s: State, done: seq<Done>, s': State)
    requires Initial(s) && Trace(s, done, s')
    ensures Answers(NO_SESSIONS, done) && Inv(s') && Holds(s', AfterAll(NO_SESSIONS, done))
    ensures forall pid: nat :: pid in s'.Prefix() <==> Live(AfterAll(NO_SESSIONS, done), pid)
  {
    InitialInv(s);
    TraceFrom(s, NO_SESSIONS, done, s');
    forall pid: nat
      ensures pid in s'.Prefix() <==> Live(AfterAll(NO_SESSIONS, done), pid)
    {
      LiveInTable(s', AfterAll(NO_SESSIONS, done), pid);
    }
  }

  /** Right after a Free a Get succeeds. */
  lemma FreedCanBeGot(s: State, handle: int)
    requires Inv(s) && NoFiller(s.slots) && HandleOk(handle)
    ensures ClearFails(s.slots[IndexOf(handle)]) || s.num > 0
    ensures var freed := FreeSlot(s, handle).state;
      Shape(freed) && IsHandle(GetNew(freed).result)
  {
    hide SlotsPoint, OneSlotEach, EverySlotted, NoDuplicates;
    FreeKeepsIff(s, handle);
    var freed := FreeSlot(s, handle).state;
    var i := FirstFree(freed.slots, 0);
    assert !freed.slots[IndexOf(handle)].inUse;
    assert i < SLOTS;
  }

  /** A concrete run outside the allowed ones: PID 0xffff set on a slot, which is
      then freed, stays in the table without a slot. */
  lemma FillerStays(s: State)
    requires Initial(s)
    ensures var got := GetNew(s).state;
      var set1 := Set(got, HANDLE_OFFSET, NO_PID).state;
      var freed := FreeSlot(set1, HANDLE_OFFSET).state;
      Inv(set1) && !Inv(freed) && freed.Prefix() == [NO_PID]
  {
    InitialInv(s);
    GetKeeps(s);
    var got := GetNew(s).state;
    SetKeeps(got, HANDLE_OFFSET, NO_PID);
    FreeKeepsIff(Set(got, HANDLE_OFFSET, NO_PID).state, HANDLE_OFFSET);
  }

  // ------------------------------------------------------------ the program

  const TWO16: nat := 0x1_0000
  // Halfword positions of num_pids and pidtable in the data RAM, and its size.
  const NUM_PIDS: nat := 21
  const PIDTABLE: nat := 29
  const RAM_WORDS: nat := 48

  // A halfword of a little-endian word memory.
  function Half(word: nat, high: bool): (r: nat)
    ensures r < TWO16
  {
    if high then word / TWO16 % TWO16 else word % TWO16
  }

  function HalfAt(ram: seq<nat>, h: nat): (r: nat)
    ensures r < TWO16
    requires h / 2 < |ram|
  {
    Half(ram[h / 2], h % 2 == 1)
  }

  function TableOf(ram: seq<nat>): (r: seq<nat>)
    requires |ram| == RAM_WORDS
    ensures |r| == TABLE_SIZE
  {
    seq<nat>(TABLE_SIZE, k requires 0 <= k < TABLE_SIZE => HalfAt(ram, PIDTABLE + k))
  }

  // Byte a of a little-endian memory of words.
  function ByteAt(ram: seq<nat>, a: nat): nat
    requires a / 4 < |ram|
  {
    ByteOf(ram[a / 4], a % 4)
  }

  /** In the data RAM the count of PIDs is the two bytes from 42 on, and entry k
      of the table the two from 58 + 2 * k on, low byte first. */
  lemma TableBytes(ram: seq<nat>, k: nat)
    requires |ram| == 48 && k < 64
    ensures HalfAt(ram, NUM_PIDS) == ByteAt(ram, 42) + 256 * ByteAt(ram, 43)
    ensures TableOf(ram)[k] == ByteAt(ram, 58 + 2 * k) + 256 * ByteAt(ram, 59 + 2 * k)
  {
    hide HalfAt, ByteAt;
    HalfBytes(ram, NUM_PIDS);
    HalfBytes(ram, PIDTABLE + k);
  }

  lemma HalfBytes(ram: seq<nat>, h: nat)
    requires h / 2 < |ram|
    ensures HalfAt(ram, h) == ByteAt(ram, 2 * h) + 256 * ByteAt(ram, 2 * h + 1)
  {
    WordHalves(ram[h / 2]);
    ByteOfHalf(ram, h, 0);
    ByteOfHalf(ram, h, 1);
    hide ByteAt, Half;
  }

  function ByteOf(w: nat, k: nat): nat
    requires k < 4
  {
    [w % 0x100, w / 0x100 % 0x100, w / 0x1_0000 % 0x100, w / 0x100_0000 % 0x100][k]
  }

  lemma WordHalves(w: nat)
    ensures Half(w, false) == ByteOf(w, 0) + 256 * ByteOf(w, 1)
    ensures Half(w, true) == ByteOf(w, 2) + 256 * ByteOf(w, 3)
  {
    TwoBytes(w);
    TwoBytes(w / 0x1_0000);
    assert w / 0x100_0000 == w / 0x1_0000 / 0x100;
  }

  lemma TwoBytes(x: nat)
    ensures x % 0x1_0000 == x % 0x100 + 256 * (x / 0x100 % 0x100)
  {
    var q, r := x / 0x1_0000, x % 0x1_0000;
    assert x == 0x1_0000 * q + r;
    assert x / 0x100 == 0x100 * q + r / 0x100 && r / 0x100 < 0x100;
  }

  lemma ByteOfHalf(ram: seq<nat>, h: nat, k: nat)
    requires h / 2 < |ram| && k < 2
    ensures ByteAt(ram, 2 * h + k) == ByteOf(ram[h / 2], h % 2 * 2 + k)
  {
    hide ByteOf;
    assert 2 * h + k == 4 * (h / 2) + (h % 2 * 2 + k);
  }

  // The word with one halfword replaced.
  function Patched(word: nat, high: bool, value: nat): nat {
    if high then word % TWO16 + value * TWO16 else word / TWO16 * TWO16 + value
  }

  lemma PatchedHalves(word: nat, high: bool, value: nat)
    requires value < TWO16
    ensures Half(Patched(word, high, value), high) == value
    ensures Half(Patched(word, high, value), !high) == Half(word, !high)
  {
  }

  lemma RamPatched(was: seq<nat>, ram: seq<nat>, h: nat, value: nat)
    requires |was| == RAM_WORDS && h < 2 * RAM_WORDS && value < TWO16
    requires ram == was[h / 2 := Patched(was[h / 2], h % 2 == 1, value)]
    ensures forall g :: 0 <= g < 2 * RAM_WORDS ==> HalfAt(ram, g) == if g == h then value else HalfAt(was, g)
    ensures TableOf(ram)
      == if PIDTABLE <= h < PIDTABLE + TABLE_SIZE then TableOf(was)[h - PIDTABLE := value] else TableOf(was)
  {
    hide Half, Patched;
    PatchedHalves(was[h / 2], h % 2 == 1, value);
    forall g | 0 <= g < 2 * RAM_WORDS
      ensures HalfAt(ram, g) == if g == h then value else HalfAt(was, g)
    {
      if g / 2 == h / 2 && g != h {
        assert (g % 2 == 1) == !(h % 2 == 1);
      }
    }
    hide HalfAt;
  }

  class Pti {
    const ram: array<nat>
    const vSlots: array<Slot>
    // The prefix of the table after every write so far.
    ghost var views: seq<seq<nat>>

    ghost predicate Memory()
      reads ram
    {
      ram.Length == RAM_WORDS && vSlots.Length == SLOTS
    }

    function Read(h: nat): nat
      requires h < 2 * RAM_WORDS <= 2 * ram.Length
      reads ram
    {
      HalfAt(ram[..], h)
    }

    ghost function Current(): (s: State)
      requires Memory()
      reads ram, vSlots
      ensures |s.table| == TABLE_SIZE
    {
      State(TableOf(ram[..]), HalfAt(ram[..], NUM_PIDS), vSlots[..])
    }

    ghost predicate Valid()
      reads ram, vSlots
    {
      Memory() && Shape(Current())
    }

    // The part of pti_hal_init that concerns the table.
    constructor ()
      ensures Valid() && Initial(Current()) && fresh(ram) && fresh(vSlots)
    {
      ram := new nat[RAM_WORDS](_ => 0);
      vSlots := new Slot[SLOTS](i => Slot(HANDLE_OFFSET + i, false, -1, NO_PID));
      views := [];
      new;
      PtiWrite(NUM_PIDS, 0);
    }

    /** PtiWrite: a read and a write of the whole word change one halfword only. */
    method PtiWrite(h: nat, value: nat)
      requires Memory() && h < 2 * RAM_WORDS && value < TWO16
      modifies ram, this`views
      ensures forall g :: 0 <= g < 2 * RAM_WORDS ==> Read(g) == if g == h then value else old(Read(g))
      ensures h == NUM_PIDS ==> Current() == old(Current()).(num := value)
      ensures PIDTABLE <= h < PIDTABLE + TABLE_SIZE ==>
        Current() == old(Current()).(table := old(Current()).table[h - PIDTABLE := value])
      ensures Current().num <= TABLE_SIZE ==> views == old(views) + [Current().Prefix()]
    {
      hide Half, Patched;
      ghost var was := ram[..];
      PatchedHalves(ram[h / 2], h % 2 == 1, value);
      ram[h / 2] := Patched(ram[h / 2], h % 2 == 1, value);
      RamPatched(was, ram[..], h, value);
      hide HalfAt, TableOf;
      if Current().num <= TABLE_SIZE {
        views := views + [Current().Prefix()];
      }
    }

    method GetNewSlotHandle() returns (handle: int)
      requires Valid()
      modifies vSlots
      ensures Valid() && Current() == GetNew(old(Current())).state && handle == GetNew(old(Current())).result
    {
      var i := 0;
      while i < SLOTS
        invariant i <= SLOTS && FirstFree(vSlots[..], 0) == FirstFree(vSlots[..], i)
        invariant vSlots[..] == old(vSlots[..])
      {
        if !vSlots[i].inUse {
          vSlots[i] := vSlots[i].(inUse := true, tcIndex := -1);
          return vSlots[i].handle;
        }
        i := i + 1;
      }
      return -1;
    }

    // The two writes of slot_set_pid: the entry behind the table, then the count.
    method Append(pid: nat)
      requires Valid() && pid < TWO16 && Current().num < TABLE_SIZE
      modifies ram, this`views
      ensures Valid() && vSlots[..] == old(vSlots[..])
      ensures var n, table := old(Current().num), old(Current().table)[old(Current().num) := pid];
        && Current().table == table && Current().num == n + 1
        && views == old(views) + [table[..n], table[..n + 1]]
    {
      hide HalfAt, TableOf;
      var n := Read(NUM_PIDS);
      PtiWrite(PIDTABLE + n, pid);
      PtiWrite(NUM_PIDS, n + 1);
    }

    method SlotSetPid(handle: int, pid: nat) returns (result: int)
      requires Valid() && pid < TWO16
      requires SetFails(Current(), handle, pid) || Current().num < TABLE_SIZE
      modifies ram, vSlots, this`views
      ensures Valid()
      ensures var o := Set(old(Current()), handle, pid);
        Current() == o.state && result == o.result && views == old(views) + o.views
    {
      var v := 0;
      while v < Read(NUM_PIDS)
        invariant v <= Read(NUM_PIDS) && Current() == old(Current()) && views == old(views) && Valid()
        invariant pid !in Current().table[..v]
      {
        if Read(PIDTABLE + v) == pid {
          assert Current().table[v] == pid && Current().Prefix()[v] == pid;
          return -1;
        }
        v := v + 1;
      }
      v := 0;
      while v < SLOTS
        invariant v <= SLOTS && Current() == old(Current()) && views == old(views) && Valid()
        invariant forall j :: 0 <= j < v ==> vSlots[j].handle != handle
      {
        if vSlots[v].handle == handle {
          if vSlots[v].inUse {
            vSlots[v] := vSlots[v].(pid := pid, tcIndex := Read(NUM_PIDS));
            Append(pid);
            return 0;
          } else {
            return -1;
          }
        }
        v := v + 1;
      }
      return -1;
    }

    // The two writes of slot_clear_pid: the last entry into the gap, then the count.
    method Remove(c: nat)
      requires Valid() && c < TABLE_SIZE && Current().num > 0
      modifies ram, this`views
      ensures Valid() && vSlots[..] == old(vSlots[..])
      ensures var n, was := old(Current().num), old(Current().table);
        var table := was[c := was[n - 1]];
        && Current().table == table && Current().num == n - 1
        && views == old(views) + [table[..n], table[..n - 1]]
    {
      hide HalfAt;
      var n := Read(NUM_PIDS);
      assert Current().table[n - 1] == Read(PIDTABLE + n - 1);
      PtiWrite(PIDTABLE + c, Read(PIDTABLE + n - 1));
      PtiWrite(NUM_PIDS, n - 1);
    }

    method SlotClearPid(handle: int) returns (result: int)
      requires Valid() && HandleOk(handle)
      requires ClearFails(Current().slots[IndexOf(handle)]) || Current().num > 0
      modifies ram, vSlots, this`views
      ensures Valid()
      ensures var o := Clear(old(Current()), handle);
        Current() == o.state && result == o.result && views == old(views) + o.views
    {
      var s := handle - HANDLE_OFFSET;
      if vSlots[s].tcIndex < 0 || vSlots[s].pid == NO_PID {
        return -1;
      }
      var c := vSlots[s].tcIndex;
      Remove(c);
      MoveSlot(Read(NUM_PIDS), c);
      vSlots[s] := vSlots[s].(tcIndex := -1);
      return 0;
    }

    // The loop that finds the slot of the moved entry.
    method MoveSlot(last: int, c: int)
      requires Valid() && -1 <= c < TABLE_SIZE
      modifies vSlots
      ensures Valid() && vSlots[..] == Moved(old(vSlots[..]), last, c)
    {
      var i := 0;
      while i < SLOTS
        invariant i <= SLOTS && vSlots[..] == old(vSlots[..])
        invariant FirstAt(vSlots[..], last, 0) == FirstAt(vSlots[..], last, i)
      {
        if last == vSlots[i].tcIndex {
          vSlots[i] := vSlots[i].(tcIndex := c);
          break;
        }
        i := i + 1;
      }
    }

    method SlotFree(handle: int)
      requires Valid() && HandleOk(handle)
      requires ClearFails(Current().slots[IndexOf(handle)]) || Current().num > 0
      modifies ram, vSlots, this`views
      ensures Valid()
      ensures var o := FreeSlot(old(Current()), handle);
        Current() == o.state && views == old(views) + o.views
    {
      hide Clear;
      if vSlots[handle - HANDLE_OFFSET].tcIndex != -1 {
        var r := SlotClearPid(handle);
      }
      var s := handle - HANDLE_OFFSET;
      vSlots[s] := vSlots[s].(inUse := false, pid := NO_PID, tcIndex := -1);
    }
  }
}

/** The answer-to-reset parser and printer of smartcard/atr.c (section 8.2 of
    ISO/IEC 7816-3:2006). */
module Atr {
  import opened Octets
  import opened Wrappers

  const MAX_SIZE: nat := 33
  const MAX_PROTOCOLS: nat := 7

  // The interface bytes of one group.
  datatype Group = Group(ta: Option<bv8>, tb: Option<bv8>, tc: Option<bv8>, td: Option<bv8>)

  // What can be observed of a parsed ATR.
  datatype ATR = ATR(ts: bv8, t0: bv8, groups: seq<Group>, hist: Bytes, tck: Option<bv8>, length: nat)

  // Overrun: the parser would write a row of ib that does not exist.
  datatype Result = Ok(atr: ATR) | Malformed | Overrun

  // ----------------------------------------------------------------- bytes

  // The macro INVERT_BYTE: the bits in the opposite order.
  function InvertByte(a: bv8): bv8 {
    ((a << 7) & 0x80) | ((a << 5) & 0x40) | ((a << 3) & 0x20) | ((a << 1) & 0x10)
    | ((a >> 1) & 0x08) | ((a >> 3) & 0x04) | ((a >> 5) & 0x02) | ((a >> 7) & 0x01)
  }

  // A byte of an inverse-convention card.
  function Inverse(a: bv8): bv8 {
    !InvertByte(a)
  }

  lemma InverseTwice(a: bv8)
    ensures Inverse(Inverse(a)) == a
  {
  }

  lemma InverseTS()
    ensures Inverse(0x03) == 0x3F
  {
  }

  /** The bytes in the direct convention. */
  function Decoded(input: Bytes): (r: Bytes)
    ensures |r| == |input|
  {
    if input != [] && input[0] == 0x03 then seq(|input|, i requires 0 <= i < |input| => Inverse(input[i]))
    else input
  }

  predicate HasA(td: bv8) { td | 0xEF == 0xFF }

  predicate HasB(td: bv8) { td | 0xDF == 0xFF }

  predicate HasC(td: bv8) { td | 0xBF == 0xFF }

  predicate HasD(td: bv8) { td | 0x7F == 0xFF }

  function Bit(b: bool): (n: nat)
    ensures n <= 1
  {
    if b then 1 else 0
  }

  // How many interface bytes follow.
  function Count(td: bv8): (n: nat)
    ensures n <= 4
  {
    Bit(HasA(td)) + Bit(HasB(td)) + Bit(HasC(td)) + Bit(HasD(td))
  }

  const NUM_IB_TABLE: seq<nat> := [0, 1, 1, 2, 1, 2, 2, 3, 1, 2, 2, 3, 2, 3, 3, 4]

  function Nibble(td: bv8): (n: nat)
    ensures n < 16
  {
    ((0xF0 & td) >> 4) as nat
  }

  lemma NibbleIs(td: bv8)
    ensures Nibble(td) == Bit(HasA(td)) + 2 * Bit(HasB(td)) + 4 * Bit(HasC(td)) + 8 * Bit(HasD(td))
  {
  }

  function NumIb(td: bv8): nat {
    NUM_IB_TABLE[Nibble(td)]
  }

  /** The table of the code counts the announced interface bytes. */
  lemma TableCounts(td: bv8)
    ensures NumIb(td) == Count(td)
  {
    hide HasA, HasB, HasC, HasD, Nibble;
    NibbleIs(td);
  }

  function Low(t: bv8): (n: nat)
    ensures n < 16
  {
    (t & 0x0F) as nat
  }

  const FS_TABLE: seq<nat> := [3570000, 5000000, 6000000, 8000000, 12000000, 16000000, 20000000, 0,
                               0, 5000000, 7500000, 10000000, 15000000, 20000000, 0, 0]

  // --------------------------------------------------------------- parsing

  // The interface bytes that td announces, behind position p.
  function GroupAt(b: Bytes, p: nat, td: bv8): Group
    requires p + Count(td) < |b|
  {
    var a := Bit(HasA(td));
    var ab := a + Bit(HasB(td));
    var abc := ab + Bit(HasC(td));
    Group(if HasA(td) then Some(b[p + a]) else None, if HasB(td) then Some(b[p + ab]) else None,
          if HasC(td) then Some(b[p + abc]) else None, if HasD(td) then Some(b[p + Count(td)]) else None)
  }

  // The groups, the position of the last byte read, and whether a check byte follows.
  datatype Groups = Groups(groups: seq<Group>, pointer: nat, tck: bool) | BadGroups | GroupsOverrun

  function ParseGroups(b: Bytes, p: nat, td: bv8, pn: nat, tck: bool): (r: Groups)
    ensures r.Groups? ==> r.groups != [] && p <= r.pointer < |b| && |r.groups| + pn <= MAX_PROTOCOLS
    decreases |b| - p
  {
    if p + Count(td) >= |b| then BadGroups
    else if pn >= MAX_PROTOCOLS then GroupsOverrun
    else
      var g, q := GroupAt(b, p, td), p + Count(td);
      if g.td.None? then Groups([g], q, tck)
      else
        var rest := ParseGroups(b, q, g.td.value, pn + 1, Low(g.td.value) != 0);
        if rest.Groups? then Groups([g] + rest.groups, rest.pointer, rest.tck) else rest
  }

  // The checks on the first group when it is the only one.
  predicate FirstGroupOk(groups: seq<Group>) {
    |groups| == 1 ==>
      && (groups[0].ta.Some? ==> FS_TABLE[Nibble(groups[0].ta.value)] != 0)
      && (groups[0].tb.Some? ==> groups[0].tb.value <= 0x80)
  }

  // What follows the groups: the historical bytes, the check byte if it is
  // announced, and the checks.
  function Finished(b: Bytes, groups: seq<Group>, p: nat, tck: bool): Result
    requires |b| >= 2 && p < |b|
  {
    var q := p + Low(b[1]);
    if q + Bit(tck) >= |b| || !FirstGroupOk(groups) then Malformed
    else Ok(ATR(b[0], b[1], groups, b[p + 1..q + 1], if tck then Some(b[q + 1]) else None, q + Bit(tck) + 1))
  }

  function ParseDirect(b: Bytes): Result {
    if |b| < 2 then Malformed
    else
      match ParseGroups(b, 1, b[1], 0, false)
      case BadGroups => Malformed
      case GroupsOverrun => Overrun
      case Groups(groups, p, tck) => Finished(b, groups, p, tck)
  }

  // The result in terms of the groups.
  lemma ParsedIs(b: Bytes, r: Groups)
    requires |b| >= 2 && r == ParseGroups(b, 1, b[1], 0, false)
    ensures r.BadGroups? ==> ParseDirect(b) == Malformed
    ensures r.GroupsOverrun? ==> ParseDirect(b) == Overrun
    ensures r.Groups? ==> ParseDirect(b) == Finished(b, r.groups, r.pointer, r.tck)
  {
    hide ParseGroups, Finished;
  }

  lemma NoOverrun(b: Bytes)
    requires |b| >= 2
    ensures ParseDirect(b) == Overrun <==> ParseGroups(b, 1, b[1], 0, false).GroupsOverrun?
  {
    hide ParseGroups, Low, FirstGroupOk;
  }

  function Parse(input: Bytes): Result {
    ParseDirect(Decoded(input))
  }

  // -------------------------------------------------------------- printing

  function ByteOf(b: Option<bv8>): (r: Bytes)
    ensures |r| == Bit(b.Some?)
  {
    if b.Some? then [b.value] else []
  }

  function GroupBytes(g: Group): Bytes {
    ByteOf(g.ta) + ByteOf(g.tb) + ByteOf(g.tc) + ByteOf(g.td)
  }

  function GroupsBytes(groups: seq<Group>): Bytes {
    if groups == [] then [] else GroupBytes(groups[0]) + GroupsBytes(groups[1..])
  }

  function Raw(atr: ATR): Bytes {
    [atr.ts, atr.t0] + GroupsBytes(atr.groups) + atr.hist + ByteOf(atr.tck)
  }

  // -------------------------------------------------------------- round trip

  lemma SliceIf(b: Bytes, p: nat, present: bool)
    requires p + Bit(present) <= |b|
    ensures b[p..p + Bit(present)] == if present then [b[p]] else []
  {
  }

  lemma GroupPrinted(b: Bytes, p: nat, td: bv8)
    requires p + Count(td) < |b|
    ensures GroupBytes(GroupAt(b, p, td)) == b[p + 1..p + 1 + Count(td)]
    ensures GroupAt(b, p, td).td.Some? ==> Count(td) > 0
  {
    hide HasA, HasB, HasC, HasD;
    var g := GroupAt(b, p, td);
    var a := p + 1 + Bit(HasA(td));
    var ab := a + Bit(HasB(td));
    var abc := ab + Bit(HasC(td));
    var end := p + 1 + Count(td);
    SliceIf(b, p + 1, HasA(td));
    SliceIf(b, a, HasB(td));
    SliceIf(b, ab, HasC(td));
    SliceIf(b, abc, HasD(td));
    Adjacent(b, p + 1, a, ab);
    Adjacent(b, p + 1, ab, abc);
    Adjacent(b, p + 1, abc, end);
  }

  // What was parsed is the groups before and the rest.
  ghost predicate Continued(all: Groups, done: seq<Group>, rest: Groups) {
    all == if rest.Groups? then Groups(done + rest.groups, rest.pointer, rest.tck) else rest
  }

  lemma NextGroup(b: Bytes, p: nat, td: bv8, pn: nat, tck: bool)
    requires p + Count(td) < |b| && pn < MAX_PROTOCOLS && HasD(td)
    ensures var next := b[p + Count(td)];
      && Count(td) > 0
      && Continued(ParseGroups(b, p, td, pn, tck), [GroupAt(b, p, td)],
                   ParseGroups(b, p + Count(td), next, pn + 1, Low(next) != 0))
  {
    hide Count, HasA, HasB, HasC, Low;
    HasMore(td);
  }

  lemma LastGroup(b: Bytes, p: nat, td: bv8, pn: nat, tck: bool)
    requires p + Count(td) < |b| && pn < MAX_PROTOCOLS && !HasD(td)
    ensures ParseGroups(b, p, td, pn, tck) == Groups([GroupAt(b, p, td)], p + Count(td), tck)
  {
    hide Count, HasA, HasB, HasC, Low;
  }

  lemma GroupThere(b: Bytes, p: nat, td: bv8, pn: nat, tck: bool)
    requires ParseGroups(b, p, td, pn, tck).Groups?
    ensures p + Count(td) < |b| && pn < MAX_PROTOCOLS
  {
    hide Count, HasA, HasB, HasC, HasD, Low;
  }

  lemma GroupsBytesCons(g: Group, rest: seq<Group>)
    ensures GroupsBytes([g] + rest) == GroupBytes(g) + GroupsBytes(rest)
  {
    hide GroupBytes;
    assert ([g] + rest)[1..] == rest;
  }

  lemma NoGroupsBytes(g: Group)
    ensures GroupsBytes([g]) == GroupBytes(g)
  {
    hide GroupBytes;
    GroupsBytesCons(g, []);
    assert [g] + [] == [g];
    assert GroupBytes(g) + [] == GroupBytes(g);
  }

  // The groups print as the bytes they were read from.
  lemma {:induction false} GroupsPrinted(b: Bytes, p: nat, td: bv8, pn: nat, tck: bool)
    requires ParseGroups(b, p, td, pn, tck).Groups?
    ensures var r := ParseGroups(b, p, td, pn, tck);
      p <= r.pointer < |b| && GroupsBytes(r.groups) == b[p + 1..r.pointer + 1]
    decreases |b| - p
  {
    hide Count, HasA, HasB, HasC, HasD, GroupBytes, GroupAt, Low, ParseGroups, GroupsBytes;
    GroupThere(b, p, td, pn, tck);
    var r := ParseGroups(b, p, td, pn, tck);
    var g, q := GroupAt(b, p, td), p + Count(td);
    GroupPrinted(b, p, td);
    if HasD(td) {
      NextGroup(b, p, td, pn, tck);
      GroupsPrinted(b, q, b[q], pn + 1, Low(b[q]) != 0);
      var rest := ParseGroups(b, q, b[q], pn + 1, Low(b[q]) != 0);
      GroupsBytesCons(g, rest.groups);
      Adjacent(b, p + 1, q + 1, r.pointer + 1);
    } else {
      LastGroup(b, p, td, pn, tck);
      NoGroupsBytes(g);
    }
  }

  lemma Adjacent(b: Bytes, lo: nat, mid: nat, hi: nat)
    requires lo <= mid <= hi <= |b|
    ensures b[lo..mid] + b[mid..hi] == b[lo..hi]
  {
  }

  lemma HasMore(td: bv8)
    ensures HasD(td) ==> Count(td) > 0
  {
    hide HasD;
  }

  /** The bytes of an accepted ATR are the first `length` bytes of the decoded input. */
  lemma RawIsInput(input: Bytes)
    requires Parse(input).Ok?
    ensures var atr := Parse(input).atr;
      atr.length <= |input| && Raw(atr) == Decoded(input)[..atr.length]
  {
    hide Decoded, ParseGroups, GroupsBytes, FirstGroupOk, Low;
    var b := Decoded(input);
    var r := ParseGroups(b, 1, b[1], 0, false);
    GroupsPrinted(b, 1, b[1], 0, false);
    var p, q := r.pointer, r.pointer + Low(b[1]);
    assert [b[0], b[1]] == b[..2];
    assert b[..2] + b[2..p + 1] == b[..p + 1];
    assert b[..p + 1] + b[p + 1..q + 1] == b[..q + 1];
  }

  // Cutting off what the groups do not reach changes nothing.
  lemma {:induction false} GroupsCut(b: Bytes, n: nat, p: nat, td: bv8, pn: nat, tck: bool)
    requires n <= |b| && ParseGroups(b, p, td, pn, tck).Groups? && ParseGroups(b, p, td, pn, tck).pointer < n
    ensures ParseGroups(b[..n], p, td, pn, tck) == ParseGroups(b, p, td, pn, tck)
    decreases |b| - p
  {
    hide Count, HasA, HasB, HasC;
    var g, q := GroupAt(b, p, td), p + Count(td);
    HasMore(td);
    if g.td.Some? {
      GroupsCut(b, n, q, g.td.value, pn + 1, Low(g.td.value) != 0);
    }
    GroupCut(b, n, p, td);
  }

  lemma GroupCut(b: Bytes, n: nat, p: nat, td: bv8)
    requires p + Count(td) < n <= |b|
    ensures GroupAt(b[..n], p, td) == GroupAt(b, p, td)
  {
    hide HasA, HasB, HasC, HasD;
  }

  lemma FinishedCut(b: Bytes, groups: seq<Group>, p: nat, tck: bool)
    requires |b| >= 2 && 1 <= p < |b| && Finished(b, groups, p, tck).Ok?
    ensures var n := Finished(b, groups, p, tck).atr.length;
      p < n <= |b| && Finished(b[..n], groups, p, tck) == Finished(b, groups, p, tck)
  {
    hide FirstGroupOk, Low;
    SliceOfCut(b, Finished(b, groups, p, tck).atr.length, p + 1, p + 1 + Low(b[1]));
  }

  // Bytes behind the accepted ones do not matter.
  lemma ParseCut(b: Bytes)
    requires ParseDirect(b).Ok?
    ensures ParseDirect(b).atr.length <= |b| && ParseDirect(b[..ParseDirect(b).atr.length]) == ParseDirect(b)
  {
    assert |b| >= 2;
    hide ParseGroups, FirstGroupOk, Low, ParseDirect, Finished;
    var r := ParseGroups(b, 1, b[1], 0, false);
    ParsedIs(b, r);
    FinishedCut(b, r.groups, r.pointer, r.tck);
    var n := ParseDirect(b).atr.length;
    GroupsCut(b, n, 1, b[1], 0, false);
    ParsedIs(b[..n], r);
  }

  lemma SliceOfCut(b: Bytes, n: nat, lo: nat, hi: nat)
    requires lo <= hi <= n <= |b|
    ensures b[..n][lo..hi] == b[lo..hi]
  {
  }

  /** Parsing the printed bytes again succeeds, with the same ATR. */
  lemma Reparse(input: Bytes)
    requires Parse(input).Ok?
    ensures Parse(Raw(Parse(input).atr)) == Parse(input)
  {
    RawIsInput(input);
    DecodedDirect(input);
    hide Decoded, Raw, ParseDirect;
    ParseCut(Decoded(input));
  }

  // Decoded bytes are in the direct convention, and so is every prefix.
  lemma DecodedDirect(input: Bytes)
    ensures forall n :: 0 <= n <= |input| ==> Decoded(Decoded(input)[..n]) == Decoded(input)[..n]
  {
    InverseTS();
  }

  // ------------------------------------------------------- ATRs by their parts

  /** One group of interface bytes, and the protocol it is for (of the first group
      none is said). */
  datatype Level = Level(ta: Option<bv8>, tb: Option<bv8>, tc: Option<bv8>, protocol: bv8)

  // The byte that announces a group: a bit for each of TA, TB, TC and TD, and a
  // number below 16.
  function Announce(l: Level, more: bool, low: bv8): bv8 {
    (if l.ta.Some? then 0x10 else 0) | (if l.tb.Some? then 0x20 else 0) | (if l.tc.Some? then 0x40 else 0)
    | (if more then 0x80 else 0) | low
  }

  // The byte that announces group k.
  function TdOf(levels: seq<Level>, k: nat): bv8
    requires k < |levels|
  {
    Announce(levels[k], k + 1 < |levels|, levels[k].protocol)
  }

  function LevelBytes(l: Level): Bytes {
    (if l.ta.Some? then [l.ta.value] else []) + (if l.tb.Some? then [l.tb.value] else [])
    + (if l.tc.Some? then [l.tc.value] else [])
  }

  // The groups from number k on.
  function LevelsFrom(levels: seq<Level>, k: nat): Bytes
    requires k < |levels|
    decreases |levels| - k
  {
    LevelBytes(levels[k])
    + if k + 1 < |levels| then [TdOf(levels, k + 1)] + LevelsFrom(levels, k + 1) else []
  }

  /** An ATR in the direct convention, as section 8.2 of ISO/IEC 7816-3:2006 lays it
      out: TS, T0 with the number of historical bytes, the groups, the historical
      bytes, and the check byte if there is one. */
  function Laid(ts: bv8, levels: seq<Level>, hist: Bytes, tck: Option<bv8>): Bytes
    requires levels != []
  {
    [ts, Announce(levels[0], 1 < |levels|, Byte(|hist|))] + LevelsFrom(levels, 0) + hist
    + (if tck.Some? then [tck.value] else [])
  }

  // What the parser should find in group k.
  function Found(levels: seq<Level>, k: nat): Group
    requires k < |levels|
  {
    Group(levels[k].ta, levels[k].tb, levels[k].tc,
          if k + 1 < |levels| then Some(TdOf(levels, k + 1)) else None)
  }

  function FoundFrom(levels: seq<Level>, k: nat): (r: seq<Group>)
    requires k <= |levels|
    ensures |r| == |levels| - k && forall i :: 0 <= i < |r| ==> r[i] == Found(levels, k + i)
    decreases |levels| - k
  {
    if k == |levels| then [] else [Found(levels, k)] + FoundFrom(levels, k + 1)
  }

  predicate LevelsOk(levels: seq<Level>) {
    1 <= |levels| <= 7 && forall k :: 0 <= k < |levels| ==> levels[k].protocol < 16
  }

  lemma AnnounceBits(l: Level, more: bool, low: bv8)
    requires low < 16
    ensures var td := Announce(l, more, low);
      && (HasA(td) <==> l.ta.Some?) && (HasB(td) <==> l.tb.Some?) && (HasC(td) <==> l.tc.Some?)
      && (HasD(td) <==> more)
  {
  }

  lemma AnnounceLow(l: Level, more: bool, low: bv8)
    requires low < 16
    ensures Low(Announce(l, more, low)) == low as nat
  {
    assert Announce(l, more, low) & 0x0F == low;
    hide Announce;
  }

  // Group k is read where it stands.
  lemma LevelRead(b: Bytes, head: Bytes, l: Level, more: bool, low: bv8, next: Bytes)
    requires low < 16 && head != [] && b == head + LevelBytes(l) + next && (more ==> next != [])
    ensures var td, p := Announce(l, more, low), |head| - 1;
      && Count(td) == |LevelBytes(l)| + Bit(more) && p + Count(td) < |b|
      && GroupAt(b, p, td) == Group(l.ta, l.tb, l.tc, if more then Some(next[0]) else None)
  {
    AnnounceBits(l, more, low);
    hide Announce, HasA, HasB, HasC, HasD;
  }

  // Where the groups from k on stand, the parser finds them.
  lemma {:induction false} LevelsRead(b: Bytes, head: Bytes, levels: seq<Level>, k: nat, low: bv8, tck: bool,
                                      rest: Bytes)
    requires LevelsOk(levels) && k < |levels| && low < 16 && head != []
    requires b == head + LevelsFrom(levels, k) + rest
    ensures ParseGroups(b, |head| - 1, Announce(levels[k], k + 1 < |levels|, low), k, tck)
      == Groups(FoundFrom(levels, k), |head| - 1 + |LevelsFrom(levels, k)|,
                if k + 1 < |levels| then levels[|levels| - 1].protocol != 0 else tck)
    decreases |levels| - k
  {
    hide Announce, Count, HasA, HasB, HasC, HasD, Low, GroupAt, LevelBytes, ParseGroups;
    var l, more, p := levels[k], k + 1 < |levels|, |head| - 1;
    var td := Announce(l, more, low);
    AnnounceBits(l, more, low);
    if more {
      var next := [TdOf(levels, k + 1)] + LevelsFrom(levels, k + 1);
      assert b == head + LevelBytes(l) + (next + rest);
      LevelRead(b, head, l, more, low, next + rest);
      NextGroup(b, p, td, k, tck);
      AnnounceLow(levels[k + 1], k + 2 < |levels|, levels[k + 1].protocol);
      var head' := head + LevelBytes(l) + [TdOf(levels, k + 1)];
      assert b == head' + LevelsFrom(levels, k + 1) + rest;
      LevelsRead(b, head', levels, k + 1, levels[k + 1].protocol, levels[k + 1].protocol != 0, rest);
      NotZero(levels[k + 1].protocol);
    } else {
      assert b == head + LevelBytes(l) + rest;
      LevelRead(b, head, l, more, low, rest);
      LastGroup(b, p, td, k, tck);
      assert FoundFrom(levels, k + 1) == [];
    }
  }

  lemma NotZero(v: bv8)
    ensures v as nat != 0 <==> v != 0
  {
  }

  // The checks of TA1 and TB1 where there is no second group: the upper half of
  // TA1 is none of the four values without a clock rate, and TB1 is at most 0x80.
  predicate FirstOk(levels: seq<Level>) {
    |levels| == 1 ==>
      && (levels[0].ta.Some? ==> levels[0].ta.value / 16 !in [7, 8, 14, 15])
      && (levels[0].tb.Some? ==> levels[0].tb.value <= 0x80)
  }

  lemma ClockRate(ta: bv8)
    ensures FS_TABLE[Nibble(ta)] != 0 <==> ta / 16 !in [7, 8, 14, 15]
  {
    UpperHalf(ta);
  }

  lemma UpperHalf(ta: bv8)
    ensures Nibble(ta) == (ta / 16) as nat
  {
    assert (0xF0 & ta) >> 4 == ta / 16;
  }

  /** Every ATR laid out so, with up to seven groups and a check byte exactly when
      the last protocol that is named is not T=0, parses to its parts, whatever
      bytes follow it; it is refused only for TA1 or TB1. */
  lemma LaidParses(ts: bv8, levels: seq<Level>, hist: Bytes, tck: Option<bv8>, rest: Bytes)
    requires ts != 3 && LevelsOk(levels) && |hist| < 16
    requires tck.Some? <==> |levels| > 1 && levels[|levels| - 1].protocol != 0
    ensures var atr := Laid(ts, levels, hist, tck);
      Parse(atr + rest)
        == if FirstOk(levels) then Ok(ATR(ts, atr[1], FoundFrom(levels, 0), hist, tck, |atr|)) else Malformed
  {
    hide Laid, Announce, Low, LevelsFrom, Decoded, FoundFrom, FirstOk, FirstGroupOk, ParseGroups, ParseDirect, Finished;
    var b := Laid(ts, levels, hist, tck) + rest;
    LaidStart(ts, levels, hist, tck, rest);
    LaidGroups(ts, levels, hist, tck, rest);
    FirstChecksAre(levels);
    LaidFinished(ts, b[1], LevelsFrom(levels, 0), hist, tck, rest, FoundFrom(levels, 0));
    ParsedIs(b, ParseGroups(b, 1, b[1], 0, false));
  }

  lemma LaidStart(ts: bv8, levels: seq<Level>, hist: Bytes, tck: Option<bv8>, rest: Bytes)
    requires ts != 3 && LevelsOk(levels) && |hist| < 16
    ensures var atr := Laid(ts, levels, hist, tck);
      && |atr| >= 2 && (atr + rest)[1] == atr[1] && Low(atr[1]) == |hist| && Decoded(atr + rest) == atr + rest
      && atr == [ts, atr[1]] + LevelsFrom(levels, 0) + hist + (if tck.Some? then [tck.value] else [])
  {
    hide Announce, Byte, Low, LevelsFrom;
    CountByte(|hist|);
    AnnounceLow(levels[0], 1 < |levels|, Byte(|hist|));
  }

  lemma CountByte(n: nat)
    requires n < 16
    ensures Byte(n) < 16 && Byte(n) as nat == n
  {
    ByteIs(n);
    SmallByte(Byte(n));
  }

  lemma LaidGroups(ts: bv8, levels: seq<Level>, hist: Bytes, tck: Option<bv8>, rest: Bytes)
    requires LevelsOk(levels) && |hist| < 16
    requires tck.Some? <==> |levels| > 1 && levels[|levels| - 1].protocol != 0
    ensures var b := Laid(ts, levels, hist, tck) + rest;
      ParseGroups(b, 1, b[1], 0, false) == Groups(FoundFrom(levels, 0), 1 + |LevelsFrom(levels, 0)|, tck.Some?)
  {
    hide Announce, Byte, LevelsFrom, FoundFrom, ParseGroups;
    CountByte(|hist|);
    GroupsBehind(ts, levels, Byte(|hist|), hist, if tck.Some? then [tck.value] else [], rest);
  }

  lemma GroupsBehind(ts: bv8, levels: seq<Level>, low: bv8, hist: Bytes, end: Bytes, rest: Bytes)
    requires LevelsOk(levels) && low < 16
    ensures var b := [ts, Announce(levels[0], 1 < |levels|, low)] + LevelsFrom(levels, 0) + hist + end + rest;
      ParseGroups(b, 1, b[1], 0, false)
        == Groups(FoundFrom(levels, 0), 1 + |LevelsFrom(levels, 0)|,
                  |levels| > 1 && levels[|levels| - 1].protocol != 0)
  {
    hide Announce, LevelsFrom, FoundFrom, ParseGroups;
    var head := [ts, Announce(levels[0], 1 < |levels|, low)];
    Regrouped(head, LevelsFrom(levels, 0), hist, end, rest);
    LevelsRead(head + LevelsFrom(levels, 0) + hist + end + rest, head, levels, 0, low, false, hist + end + rest);
  }

  lemma Regrouped(head: Bytes, groups: Bytes, hist: Bytes, end: Bytes, rest: Bytes)
    requires |head| == 2
    ensures var b := head + groups + hist + end + rest;
      b == head + groups + (hist + end + rest) && b[1] == head[1]
  {
  }

  lemma SmallByte(b: bv8)
    ensures b as nat < 16 <==> b < 16
  {
  }

  lemma FirstChecksAre(levels: seq<Level>)
    requires levels != []
    ensures FirstGroupOk(FoundFrom(levels, 0)) <==> FirstOk(levels)
  {
    hide FS_TABLE, Nibble;
    if levels[0].ta.Some? { ClockRate(levels[0].ta.value); }
    assert FoundFrom(levels, 0)[0] == Found(levels, 0);
  }

  // What follows the groups.
  lemma LaidFinished(ts: bv8, t0: bv8, groups: Bytes, hist: Bytes, tck: Option<bv8>, rest: Bytes, found: seq<Group>)
    requires Low(t0) == |hist|
    ensures var atr := [ts, t0] + groups + hist + (if tck.Some? then [tck.value] else []);
      Finished(atr + rest, found, 1 + |groups|, tck.Some?)
        == if FirstGroupOk(found) then Ok(ATR(ts, t0, found, hist, tck, |atr|)) else Malformed
  {
    hide Low, FirstGroupOk;
    var atr := [ts, t0] + groups + hist + (if tck.Some? then [tck.value] else []);
    assert (atr + rest)[2 + |groups|..2 + |groups| + |hist|] == hist;
  }

  /** Decoding a byte of an inverse-convention card turns the eight bits over and
      round: each is the complement of the one in the opposite place. */
  lemma InverseBits(a: bv8)
    ensures Inverse(a) & 0x80 == 0 <==> a & 0x01 != 0
    ensures Inverse(a) & 0x40 == 0 <==> a & 0x02 != 0
    ensures Inverse(a) & 0x20 == 0 <==> a & 0x04 != 0
    ensures Inverse(a) & 0x10 == 0 <==> a & 0x08 != 0
    ensures Inverse(a) & 0x08 == 0 <==> a & 0x10 != 0
    ensures Inverse(a) & 0x04 == 0 <==> a & 0x20 != 0
    ensures Inverse(a) & 0x02 == 0 <==> a & 0x40 != 0
    ensures Inverse(a) & 0x01 == 0 <==> a & 0x80 != 0
  {
  }

  /** A card of the inverse convention sends the same bytes turned over; its ATR is
      read as the one in the direct convention. */
  lemma InverseParses(atr: Bytes)
    requires atr != [] && atr[0] == 0x3F
    ensures Parse(seq(|atr|, i requires 0 <= i < |atr| => Inverse(atr[i]))) == Parse(atr)
  {
    var sent := seq(|atr|, i requires 0 <= i < |atr| => Inverse(atr[i]));
    InverseTS();
    assert Inverse(0x3F) == 0x03;
    forall i | 0 <= i < |atr|
      ensures Decoded(sent)[i] == atr[i]
    {
      InverseTwice(atr[i]);
    }
    hide Inverse, ParseDirect;
    assert Decoded(sent) == atr == Decoded(atr);
  }

  // ------------------------------------------------- the rows of the table

  // The position and the announcing byte of the k-th group, if the input
  // announces that many and has the bytes of those before it.
  function GroupStart(b: Bytes, k: nat): (r: Option<(nat, bv8)>)
    ensures r.Some? ==> 1 <= r.value.0 < |b|
  {
    if |b| < 2 then None
    else if k == 0 then Some((1, b[1]))
    else
      match GroupStart(b, k - 1)
      case None => None
      case Some((p, td)) =>
        if p + Count(td) >= |b| || !HasD(td) then None else Some((p + Count(td), b[p + Count(td)]))
  }

  predicate HasGroup(b: Bytes, k: nat) {
    GroupStart(b, k).Some? && GroupStart(b, k).value.0 + Count(GroupStart(b, k).value.1) < |b|
  }

  lemma {:induction false} OverrunFrom(b: Bytes, k: nat, tck: bool)
    requires k <= MAX_PROTOCOLS && GroupStart(b, k).Some?
    ensures var (p, td) := GroupStart(b, k).value;
      ParseGroups(b, p, td, k, tck).GroupsOverrun? <==> HasGroup(b, MAX_PROTOCOLS)
    decreases MAX_PROTOCOLS - k
  {
    hide Count, HasA, HasB, HasC, HasD, Low;
    var (p, td) := GroupStart(b, k).value;
    HasMore(td);
    if k < MAX_PROTOCOLS {
      if p + Count(td) < |b| && HasD(td) {
        OverrunFrom(b, k + 1, Low(b[p + Count(td)]) != 0);
      } else {
        NoGroupsAfter(b, k, MAX_PROTOCOLS);
      }
    }
  }

  lemma {:induction false} NoGroupsAfter(b: Bytes, k: nat, n: nat)
    requires k < n && GroupStart(b, k + 1).None?
    ensures GroupStart(b, n).None?
    decreases n
  {
    if n > k + 1 { NoGroupsAfter(b, k, n - 1); }
  }

  /** The parser leaves its table of seven groups exactly on inputs with an
      eighth group. */
  lemma OverrunIff(input: Bytes)
    ensures Parse(input) == Overrun <==> HasGroup(Decoded(input), MAX_PROTOCOLS)
  {
    var b := Decoded(input);
    if |b| >= 2 {
      hide Decoded, ParseDirect, ParseGroups, Count;
      NoOverrun(b);
      OverrunFrom(b, 0, false);
    } else {
      NoGroups(b, MAX_PROTOCOLS);
    }
  }

  // Interface bytes that announce one more byte each.
  function Endless(n: nat): (b: Bytes)
    ensures |b| == n + 1 && b[0] == 0x3B && forall i :: 1 <= i <= n ==> b[i] == 0x80
  {
    [0x3B] + seq(n, _ => 0x80)
  }

  lemma EachOne()
    ensures Count(0x80) == 1 && HasD(0x80)
  {
  }

  lemma {:induction false} EndlessStart(n: nat, k: nat)
    requires k < n
    ensures GroupStart(Endless(n), k).Some? && GroupStart(Endless(n), k).value == (k + 1, 0x80)
  {
    hide Count, HasD, Endless;
    EachOne();
    if k > 0 { EndlessStart(n, k - 1); }
  }

  /** Such inputs exist within the 33 bytes of an answer to reset: from ten
      bytes on. */
  lemma OverrunExists(n: nat)
    requires 9 <= n < MAX_SIZE
    ensures |Endless(n)| <= MAX_SIZE && Parse(Endless(n)) == Overrun
  {
    hide Parse, Count, Endless;
    var b := Endless(n);
    EachOne();
    EndlessStart(n, MAX_PROTOCOLS);
    OverrunIff(b);
    assert Decoded(b) == b;
  }

  lemma NoGroups(b: Bytes, k: nat)
    requires |b| < 2
    ensures GroupStart(b, k).None?
  {
  }

  // ------------------------------------------------------------ the program

  // A byte that may be absent.
  datatype Cell = Cell(value: bv8, present: bool) {
    function Seen(): Option<bv8> {
      if present then Some(value) else None
    }
  }

  function GroupOf(ta: Cell, tb: Cell, tc: Cell, td: Cell): Group {
    Group(ta.Seen(), tb.Seen(), tc.Seen(), td.Seen())
  }

  datatype Status = OK | MALFORMED

  class AtrData {
    var length: nat
    var ts: bv8
    var t0: bv8
    const ib: array2<Cell>
    var tck: Cell
    var pn: nat
    const hb: array<bv8>
    var hbn: nat

    ghost predicate Valid()
    {
      ib.Length0 == MAX_PROTOCOLS && ib.Length1 == 4 && hb.Length == 15
    }

    ghost function Row(i: nat): Group
      requires Valid() && i < MAX_PROTOCOLS
      reads ib
    {
      GroupOf(ib[i, 0], ib[i, 1], ib[i, 2], ib[i, 3])
    }

    ghost function Rows(n: nat): (r: seq<Group>)
      requires Valid() && n <= MAX_PROTOCOLS
      reads ib
      ensures |r| == n && forall i :: 0 <= i < n ==> r[i] == Row(i)
    {
      if n == 0 then [] else Rows(n - 1) + [Row(n - 1)]
    }

    // The observable contents.
    ghost function Contents(): ATR
      requires Valid() && pn <= MAX_PROTOCOLS && hbn <= 15
      reads this, ib, hb
    {
      ATR(ts, t0, Rows(pn), hb[..hbn], tck.Seen(), length)
    }

    constructor ()
      ensures Valid() && fresh(ib) && fresh(hb)
    {
      ib := new Cell[MAX_PROTOCOLS, 4]((i, j) => Cell(0, false));
      hb := new bv8[15](_ => 0);
      length, ts, t0, pn, hbn := 0, 0, 0, 0, 0;
      tck := Cell(0, false);
    }

    // One entry of a row: the next byte if it is announced.
    method StoreByte(row: nat, col: nat, has: bool, buffer: array<bv8>, p: nat) returns (q: nat)
      requires Valid() && row < MAX_PROTOCOLS && col < 4 && buffer != hb
      requires has ==> p + 1 < buffer.Length
      modifies ib
      ensures q == p + Bit(has)
      ensures ib[row, col].Seen() == if has then Some(buffer[q]) else None
      ensures forall i, j :: 0 <= i < MAX_PROTOCOLS && 0 <= j < 4 && (i != row || j != col) ==>
        ib[i, j] == old(ib[i, j])
    {
      q := p;
      if has {
        q := q + 1;
        ib[row, col] := Cell(buffer[q], true);
      } else {
        ib[row, col] := ib[row, col].(present := false);
      }
    }

    // The interface bytes of one group into its row.
    method StoreGroup(buffer: array<bv8>, length: nat, p: nat, td: bv8, row: nat) returns (q: nat)
      requires Valid() && row < MAX_PROTOCOLS && buffer != hb && length <= buffer.Length && p + Count(td) < length
      modifies ib
      ensures q == p + Count(td) && Row(row) == GroupAt(buffer[..length], p, td)
      ensures forall i :: 0 <= i < MAX_PROTOCOLS && i != row ==> Row(i) == old(Row(i))
    {
      hide HasA, HasB, HasC, HasD;
      q := StoreByte(row, 0, HasA(td), buffer, p);
      q := StoreByte(row, 1, HasB(td), buffer, q);
      q := StoreByte(row, 2, HasC(td), buffer, q);
      q := StoreByte(row, 3, HasD(td), buffer, q);
    }

    // The bytes in the direct convention.
    method Decode(input: Bytes, buffer: array<bv8>)
      requires 2 <= |input| <= buffer.Length
      modifies buffer
      ensures buffer[..|input|] == Decoded(input)
    {
      hide Inverse;
      if input[0] == 0x03 {
        var pointer := 0;
        while pointer < |input|
          invariant pointer <= |input|
          invariant forall k :: 0 <= k < pointer ==> buffer[k] == Inverse(input[k])
        {
          buffer[pointer] := Inverse(input[pointer]);
          pointer := pointer + 1;
        }
      } else {
        forall k | 0 <= k < |input| { buffer[k] := input[k]; }
      }
    }

    // One round of the loop: the group at p into the next row, if its bytes are there.
    method ReadGroup(buffer: array<bv8>, length: nat, p: nat, td: bv8, rows: nat, ghost all: Groups)
        returns (enough: bool, q: nat)
      requires Valid() && buffer != hb && length <= buffer.Length && rows <= MAX_PROTOCOLS
      requires Continued(all, Rows(rows), ParseGroups(buffer[..length], p, td, rows, tck.present))
        && !all.GroupsOverrun?
      modifies ib
      ensures enough <==> p + Count(td) < length
      ensures !enough ==> all.BadGroups?
      ensures enough ==> rows < MAX_PROTOCOLS && q == p + Count(td)
      ensures enough && HasD(td) ==>
        q > p && Continued(all, Rows(rows + 1),
                           ParseGroups(buffer[..length], q, buffer[q], rows + 1, Low(buffer[q]) != 0))
      ensures enough && !HasD(td) ==> all == Groups(Rows(rows + 1), q, tck.present)
    {
      hide Count, Low, GroupAt, HasA, HasB, HasC, HasD, NumIb, ParseGroups, Row;
      ghost var b, done := buffer[..length], Rows(rows);
      TableCounts(td);
      if p + NumIb(td) >= length {
        NoBytesLeft(b, p, td, rows, tck.present);
        return false, p;
      }
      RowFree(b, p, td, rows, tck.present, all, done);
      q := StoreGroup(buffer, length, p, td, rows);
      enough := true;
      assert Rows(rows) == done;
      assert Rows(rows + 1) == done + [GroupAt(b, p, td)];
      GroupStored(b, p, td, rows, tck.present, all, done);
    }

    // The loop over the groups; rows is their number minus one.
    method ReadGroups(buffer: array<bv8>, length: nat) returns (ok: bool, pointer: nat, rows: nat)
      requires Valid() && buffer != hb && 2 <= length <= buffer.Length && !tck.present
      requires !ParseGroups(buffer[..length], 1, buffer[1], 0, false).GroupsOverrun?
      modifies ib, this`tck
      ensures var r := ParseGroups(buffer[..length], 1, buffer[1], 0, false);
        && ok == r.Groups?
        && (ok ==> rows < MAX_PROTOCOLS && r == Groups(Rows(rows + 1), pointer, tck.present))
    {
      hide Count, Low, GroupAt, HasA, HasB, HasC, HasD, ParseGroups, Row;
      ghost var all := ParseGroups(buffer[..length], 1, buffer[1], 0, false);
      var td := buffer[1];
      var more := true;
      ok, pointer, rows := false, 1, 0;
      StartsWith(all);
      while pointer < length
        invariant !ok && 1 <= pointer < length && rows <= MAX_PROTOCOLS
        invariant Continued(all, Rows(rows), ParseGroups(buffer[..length], pointer, td, rows, tck.present))
        decreases length - pointer
      {
        more, pointer := ReadGroup(buffer, length, pointer, td, rows, all);
        if !more {
          return;
        }
        if HasD(td) {
          // The guard of the code at this point compares the row just filled with
          // the number of rows, so it never holds here.
          td := buffer[pointer];
          tck := tck.(present := Low(td) != 0);
          rows := rows + 1;
        } else {
          ok := true;
          return;
        }
      }
    }

    // The historical bytes, the check byte and the length; p is the position of
    // the last interface byte.
    method StoreRest(buffer: array<bv8>, length: nat, p: nat) returns (ok: bool)
      requires Valid() && buffer != hb && p < length <= buffer.Length && hbn <= 15
      modifies hb, this`tck, this`length
      ensures var q := p + hbn;
        && ok == (q + Bit(tck.present) < length)
        && tck.present == old(tck.present)
        && (ok ==>
              && hb[..hbn] == buffer[p + 1..q + 1]
              && tck.Seen() == (if tck.present then Some(buffer[q + 1]) else None)
              && this.length == q + Bit(tck.present) + 1)
    {
      var pointer := p;
      if pointer + hbn >= length {
        return false;
      }
      forall k | 0 <= k < hbn { hb[k] := buffer[pointer + 1 + k]; }
      assert hb[..hbn] == buffer[p + 1..p + 1 + hbn];
      pointer := pointer + hbn;
      if tck.present {
        if pointer + 1 >= length {
          return false;
        }
        pointer := pointer + 1;
        tck := tck.(value := buffer[pointer]);
      }
      this.length := pointer + 1;
      return true;
    }

    // The checks of TA1 and TB1, made when there is one group.
    method FirstChecks() returns (ok: bool)
      requires Valid() && 1 <= pn <= MAX_PROTOCOLS
      ensures ok == FirstGroupOk(Rows(pn))
    {
      hide Nibble;
      ghost var rows := Rows(pn);
      assert rows[0] == Row(0);
      if pn == 1 && ib[0, 0].present {
        if FS_TABLE[Nibble(ib[0, 0].value)] == 0 {
          return false;
        }
      }
      if pn == 1 && ib[0, 1].present {
        if ib[0, 1].value > 0x80 {
          return false;
        }
      }
      return true;
    }

    /** ATR_InitFromArray, on every input that does not announce an eighth group. */
    method InitFromArray(input: Bytes) returns (status: Status)
      requires Valid() && |input| <= MAX_SIZE && Parse(input) != Overrun
      modifies this, ib, hb
      ensures status == OK <==> Parse(input).Ok?
      ensures status == OK ==> pn <= MAX_PROTOCOLS && hbn <= 15 && Contents() == Parse(input).atr
    {
      hide Decoded, ParseGroups, FirstGroupOk, Low, Row;
      if |input| < 2 {
        return MALFORMED;
      }
      status := Fill(input);
    }

    method Fill(input: Bytes) returns (status: Status)
      requires Valid() && 2 <= |input| <= MAX_SIZE && Parse(input) != Overrun
      modifies this, ib, hb
      ensures status == OK <==> Parse(input).Ok?
      ensures status == OK ==> pn <= MAX_PROTOCOLS && hbn <= 15 && Contents() == Parse(input).atr
    {
      hide Decoded, ParseGroups, FirstGroupOk, Low, Row, Rows, ParseDirect, Finished;
      var buffer := new bv8[MAX_SIZE](_ => 0);
      Decode(input, buffer);
      ghost var b := buffer[..|input|];
      ParsedIs(b, ParseGroups(b, 1, b[1], 0, false));
      NoOverrun(b);
      ts := buffer[0];
      t0 := buffer[1];
      hbn := Low(t0);
      tck := tck.(present := false);
      var ok, pointer, rows := ReadGroups(buffer, |input|);
      if !ok {
        return MALFORMED;
      }
      pn := rows + 1;
      ok := Finish(buffer, |input|, pointer);
      if !ok {
        return MALFORMED;
      }
      return OK;
    }

    // What follows the groups, and the checks of the first one.
    method Finish(buffer: array<bv8>, length: nat, p: nat) returns (ok: bool)
      requires Valid() && buffer != hb && 2 <= length <= buffer.Length && p < length && 1 <= pn <= MAX_PROTOCOLS
      requires ts == buffer[0] && t0 == buffer[1] && hbn == Low(t0)
      modifies hb, this`tck, this`length
      ensures var r := Finished(buffer[..length], old(Rows(pn)), p, old(tck.present));
        ok == r.Ok? && (ok ==> Contents() == r.atr)
    {
      hide FirstGroupOk, Row, Rows, Low;
      ghost var b, rows := buffer[..length], Rows(pn);
      ok := StoreRest(buffer, length, p);
      assert Rows(pn) == rows;
      if !ok {
        return false;
      }
      ghost var q := p + hbn;
      SliceOfCut(buffer[..], length, p + 1, q + 1);
      assert b == buffer[..][..length] && buffer[p + 1..q + 1] == buffer[..][p + 1..q + 1];
      ok := FirstChecks();
    }

    // One byte to the output, if it is present.
    method PutByte(buffer: array<bv8>, j: nat, cell: Cell) returns (k: nat)
      requires buffer != hb && j + Bit(cell.present) <= buffer.Length
      modifies buffer
      ensures k == j + Bit(cell.present) && buffer[..k] == old(buffer[..j]) + ByteOf(cell.Seen())
    {
      k := j;
      if cell.present {
        buffer[k] := cell.value;
        k := k + 1;
      }
    }

    method PutRow(buffer: array<bv8>, j: nat, i: nat) returns (k: nat)
      requires Valid() && buffer != hb && i < MAX_PROTOCOLS && j + |GroupBytes(Row(i))| <= buffer.Length
      modifies buffer
      ensures k == j + |GroupBytes(Row(i))| && buffer[..k] == old(buffer[..j]) + GroupBytes(Row(i))
    {
      hide ByteOf;
      ghost var g, start := Row(i), buffer[..j];
      k := PutByte(buffer, j, ib[i, 0]);
      k := PutByte(buffer, k, ib[i, 1]);
      k := PutByte(buffer, k, ib[i, 2]);
      k := PutByte(buffer, k, ib[i, 3]);
      assert buffer[..k] == start + ByteOf(g.ta) + ByteOf(g.tb) + ByteOf(g.tc) + ByteOf(g.td);
      FourAssociate(start, ByteOf(g.ta), ByteOf(g.tb), ByteOf(g.tc), ByteOf(g.td));
    }

    // The interface bytes of all rows.
    method PutRows(buffer: array<bv8>) returns (j: nat)
      requires Valid() && buffer != hb && pn <= MAX_PROTOCOLS && 2 + |GroupsBytes(Rows(pn))| <= buffer.Length
      modifies buffer
      ensures j == 2 + |GroupsBytes(Rows(pn))| && buffer[..j] == old(buffer[..2]) + GroupsBytes(Rows(pn))
    {
      hide Row, GroupBytes, GroupsBytes;
      ghost var rows, start := Rows(pn), buffer[..2];
      j := 2;
      var i := 0;
      ghost var done := [];
      assert rows[0..] == rows && [] + GroupsBytes(rows) == GroupsBytes(rows);
      while i < pn
        invariant i <= pn && j == 2 + |done| <= buffer.Length && Rows(pn) == rows
        invariant buffer[..j] == start + done
        invariant GroupsBytes(rows) == done + GroupsBytes(rows[i..])
      {
        RowsBytes(rows, i, done);
        Associates(start, done, GroupBytes(rows[i]));
        j := PutRow(buffer, j, i);
        done := done + GroupBytes(rows[i]);
        i := i + 1;
      }
      assert rows[i..] == [];
      NoRows(done);
    }

    /** ATR_GetRaw, into a buffer that is large enough. */
    method GetRaw(buffer: array<bv8>) returns (length: nat)
      requires Valid() && buffer != hb && pn <= MAX_PROTOCOLS && hbn <= 15 && |Raw(Contents())| <= buffer.Length
      modifies buffer
      ensures length <= buffer.Length && buffer[..length] == Raw(Contents())
    {
      hide Row, GroupBytes, GroupsBytes, Rows, ByteOf;
      buffer[0] := ts;
      buffer[1] := t0;
      assert buffer[..2] == [ts, t0];
      var j := PutRows(buffer);
      ghost var start := buffer[..j];
      if hbn > 0 {
        forall k | 0 <= k < hbn { buffer[j + k] := hb[k]; }
        j := j + hbn;
      }
      assert buffer[..j] == start + hb[..hbn];
      j := PutByte(buffer, j, tck);
      length := j;
    }
  }

  lemma RowsBytes(rows: seq<Group>, i: nat, done: Bytes)
    requires i < |rows| && GroupsBytes(rows) == done + GroupsBytes(rows[i..])
    ensures GroupsBytes(rows) == done + GroupBytes(rows[i]) + GroupsBytes(rows[i + 1..])
  {
    hide GroupBytes, GroupsBytes;
    assert rows[i..] == [rows[i]] + rows[i + 1..];
    GroupsBytesCons(rows[i], rows[i + 1..]);
    Associates(done, GroupBytes(rows[i]), GroupsBytes(rows[i + 1..]));
  }

  lemma FourAssociate(s: Bytes, a: Bytes, b: Bytes, c: Bytes, d: Bytes)
    ensures s + a + b + c + d == s + (a + b + c + d)
  {
  }

  lemma Associates(a: Bytes, b: Bytes, c: Bytes)
    ensures a + (b + c) == a + b + c
  {
  }

  lemma NoRows(done: Bytes)
    ensures done + GroupsBytes([]) == done
  {
  }

  lemma StartsWith(all: Groups)
    ensures Continued(all, [], all)
  {
    if all.Groups? { assert [] + all.groups == all.groups; }
  }

  lemma GroupStored(b: Bytes, p: nat, td: bv8, pn: nat, tck: bool, all: Groups, done: seq<Group>)
    requires p + Count(td) < |b| && pn < MAX_PROTOCOLS && Continued(all, done, ParseGroups(b, p, td, pn, tck))
    ensures var g, q := GroupAt(b, p, td), p + Count(td);
      if HasD(td) then q > p && Continued(all, done + [g], ParseGroups(b, q, b[q], pn + 1, Low(b[q]) != 0))
      else all == Groups(done + [g], q, tck)
  {
    hide Count, Low, GroupAt, HasA, HasB, HasC, HasD, ParseGroups, Continued;
    var g, q := GroupAt(b, p, td), p + Count(td);
    if HasD(td) {
      NextGroup(b, p, td, pn, tck);
      ContinuedTwice(all, done, ParseGroups(b, p, td, pn, tck), g, ParseGroups(b, q, b[q], pn + 1, Low(b[q]) != 0));
    } else {
      LastGroup(b, p, td, pn, tck);
      ContinuedLast(all, done, g, q, tck);
    }
  }

  lemma ContinuedLast(all: Groups, done: seq<Group>, g: Group, q: nat, tck: bool)
    requires Continued(all, done, Groups([g], q, tck))
    ensures all == Groups(done + [g], q, tck)
  {
  }

  // Without an eighth group there is a row for the next one.
  lemma RowFree(b: Bytes, p: nat, td: bv8, pn: nat, tck: bool, all: Groups, done: seq<Group>)
    requires Continued(all, done, ParseGroups(b, p, td, pn, tck)) && !all.GroupsOverrun? && p + Count(td) < |b|
    ensures pn < MAX_PROTOCOLS
  {
    hide Count, HasA, HasB, HasC, HasD, Low;
  }

  lemma NoBytesLeft(b: Bytes, p: nat, td: bv8, pn: nat, tck: bool)
    requires p + Count(td) >= |b|
    ensures ParseGroups(b, p, td, pn, tck).BadGroups?
  {
    hide Count;
  }

  lemma ContinuedTwice(all: Groups, done: seq<Group>, rest: Groups, g: Group, rest': Groups)
    requires Continued(all, done, rest) && Continued(rest, [g], rest')
    ensures Continued(all, done + [g], rest')
  {
    if rest'.Groups? {
      assert done + ([g] + rest'.groups) == done + [g] + rest'.groups;
    }
  }
}

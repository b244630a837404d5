/** The walk of cdk/dep-graph.py on graphs whose lists may name a dependency more
    than once: exactly when it ends, and what it then does. The proof runs it
    beside the walk on the same graph without the repetitions. */
module DepDuplicates {
  import opened DepGraph

  predicate Twice(s: seq<Target>, v: Target) {
    exists i, j :: 0 <= i < j < |s| && s[i] == v && s[j] == v
  }

  // The first occurrences of the elements that are not in `seen`.
  function First(s: seq<Target>, seen: set<Target>): (r: seq<Target>)
    ensures NoDup(r)
    ensures forall v :: v in r <==> v in s && v !in seen
  {
    if s == [] then []
    else
      assert s == [s[0]] + s[1..];
      if s[0] in seen then First(s[1..], seen)
      else [s[0]] + First(s[1..], seen + {s[0]})
  }

  /** Every list without its repetitions. */
  function Dedup(g: Graph): (r: Graph)
    ensures DupFree(r) && r.Keys == g.Keys
  {
    map u | u in g :: First(g[u], {})
  }

  lemma EdgesOfDedup(g: Graph)
    ensures Edges(Dedup(g)) == Edges(g)
  {
    forall u, v
      ensures (u, v) in Edges(Dedup(g)) <==> (u, v) in Edges(g)
    {
      if u in g {
        assert v in First(g[u], {}) <==> v in g[u];
        assert (u, v) in Edges(g) <==> v in g[u];
        assert (u, v) in Edges(Dedup(g)) <==> v in Dedup(g)[u];
      }
    }
  }

  lemma {:induction false} FirstOfNoDup(s: seq<Target>, seen: set<Target>)
    requires NoDup(s) && forall v :: v in s ==> v !in seen
    ensures First(s, seen) == s
  {
    if s != [] {
      assert s == [s[0]] + s[1..];
      FirstOfNoDup(s[1..], seen + {s[0]});
    }
  }

  /** Without repetitions nothing changes. */
  lemma DedupOfDupFree(g: Graph)
    requires DupFree(g)
    ensures Dedup(g) == g
  {
    forall u | u in g ensures Dedup(g)[u] == g[u] {
      FirstOfNoDup(g[u], {});
    }
  }

  // ------------------------------------------------------------ single lists

  lemma {:induction false} IndexFirst(s: seq<Target>, k: nat)
    requires k < |s| && s[k] !in s[..k]
    ensures IndexOf(s, s[k]) == k
  {
    if k > 0 {
      assert s[..k][0] == s[0] && s[..k][1..] == s[1..][..k - 1];
      IndexFirst(s[1..], k - 1);
    }
  }

  lemma RemoveFirstAt(s: seq<Target>, k: nat)
    requires k < |s| && s[k] !in s[..k]
    ensures RemoveFirst(s, s[k]) == s[..k] + s[k + 1..]
  {
    IndexFirst(s, k);
  }

  lemma RemoveFirstLater(a: seq<Target>, b: seq<Target>, x: Target)
    requires x in a
    ensures RemoveFirst(a + b, x) == RemoveFirst(a, x) + b
  {
    var k := IndexOf(a, x);
    hide IndexOf, RemoveFirst;
    assert (a + b)[..k] == a[..k] && (a + b)[k] == x;
    RemoveFirstAt(a, k);
    RemoveFirstAt(a + b, k);
    assert (a + b)[k + 1..] == a[k + 1..] + b;
  }

  lemma DropAddsNothing(s: seq<Target>, k: nat, v: Target)
    requires k < |s| && Twice(s[..k] + s[k + 1..], v)
    ensures Twice(s, v)
  {
    var r := s[..k] + s[k + 1..];
    var i, j :| 0 <= i < j < |r| && r[i] == v && r[j] == v;
    var i', j' := if i < k then i else i + 1, if j < k then j else j + 1;
    assert s[i'] == v && s[j'] == v;
  }

  lemma DropKeepsTwice(s: seq<Target>, k: nat, v: Target)
    requires k < |s|
    ensures s[k] != v && Twice(s, v) ==> Twice(s[..k] + s[k + 1..], v)
  {
    var r := s[..k] + s[k + 1..];
    if s[k] != v && Twice(s, v) {
      var i, j :| 0 <= i < j < |s| && s[i] == v && s[j] == v;
      var i', j' := if i < k then i else i - 1, if j < k then j else j - 1;
      assert r[i'] == v && r[j'] == v;
    }
  }

  lemma RemoveKeepsTwice(s: seq<Target>, x: Target, v: Target)
    requires x in s
    ensures Twice(RemoveFirst(s, x), v) ==> Twice(s, v)
    ensures x != v && Twice(s, v) ==> Twice(RemoveFirst(s, x), v)
  {
    var k := IndexOf(s, x);
    hide IndexOf;
    DropKeepsTwice(s, k, v);
    if Twice(RemoveFirst(s, x), v) { DropAddsNothing(s, k, v); }
  }

  function Elements(s: seq<Target>): set<Target> {
    set v | v in s
  }

  /** The list a of target x in the walk, of which k entries are passed, and the
      list b in the walk without repetitions, of which l are passed: the passed
      entries are the same, except that x itself may be missing in a; what is
      ahead in b are the new entries ahead in a. Entries in `cut` were removed. */
  ghost predicate Beside(x: Target, a: seq<Target>, k: nat, b: seq<Target>, l: nat, cut: set<Target>) {
    && k <= |a| && l <= |b| && NoDup(b)
    && (a[..k] == b[..l] || (x in b[..l] && a[..k] == RemoveFirst(b[..l], x)))
    && b[l..] == First(a[k..], Elements(b[..l]) + cut)
  }

  lemma PassedSame(x: Target, a: seq<Target>, k: nat, b: seq<Target>, l: nat, cut: set<Target>)
    requires Beside(x, a, k, b, l, cut)
    ensures forall v :: v in a[..k] ==> v in b[..l]
    ensures forall v :: v in b[..l] && v != x ==> v in a[..k]
    ensures NoDup(a[..k])
  {
    assert NoDup(b[..l]);
  }

  lemma FirstStep(s: seq<Target>, k: nat, seen: set<Target>)
    requires k < |s|
    ensures First(s[k..], seen)
      == if s[k] in seen then First(s[k + 1..], seen) else [s[k]] + First(s[k + 1..], seen + {s[k]})
  {
    assert s[k..][0] == s[k] && s[k..][1..] == s[k + 1..];
  }

  // At the end of a, b is at its end.
  lemma BesideEnd(x: Target, a: seq<Target>, k: nat, b: seq<Target>, l: nat, cut: set<Target>)
    requires Beside(x, a, k, b, l, cut) && k == |a|
    ensures l == |b|
  {
    assert a[k..] == [];
    assert |b[l..]| == 0;
  }

  // A new entry is next in both.
  lemma BesideNew(x: Target, a: seq<Target>, k: nat, b: seq<Target>, l: nat, cut: set<Target>)
    requires Beside(x, a, k, b, l, cut) && k < |a| && a[k] !in b[..l] && a[k] !in cut
    ensures l < |b| && b[l] == a[k] && a[k] !in a[..k] && b[l] !in b[..l]
    ensures b[l + 1..] == First(a[k + 1..], Elements(b[..l]) + cut + {a[k]})
  {
    FirstStep(a, k, Elements(b[..l]) + cut);
    PassedSame(x, a, k, b, l, cut);
    assert b[l] == b[l..][0] && b[l + 1..] == b[l..][1..];
  }

  // Both pass it.
  lemma BesidePass(x: Target, a: seq<Target>, k: nat, b: seq<Target>, l: nat, cut: set<Target>)
    requires Beside(x, a, k, b, l, cut) && k < |a| && a[k] !in b[..l] && a[k] !in cut
    ensures Beside(x, a, k + 1, b, l + 1, cut)
  {
    hide IndexOf, RemoveFirst, First, Elements;
    BesideNew(x, a, k, b, l, cut);
    assert a[..k + 1] == a[..k] + [a[k]] && b[..l + 1] == b[..l] + [b[l]];
    if a[..k] != b[..l] { RemoveFirstLater(b[..l], [b[l]], x); }
    OneMoreElement(b[..l], b[l], cut);
  }

  lemma OneMoreElement(s: seq<Target>, v: Target, cut: set<Target>)
    ensures Elements(s + [v]) + cut == Elements(s) + cut + {v}
  {
  }

  lemma DropKeepsNoDup(s: seq<Target>, k: nat)
    requires NoDup(s) && k < |s|
    ensures NoDup(s[..k] + s[k + 1..])
  {
  }

  // Both lose it.
  lemma BesideCut(x: Target, a: seq<Target>, k: nat, b: seq<Target>, l: nat, cut: set<Target>)
    requires Beside(x, a, k, b, l, cut) && k < |a| && a[k] !in b[..l] && a[k] !in cut
    ensures l < |b| && b[l] == a[k]
    ensures Beside(x, RemoveFirst(a, a[k]), k, RemoveFirst(b, b[l]), l, cut + {a[k]})
    ensures RemoveFirst(a, a[k]) == a[..k] + a[k + 1..] && RemoveFirst(b, b[l]) == b[..l] + b[l + 1..]
  {
    hide IndexOf, RemoveFirst, First, Elements;
    BesideNew(x, a, k, b, l, cut);
    RemoveFirstAt(a, k);
    RemoveFirstAt(b, l);
    DropKeepsNoDup(b, l);
    var a', b' := RemoveFirst(a, a[k]), RemoveFirst(b, b[l]);
    assert a'[..k] == a[..k] && a'[k..] == a[k + 1..] && b'[..l] == b[..l] && b'[l..] == b[l + 1..];
    assert Elements(b[..l]) + cut + {a[k]} == Elements(b'[..l]) + (cut + {a[k]});
  }

  // A copy of a removed entry is removed from a as well.
  lemma BesideCopy(x: Target, a: seq<Target>, k: nat, b: seq<Target>, l: nat, cut: set<Target>)
    requires Beside(x, a, k, b, l, cut) && k < |a| && a[k] in Elements(b[..l]) + cut && a[k] !in a[..k]
    ensures RemoveFirst(a, a[k]) == a[..k] + a[k + 1..]
    ensures Beside(x, RemoveFirst(a, a[k]), k, b, l, cut)
  {
    hide IndexOf, RemoveFirst, First, Elements;
    RemoveFirstAt(a, k);
    FirstStep(a, k, Elements(b[..l]) + cut);
    var a' := RemoveFirst(a, a[k]);
    assert a'[..k] == a[..k] && a'[k..] == a[k + 1..];
  }

  // The self entry is still among the passed ones in both lists.
  lemma SelfPassed(x: Target, a: seq<Target>, k: nat, b: seq<Target>, l: nat, cut: set<Target>)
    requires Beside(x, a, k, b, l, cut) && k < |a| && a[k] == x && x in a[..k]
    ensures a[..k] == b[..l] && NoDup(a[..k]) && RemoveFirst(a, x) == RemoveFirst(a[..k], x) + a[k..]
    ensures First(a[k..], Elements(b[..l]) + cut) == First(a[k + 1..], Elements(b[..l]) + cut)
  {
    assert NoDup(b[..l]);
    assert x in b[..l] ==> x !in RemoveFirst(b[..l], x);
    assert a == a[..k] + a[k..];
    RemoveFirstLater(a[..k], a[k..], x);
    FirstStep(a, k, Elements(b[..l]) + cut);
  }

  // A second self entry right behind the first.
  lemma BesideSelfNext(x: Target, a: seq<Target>, k: nat, b: seq<Target>, l: nat, cut: set<Target>)
    requires Beside(x, a, k, b, l, cut) && 0 < k < |a| && a[k] == x == a[k - 1]
    ensures RemoveFirst(a, x) == a[..k] + a[k + 1..] && Beside(x, RemoveFirst(a, x), k, b, l, cut)
    ensures a[k - 1] !in a[..k - 1]
  {
    hide IndexOf, RemoveFirst, First, Elements;
    var p, a' := a[..k], RemoveFirst(a, x);
    assert p[k - 1] == x;
    SelfPassed(x, a, k, b, l, cut);
    LastIsNew(p);
    assert p[..k - 1] == a[..k - 1];
    RemoveFirstAt(p, k - 1);
    SameEntryNext(a, k);
    assert a'[..k] == p && a'[k..] == a[k + 1..];
  }

  lemma LastIsNew(p: seq<Target>)
    requires NoDup(p) && p != []
    ensures p[|p| - 1] !in p[..|p| - 1]
  {
  }

  lemma SameEntryNext(a: seq<Target>, k: nat)
    requires 0 < k < |a| && a[k] == a[k - 1]
    ensures a[..k][..k - 1] + a[..k][k..] + a[k..] == a[..k] + a[k + 1..]
  {
    assert a[..k][k..] == [] && a[..k][..k - 1] == a[..k - 1];
    assert a[k..] == [a[k]] + a[k + 1..] && a[..k] == a[..k - 1] + [a[k]];
  }

  // A second self entry further on: the passed ones lose the first.
  lemma BesideSelfLater(x: Target, a: seq<Target>, k: nat, b: seq<Target>, l: nat, cut: set<Target>)
    requires Beside(x, a, k, b, l, cut) && 0 < k < |a| && a[k] == x && x in a[..k] && a[k - 1] != x
    ensures var a' := RemoveFirst(a, x);
      && k >= 2 && |a'| == |a| - 1 && Beside(x, a', k - 1, b, l, cut)
      && a'[k - 2] == a[k - 1] && a'[k - 2] !in a'[..k - 2] && a'[k - 1..] == a[k..]
  {
    hide IndexOf, RemoveFirst, First, Elements;
    SelfPassed(x, a, k, b, l, cut);
    var p, a' := a[..k], RemoveFirst(a, x);
    assert p[k - 1] == a[k - 1];
    var q := SelfDropped(p, x);
    assert a'[..k - 1] == q && a'[k - 1..] == a[k..];
    assert q[..k - 2] == a'[..k - 2];
  }

  lemma SelfDropped(p: seq<Target>, x: Target) returns (q: seq<Target>)
    requires NoDup(p) && x in p && p[|p| - 1] != x
    ensures |p| >= 2 && q == RemoveFirst(p, x) && |q| == |p| - 1
    ensures q[|p| - 2] == p[|p| - 1] && q[|p| - 2] !in q[..|p| - 2]
  {
    q := RemoveFirst(p, x);
    var i := IndexOf(p, x);
    hide IndexOf;
    LastKept(p, i);
  }

  lemma LastKept(p: seq<Target>, i: nat)
    requires NoDup(p) && i < |p| - 1
    ensures var q := p[..i] + p[i + 1..];
      q[|p| - 2] == p[|p| - 1] && q[|p| - 2] !in q[..|p| - 2]
  {
  }

  // ------------------------------------------------- a walk that never ends

  lemma IndexLeast(s: seq<Target>, i: nat)
    requires i < |s|
    ensures IndexOf(s, s[i]) <= i
  {
    var r := IndexOf(s, s[i]);
    forall j {:trigger s[j]} | 0 <= j < r
      ensures s[j] in s[..r]
    {
      assert s[..r][j] == s[j];
    }
  }

  // After the removal of the entry behind it, the last taken one is still in
  // the list, and not further on.
  lemma LastStays(a: seq<Target>, w: Target)
    requires w in a && IndexOf(a, w) + 1 < |a|
    ensures var r := RemoveFirst(a, a[IndexOf(a, w) + 1]);
      w in r && IndexOf(r, w) <= IndexOf(a, w)
  {
    var k := IndexOf(a, w) + 1;
    hide IndexOf;
    IndexLeast(a, k);
    var at, r := IndexOf(a, a[k]), RemoveFirst(a, a[k]);
    var j := if at < k - 1 then k - 2 else k - 1;
    assert r[j] == w;
    IndexLeast(r, j);
  }

  lemma StepIndexable(c: Config)
    requires Indexable(c)
    ensures Indexable(Step(c))
  {
    hide IndexOf, RemoveFirst;
    if Cuts(c) && c.curr in c.last { LastStays(Children(c.targ, c.curr), c.last[c.curr]); }
  }

  // v is listed twice, and the second entry has not been passed.
  ghost predicate Owed(a: seq<Target>, v: Target, k: nat) {
    exists p, q :: 0 <= p < q < |a| && a[p] == v && a[q] == v && k <= q
  }

  // u is on the stack, with v nowhere above it, and again at most as its own child.
  ghost predicate Above(t: seq<Target>, u: Target, v: Target) {
    exists i :: 0 <= i < |t| && t[i] == u && v !in t[..i] && forall j :: i < j < |t| && t[j] == u ==> j == i + 1
  }

  /** The walk is below a target that lists v twice and kept the first: whenever
      it comes to the second entry it goes down and back to the first. */
  ghost predicate Stuck(c: Config, u: Target, v: Target) {
    && !c.halted && Indexable(c) && u in c.targ && u != v
    && Owed(c.targ[u], v, Taken(c.targ, c.last, u))
    && Above(Trail(c), u, v)
  }

  lemma AboveAtTop(t: seq<Target>, u: Target, v: Target)
    requires t != [] && t[|t| - 1] == u && u != v && Above(t, u, v)
    ensures v !in t[..|t| - 1]
  {
    var i :| 0 <= i < |t| && t[i] == u && v !in t[..i] && forall j :: i < j < |t| && t[j] == u ==> j == i + 1;
    assert t[..|t| - 1] == if i == |t| - 1 then t[..i] else t[..i] + [u];
  }

  lemma AbovePushed(t: seq<Target>, u: Target, v: Target, w: Target)
    requires t != [] && Above(t, u, v) && (w == u ==> w !in t[..|t| - 1])
    ensures Above(t + [w], u, v)
  {
    var i :| 0 <= i < |t| && t[i] == u && v !in t[..i] && forall j :: i < j < |t| && t[j] == u ==> j == i + 1;
    var t' := t + [w];
    assert t'[..i] == t[..i];
    assert i < |t| - 1 ==> t[..|t| - 1][i] == u;
    assert t'[i] == u;
  }

  lemma AbovePopped(t: seq<Target>, u: Target, v: Target)
    requires Above(t, u, v) && t != [] && t[|t| - 1] != u
    ensures |t| > 1 && Above(t[..|t| - 1], u, v)
  {
    var i :| 0 <= i < |t| && t[i] == u && v !in t[..i] && forall j :: i < j < |t| && t[j] == u ==> j == i + 1;
    var t' := t[..|t| - 1];
    assert t'[i] == u && t'[..i] == t[..i];
  }

  lemma OwedDown(a: seq<Target>, v: Target, k: nat)
    requires Owed(a, v, k)
    ensures k < |a| && Owed(a, v, IndexOf(a, a[k]) + 1)
  {
    hide IndexOf;
    var p, q :| 0 <= p < q < |a| && a[p] == v && a[q] == v && k <= q;
    IndexLeast(a, k);
    IndexLeast(a, p);
  }

  lemma OwedCut(a: seq<Target>, v: Target, k: nat, k': nat)
    requires Owed(a, v, k) && k < |a| && a[k] != v && k' <= k
    ensures Owed(RemoveFirst(a, a[k]), v, k')
  {
    hide IndexOf;
    var p, q :| 0 <= p < q < |a| && a[p] == v && a[q] == v && k <= q;
    IndexLeast(a, k);
    var at, r := IndexOf(a, a[k]), RemoveFirst(a, a[k]);
    var p' := if p < at then p else p - 1;
    assert r[p'] == v && r[q - 1] == v;
  }

  lemma StuckAtTop(c: Config, u: Target, v: Target)
    requires Stuck(c, u, v) && c.curr == u
    ensures !Step(c).halted && Stuck(Step(c), u, v)
  {
    var a, k, t := c.targ[u], Taken(c.targ, c.last, u), Trail(c);
    StepIndexable(c);
    LastIn(c, u);
    hide IndexOf, RemoveFirst, Owed, Above, Step, Indexable;
    OwedDown(a, v, k);
    AboveAtTop(t, u, v);
    assert t[..|t| - 1] == c.walk;
    if a[k] in c.walk {
      CutStep(c);
      if u in c.last { LastStays(a, c.last[u]); }
      OwedCut(a, v, k, Taken(Step(c).targ, c.last, u));
      assert Trail(Step(c)) == t;
    } else {
      DownStep(c);
      AbovePushed(t, u, v, a[k]);
      assert Trail(Step(c)) == t + [a[k]];
    }
  }

  lemma StuckBelow(c: Config, u: Target, v: Target)
    requires Stuck(c, u, v) && c.curr != u
    ensures !Step(c).halted && Stuck(Step(c), u, v)
  {
    hide IndexOf, RemoveFirst, Owed;
    StepIndexable(c);
    var t := Trail(c);
    AbovePopped(t, u, v);
    hide Above;
    assert t[..|t| - 1] == c.walk;
    var child, k := Children(c.targ, c.curr), Taken(c.targ, c.last, c.curr);
    if k >= |child| {
      assert Trail(Step(c)) == t[..|t| - 1];
    } else if child[k] in c.walk {
      assert Trail(Step(c)) == t;
    } else {
      InWalk(t, u, v);
      AbovePushed(t, u, v, child[k]);
      assert Trail(Step(c)) == t + [child[k]];
    }
  }

  lemma InWalk(t: seq<Target>, u: Target, v: Target)
    requires Above(t, u, v) && t != [] && t[|t| - 1] != u
    ensures u in t[..|t| - 1]
  {
    var i :| 0 <= i < |t| && t[i] == u && v !in t[..i] && forall j :: i < j < |t| && t[j] == u ==> j == i + 1;
    assert t[..|t| - 1][i] == u;
  }

  lemma {:induction false} IterateOn(c: Config, m: nat, n: nat)
    ensures Iterate(c, m + n) == Iterate(Iterate(c, m), n)
  {
    hide Step;
    if n > 0 { IterateOn(c, m, n - 1); }
  }

  lemma {:induction false} HaltedStays(c: Config, n: nat)
    requires c.halted
    ensures Iterate(c, n) == c
  {
    hide Step;
    if n > 0 { HaltedStays(c, n - 1); }
  }

  lemma {:induction false} StuckForEver(c: Config, u: Target, v: Target, n: nat)
    requires Stuck(c, u, v)
    ensures Stuck(Iterate(c, n), u, v)
  {
    hide Step;
    if n > 0 {
      StuckForEver(c, u, v, n - 1);
      var d := Iterate(c, n - 1);
      if d.curr == u { StuckAtTop(d, u, v); } else { StuckBelow(d, u, v); }
    }
  }

  // ------------------------------------------------ the two walks together

  // A removed edge of an unfinished target leads to a target above it.
  ghost predicate RemovedAbove(t: seq<Target>, h: History) {
    forall e :: e in h.removed && e.0 !in h.rank ==> HasAbove(t, e.0, e.1)
  }

  ghost predicate HasAbove(t: seq<Target>, u: Target, v: Target) {
    exists j :: 0 <= j < |t| && t[j] == u && v in t[..j]
  }

  // What is reported leads to a finished target.
  ghost predicate PrintedDone(h: History) {
    forall e :: e in h.printed ==> e.1 in h.rank
  }

  ghost predicate Extra(c: Config, h: History) {
    RemovedAbove(Trail(c), h) && PrintedDone(h)
  }

  lemma HasAboveMore(t: seq<Target>, w: Target, u: Target, v: Target)
    requires HasAbove(t, u, v)
    ensures HasAbove(t + [w], u, v)
  {
    var j :| 0 <= j < |t| && t[j] == u && v in t[..j];
    assert (t + [w])[..j] == t[..j] && (t + [w])[j] == u;
  }

  lemma HasAboveLess(t: seq<Target>, u: Target, v: Target)
    requires HasAbove(t, u, v) && t != [] && t[|t| - 1] != u
    ensures HasAbove(t[..|t| - 1], u, v)
  {
    var j :| 0 <= j < |t| && t[j] == u && v in t[..j];
    assert t[..|t| - 1][..j] == t[..j] && t[..|t| - 1][j] == u;
  }

  lemma HasAboveTop(t: seq<Target>, u: Target, v: Target)
    requires HasAbove(t, u, v) && t != [] && t[|t| - 1] == u
    ensures v in t[..|t| - 1]
  {
    var j :| 0 <= j < |t| && t[j] == u && v in t[..j];
    assert t[..j] == t[..|t| - 1][..j];
  }

  lemma ExtraStep(c: Config, h: History)
    requires Indexable(c) && Extra(c, h) && !Step(c).halted
    ensures Extra(Step(c), HistStep(c, h))
  {
    hide IndexOf, RemoveFirst, HasAbove, Taken;
    var t, t', h' := Trail(c), Trail(Step(c)), HistStep(c, h);
    var child, k := Children(c.targ, c.curr), Taken(c.targ, c.last, c.curr);
    forall e | e in h'.removed && e.0 !in h'.rank
      ensures HasAbove(t', e.0, e.1)
    {
      if k >= |child| {
        assert t' == t[..|t| - 1];
        HasAboveLess(t, e.0, e.1);
      } else if child[k] in c.walk {
        assert t' == t;
        if e !in h.removed { AtTopAbove(t, e.0, e.1); }
      } else {
        assert t' == t + [child[k]];
        HasAboveMore(t, child[k], e.0, e.1);
      }
    }
  }

  lemma AtTopAbove(t: seq<Target>, u: Target, v: Target)
    requires t != [] && t[|t| - 1] == u && v in t[..|t| - 1]
    ensures HasAbove(t, u, v)
  {
  }

  ghost function CutOf(h: History, x: Target): set<Target> {
    set e | e in h.removed && e.0 == x :: e.1
  }

  // The lists of one target in the two walks; own is its original list.
  ghost predicate Related(x: Target, own: seq<Target>, a: seq<Target>, k: nat, b: seq<Target>, l: nat, cut: set<Target>,
                          done: bool) {
    && Beside(x, a, k, b, l, cut) && (done ==> k == |a|)
    && (forall v :: Twice(a, v) ==> Twice(own, v))
    && (forall v :: v != x && v !in cut && Twice(own, v) ==> Twice(a, v))
  }

  ghost predicate RelatedAt(g: Graph, c: Config, d: Config, h: History, x: Target)
    requires x in g && x in c.targ && x in d.targ && Indexable(c) && Indexable(d)
  {
    Related(x, g[x], c.targ[x], Taken(c.targ, c.last, x), d.targ[x], Taken(d.targ, d.last, x), CutOf(h, x), x in h.rank)
  }

  /** c is the walk on g, d the walk on g without repetitions: they stand at the
      same place, and their lists are related. */
  ghost predicate Sim(g: Graph, start: Target, c: Config, d: Config, h: History) {
    && Inv(Dedup(g), start, d, h) && Extra(d, h)
    && c == d.(targ := c.targ)
    && c.targ.Keys == g.Keys == d.targ.Keys && Indexable(c) && Indexable(d)
    && forall x :: x in g ==> RelatedAt(g, c, d, h, x)
  }

  lemma SimStart(g: Graph, start: Target)
    ensures Sim(g, start, Start(g, start), Start(Dedup(g), start), HistStart(Dedup(g)))
  {
    hide First, Inv, Twice;
    InvStart(Dedup(g), start);
    var h := HistStart(Dedup(g));
    forall x | x in g
      ensures RelatedAt(g, Start(g, start), Start(Dedup(g), start), h, x)
    {
      var a, b := g[x], First(g[x], {});
      assert a[0..] == a && b[0..] == b && a[..0] == b[..0] == [];
      assert Elements([]) + {} == {};
      assert CutOf(h, x) == {};
    }
  }

  // Only the lists of target u are involved in a step.
  lemma SimFrom(g: Graph, start: Target, u: Target, c: Config, d: Config, h: History, c': Config, d': Config,
                h': History)
    requires Sim(g, start, c, d, h)
    requires Inv(Dedup(g), start, d', h') && Extra(d', h') && c' == d'.(targ := c'.targ)
    requires c'.targ.Keys == g.Keys == d'.targ.Keys && Indexable(c') && Indexable(d')
    requires forall x :: x in g && x != u ==>
      && c'.targ[x] == c.targ[x] && d'.targ[x] == d.targ[x]
      && (x in c'.last <==> x in c.last) && (x in c.last ==> c'.last[x] == c.last[x])
      && CutOf(h', x) == CutOf(h, x) && (x in h'.rank <==> x in h.rank)
    requires u in g ==> RelatedAt(g, c', d', h', u)
    ensures Sim(g, start, c', d', h')
  {
    hide Inv, Extra, Related, IndexOf, Taken;
    forall x | x in g
      ensures RelatedAt(g, c', d', h', x)
    {
      if x != u {
        assert RelatedAt(g, c, d, h, x);
        TakenSame(c, c', x);
        TakenSame(d, d', x);
      }
    }
  }

  lemma TakenSame(c: Config, c': Config, x: Target)
    requires Indexable(c) && Indexable(c') && x in c.targ && x in c'.targ && c.targ[x] == c'.targ[x]
    requires (x in c'.last <==> x in c.last) && (x in c.last ==> c'.last[x] == c.last[x])
    ensures Taken(c'.targ, c'.last, x) == Taken(c.targ, c.last, x)
  {
  }

  // The walk would go down a second time to a target it has kept.
  ghost predicate Bad(c: Config, d: Config)
    requires Indexable(c) && Indexable(d)
  {
    var a, k := Children(c.targ, c.curr), Taken(c.targ, c.last, c.curr);
    k < |a| && a[k] != c.curr && a[k] in Children(d.targ, c.curr)[..Taken(d.targ, d.last, c.curr)]
  }

  // The next entry is a copy that has no counterpart without repetitions.
  ghost predicate Copy(c: Config, d: Config, h: History)
    requires Indexable(c) && Indexable(d)
  {
    var a, k := Children(c.targ, c.curr), Taken(c.targ, c.last, c.curr);
    k < |a| && a[k] in Elements(Children(d.targ, c.curr)[..Taken(d.targ, d.last, c.curr)]) + CutOf(h, c.curr)
  }

  lemma CopyAbove(g: Graph, start: Target, c: Config, d: Config, h: History)
    requires Sim(g, start, c, d, h) && !Bad(c, d) && Copy(c, d, h)
    ensures c.curr in g && Children(c.targ, c.curr)[Taken(c.targ, c.last, c.curr)] in c.walk
  {
    var u := c.curr;
    var v := c.targ[u][Taken(c.targ, c.last, u)];
    assert RelatedAt(g, c, d, h, u);
    var t := Trail(d);
    assert t[..|t| - 1] == c.walk && t[|t| - 1] == u && u !in h.rank;
    if v in CutOf(h, u) {
      assert (u, v) in h.removed;
      HasAboveTop(t, u, v);
    } else {
      SelfTaken(g, start, d, h, u);
    }
  }

  // A self entry that was taken: the target is on the stack twice, or finished.
  lemma SelfTaken(g: Graph, start: Target, d: Config, h: History, u: Target)
    requires Inv(Dedup(g), start, d, h) && Extra(d, h) && u in d.targ && Indexable(d) && u !in h.rank && u == d.curr
    requires u in d.targ[u][..Taken(d.targ, d.last, u)]
    ensures u in d.walk
  {
    hide TrailOk, RankOk, RemovedOk, ReachOk, Partition, Untouched, IndexOf;
    var i :| 0 <= i < Taken(d.targ, d.last, u) && d.targ[u][i] == u;
    assert (u, d.targ[u][i]) in h.taken;
    assert OnTrail(Trail(d), (u, u));
    var j :| 0 <= j < |Trail(d)| - 1 && Trail(d)[j] == u && Trail(d)[j + 1] == u;
    assert d.walk[j] == u;
  }

  lemma TakenIs(targ: Graph, last: map<Target, Target>, u: Target, k: nat)
    requires u in targ && k <= |targ[u]|
    requires if k == 0 then u !in last else u in last && targ[u][k - 1] == last[u] && last[u] !in targ[u][..k - 1]
    ensures u in last ==> last[u] in Children(targ, u)
    ensures Taken(targ, last, u) == k
  {
    if k > 0 { IndexFirst(targ[u], k - 1); }
  }

  // Where the last taken child stands.
  lemma LastTaken(targ: Graph, last: map<Target, Target>, u: Target)
    requires u in targ && (u in last ==> last[u] in targ[u])
    ensures var k := Taken(targ, last, u);
      && k <= |targ[u]|
      && if k == 0 then u !in last else u in last && targ[u][k - 1] == last[u] && last[u] !in targ[u][..k - 1]
  {
  }

  // Removing the next entry, or one like it, does not move the walk.
  lemma TakenKept(targ: Graph, last: map<Target, Target>, u: Target, a': seq<Target>)
    requires u in targ && (u in last ==> last[u] in targ[u]) && Taken(targ, last, u) < |targ[u]|
    requires var k := Taken(targ, last, u);
      a' == targ[u][..k] + targ[u][k + 1..]
    ensures u in last ==> last[u] in a'
    ensures Taken(targ[u := a'], last, u) == Taken(targ, last, u)
  {
    hide Taken;
    var k := Taken(targ, last, u);
    LastTaken(targ, last, u);
    assert k > 0 ==> a'[k - 1] == targ[u][k - 1] && a'[..k - 1] == targ[u][..k - 1];
    TakenIs(targ[u := a'], last, u, k);
  }

  lemma RelatedCut(x: Target, own: seq<Target>, a: seq<Target>, v: Target, cut: set<Target>, cut': set<Target>)
    requires v in a && (v == x || v in cut') && cut <= cut'
    requires forall w :: Twice(a, w) ==> Twice(own, w)
    requires forall w :: w != x && w !in cut && Twice(own, w) ==> Twice(a, w)
    ensures forall w :: Twice(RemoveFirst(a, v), w) ==> Twice(own, w)
    ensures forall w :: w != x && w !in cut' && Twice(own, w) ==> Twice(RemoveFirst(a, v), w)
  {
    hide Twice, RemoveFirst;
    forall w
      ensures Twice(RemoveFirst(a, v), w) ==> Twice(a, w)
      ensures v != w && Twice(a, w) ==> Twice(RemoveFirst(a, v), w)
    {
      RemoveKeepsTwice(a, v, w);
    }
  }

  // Passed copies are self entries, or the walk has gone wrong.
  lemma CopyRelated(x: Target, own: seq<Target>, targ: Graph, last: map<Target, Target>, b: seq<Target>, l: nat,
                    cut: set<Target>)
    requires x in targ && (x in last ==> last[x] in targ[x])
    requires Related(x, own, targ[x], Taken(targ, last, x), b, l, cut, false)
    requires var a, k := targ[x], Taken(targ, last, x);
      k < |a| && a[k] in Elements(b[..l]) + cut && (a[k] in b[..l] ==> a[k] == x)
    ensures var a' := RemoveFirst(targ[x], targ[x][Taken(targ, last, x)]);
      && |a'| < |targ[x]| && (x in last ==> last[x] in a')
      && Related(x, own, a', Taken(targ[x := a'], last, x), b, l, cut, false)
  {
    hide Taken, First, Elements, IndexOf, RemoveFirst, Twice;
    var a, k := targ[x], Taken(targ, last, x);
    var v, a' := a[k], RemoveFirst(a, a[k]);
    LastTaken(targ, last, x);
    PassedSame(x, a, k, b, l, cut);
    ElementsHold(b[..l], v);
    RelatedCut(x, own, a, v, cut, cut);
    if v !in a[..k] {
      BesideCopy(x, a, k, b, l, cut);
      TakenKept(targ, last, x, a');
    } else if a[k - 1] == x {
      BesideSelfNext(x, a, k, b, l, cut);
      TakenKept(targ, last, x, a');
    } else {
      BesideSelfLater(x, a, k, b, l, cut);
      TakenIs(targ[x := a'], last, x, k - 1);
    }
  }

  lemma ElementsHold(s: seq<Target>, v: Target)
    ensures v in Elements(s) <==> v in s
  {
  }

  lemma CutStep(c: Config)
    requires Indexable(c) && c.curr in c.targ && Taken(c.targ, c.last, c.curr) < |c.targ[c.curr]|
    requires c.targ[c.curr][Taken(c.targ, c.last, c.curr)] in c.walk
    ensures var a := c.targ[c.curr];
      Step(c) == c.(targ := c.targ[c.curr := RemoveFirst(a, a[Taken(c.targ, c.last, c.curr)])])
  {
    hide IndexOf, RemoveFirst, Taken;
  }

  lemma DownStep(c: Config)
    requires Indexable(c) && c.curr in c.targ && Taken(c.targ, c.last, c.curr) < |c.targ[c.curr]|
    requires c.targ[c.curr][Taken(c.targ, c.last, c.curr)] !in c.walk
    ensures var v := c.targ[c.curr][Taken(c.targ, c.last, c.curr)];
      Step(c) == c.(last := c.last[c.curr := v], walk := c.walk + [c.curr], curr := v)
  {
    hide IndexOf, RemoveFirst, Taken;
  }

  // What the two walks have in common.
  lemma SimFacts(g: Graph, start: Target, c: Config, d: Config, h: History)
    requires Sim(g, start, c, d, h)
    ensures Inv(Dedup(g), start, d, h) && Extra(d, h)
    ensures c == d.(targ := c.targ) && c.targ.Keys == g.Keys == d.targ.Keys && Indexable(c) && Indexable(d)
    ensures c.curr in g ==> RelatedAt(g, c, d, h, c.curr)
  {
  }

  // A copy without a counterpart: only the walk on g moves, and its list shrinks.
  lemma SimCopy(g: Graph, start: Target, c: Config, d: Config, h: History)
    requires Sim(g, start, c, d, h) && Indexable(c) && Indexable(d) && !Bad(c, d) && Copy(c, d, h)
    ensures !Step(c).halted && Sim(g, start, Step(c), d, h)
    ensures c.curr in c.targ && Step(c).curr == c.curr && c.curr in Step(c).targ
      && |Step(c).targ[c.curr]| < |c.targ[c.curr]|
  {
    SimFacts(g, start, c, d, h);
    CopyAbove(g, start, c, d, h);
    hide Sim, Related, Taken, IndexOf, RemoveFirst, Inv, Extra, Elements, Step, CutOf, Indexable;
    var u := c.curr;
    var a, k := c.targ[u], Taken(c.targ, c.last, u);
    var b, l, cut := d.targ[u], Taken(d.targ, d.last, u), CutOf(h, u);
    RelatedUndone(u, g[u], a, k, b, l, cut, u in h.rank);
    ElementsHold(b[..l], a[k]);
    LastIn(c, u);
    CopyRelated(u, g[u], c.targ, c.last, b, l, cut);
    CutStep(c);
    StepIndexable(c);
    hide Bad, Copy;
    SimList(g, start, c, d, h, RemoveFirst(a, a[k]));
  }

  // Only the current list of the walk on g changes.
  lemma SimList(g: Graph, start: Target, c: Config, d: Config, h: History, a': seq<Target>)
    requires Sim(g, start, c, d, h) && c.curr in g && c.curr in c.targ && c.curr in d.targ && Indexable(c)
      && Indexable(d)
    requires var c' := c.(targ := c.targ[c.curr := a']);
      Indexable(c')
      && Related(c.curr, g[c.curr], a', Taken(c'.targ, c'.last, c.curr), d.targ[c.curr], Taken(d.targ, d.last, c.curr),
                 CutOf(h, c.curr), c.curr in h.rank)
    ensures Sim(g, start, c.(targ := c.targ[c.curr := a']), d, h)
  {
    hide Related, IndexOf, Inv, Extra, CutOf, Indexable, Taken;
    var c' := c.(targ := c.targ[c.curr := a']);
    assert c'.targ.Keys == c.targ.Keys;
    assert RelatedAt(g, c', d, h, c.curr);
    hide RelatedAt;
    SimFrom(g, start, c.curr, c, d, h, c', d, h);
  }

  lemma LastIn(c: Config, u: Target)
    requires Indexable(c) && u in c.targ
    ensures u in c.last ==> c.last[u] in c.targ[u]
  {
  }

  lemma RelatedUndone(x: Target, own: seq<Target>, a: seq<Target>, k: nat, b: seq<Target>, l: nat, cut: set<Target>,
                      done: bool)
    requires Related(x, own, a, k, b, l, cut, done) && k < |a|
    ensures !done && Related(x, own, a, k, b, l, cut, false)
  {
    hide Beside, Twice;
  }

  // A new entry above the current target: both walks remove it.
  lemma NewCutLists(x: Target, own: seq<Target>, targ: Graph, targ': Graph, last: map<Target, Target>, cut: set<Target>)
    requires x in targ && x in targ' && (x in last ==> last[x] in targ[x] && last[x] in targ'[x])
    requires var a, k, b, l := targ[x], Taken(targ, last, x), targ'[x], Taken(targ', last, x);
      Related(x, own, a, k, b, l, cut, false) && k < |a| && a[k] !in b[..l] && a[k] !in cut
    ensures var a, k, b, l := targ[x], Taken(targ, last, x), targ'[x], Taken(targ', last, x);
      && l < |b| && b[l] == a[k]
      && var (a', b') := (RemoveFirst(a, a[k]), RemoveFirst(b, a[k]));
      && (x in last ==> last[x] in a' && last[x] in b')
      && Related(x, own, a', Taken(targ[x := a'], last, x), b', Taken(targ'[x := b'], last, x), cut + {a[k]}, false)
  {
    hide Taken, IndexOf, RemoveFirst, Elements, First, Twice, Beside;
    var a, k, b, l := targ[x], Taken(targ, last, x), targ'[x], Taken(targ', last, x);
    BesideCut(x, a, k, b, l, cut);
    RelatedCut(x, own, a, a[k], cut, cut + {a[k]});
    TakenKept(targ, last, x, RemoveFirst(a, a[k]));
    TakenKept(targ', last, x, RemoveFirst(b, a[k]));
  }

  // A new entry that is not above: both walks take it.
  lemma NewDownLists(x: Target, own: seq<Target>, targ: Graph, targ': Graph, last: map<Target, Target>,
                     cut: set<Target>)
    requires x in targ && x in targ' && (x in last ==> last[x] in targ[x] && last[x] in targ'[x])
    requires var a, k, b, l := targ[x], Taken(targ, last, x), targ'[x], Taken(targ', last, x);
      Related(x, own, a, k, b, l, cut, false) && k < |a| && a[k] !in b[..l] && a[k] !in cut
    ensures var a, k, b, l := targ[x], Taken(targ, last, x), targ'[x], Taken(targ', last, x);
      && l < |b| && b[l] == a[k]
      && Related(x, own, a, Taken(targ, last[x := a[k]], x), b, Taken(targ', last[x := a[k]], x), cut, false)
  {
    hide Taken, IndexOf, RemoveFirst, Elements, First, Twice, Beside;
    var a, k, b, l := targ[x], Taken(targ, last, x), targ'[x], Taken(targ', last, x);
    BesideNew(x, a, k, b, l, cut);
    BesidePass(x, a, k, b, l, cut);
    TakenIs(targ, last[x := a[k]], x, k + 1);
    TakenIs(targ', last[x := a[k]], x, l + 1);
  }

  lemma CutOfMore(h: History, h': History, u: Target, v: Target)
    requires h'.removed == h.removed + {(u, v)}
    ensures CutOf(h', u) == CutOf(h, u) + {v}
    ensures forall x :: x != u ==> CutOf(h', x) == CutOf(h, x)
  {
    assert forall w :: w in CutOf(h', u) <==> (u, w) in h'.removed;
    assert forall w :: w in CutOf(h, u) <==> (u, w) in h.removed;
    forall x | x != u
      ensures CutOf(h', x) == CutOf(h, x)
    {
      assert forall w :: w in CutOf(h', x) <==> (x, w) in h'.removed;
      assert forall w :: w in CutOf(h, x) <==> (x, w) in h.removed;
    }
  }

  lemma CutOfSame(h: History, h': History, x: Target)
    requires h'.removed == h.removed
    ensures CutOf(h', x) == CutOf(h, x)
  {
  }

  lemma CutHist(d: Config, h: History)
    requires Indexable(d) && d.curr in d.targ && Taken(d.targ, d.last, d.curr) < |d.targ[d.curr]|
    requires d.targ[d.curr][Taken(d.targ, d.last, d.curr)] in d.walk
    ensures var e := (d.curr, d.targ[d.curr][Taken(d.targ, d.last, d.curr)]);
      HistStep(d, h) == h.(removed := h.removed + {e}, ahead := h.ahead - {e})
  {
    hide Taken, Step;
  }

  lemma DownHist(d: Config, h: History)
    requires Indexable(d) && d.curr in d.targ && Taken(d.targ, d.last, d.curr) < |d.targ[d.curr]|
    requires d.targ[d.curr][Taken(d.targ, d.last, d.curr)] !in d.walk
    ensures var e := (d.curr, d.targ[d.curr][Taken(d.targ, d.last, d.curr)]);
      HistStep(d, h) == h.(taken := h.taken + {e}, ahead := h.ahead - {e})
  {
    hide Taken, Step;
  }

  // What a common step of the two walks keeps for the walk without repetitions.
  lemma StepFacts(g: Graph, start: Target, c: Config, d: Config, h: History)
    requires Sim(g, start, c, d, h) && Indexable(c) && Indexable(d) && !Step(d).halted
    ensures Inv(Dedup(g), start, Step(d), HistStep(d, h)) && Extra(Step(d), HistStep(d, h))
    ensures Indexable(Step(c)) && Indexable(Step(d))
  {
    SimFacts(g, start, c, d, h);
    hide Sim, Inv, Extra, Step, HistStep, Indexable;
    StepInv(Dedup(g), start, d, h);
    ExtraStep(d, h);
    StepIndexable(c);
    StepIndexable(d);
  }

  // Both walks remove an entry.
  lemma SimCutBoth(g: Graph, start: Target, c: Config, d: Config, h: History, h': History, a': seq<Target>,
                   b': seq<Target>)
    requires Sim(g, start, c, d, h) && c.curr in g && c.curr in c.targ && c.curr in d.targ
    requires h'.rank == h.rank && forall x :: x != c.curr ==> CutOf(h', x) == CutOf(h, x)
    requires var c', d' := c.(targ := c.targ[c.curr := a']), d.(targ := d.targ[c.curr := b']);
      && Inv(Dedup(g), start, d', h') && Extra(d', h') && Indexable(c') && Indexable(d')
      && RelatedAt(g, c', d', h', c.curr)
    ensures Sim(g, start, c.(targ := c.targ[c.curr := a']), d.(targ := d.targ[c.curr := b']), h')
  {
    hide IndexOf, RemoveFirst, Inv, Extra, CutOf, Indexable, Taken, RelatedAt;
    var c', d' := c.(targ := c.targ[c.curr := a']), d.(targ := d.targ[c.curr := b']);
    assert c'.targ.Keys == c.targ.Keys && d'.targ.Keys == d.targ.Keys && c' == d'.(targ := c'.targ);
    SimFrom(g, start, c.curr, c, d, h, c', d', h');
  }

  lemma SimNewCut(g: Graph, start: Target, c: Config, d: Config, h: History)
    requires Sim(g, start, c, d, h) && Indexable(c) && Indexable(d) && !Copy(c, d, h) && c.curr in c.targ
    requires var k := Taken(c.targ, c.last, c.curr);
      k < |c.targ[c.curr]| && c.targ[c.curr][k] in c.walk
    ensures !Step(c).halted && !Step(d).halted && Sim(g, start, Step(c), Step(d), HistStep(d, h))
  {
    SimFacts(g, start, c, d, h);
    hide Sim, Related, Taken, IndexOf, RemoveFirst, Inv, Extra, Elements, Step, HistStep, CutOf, Indexable;
    var u := c.curr;
    var a, k, b, l, cut := c.targ[u], Taken(c.targ, c.last, u), d.targ[u], Taken(d.targ, d.last, u), CutOf(h, u);
    var v, h' := a[k], HistStep(d, h);
    RelatedUndone(u, g[u], a, k, b, l, cut, u in h.rank);
    ElementsHold(b[..l], v);
    hide Copy;
    LastIn(c, u);
    LastIn(d, u);
    NewCutLists(u, g[u], c.targ, d.targ, c.last, cut);
    CutStep(c);
    CutStep(d);
    CutHist(d, h);
    CutOfMore(h, h', u, v);
    StepFacts(g, start, c, d, h);
    assert RelatedAt(g, Step(c), Step(d), h', u);
    hide RelatedAt;
    SimCutBoth(g, start, c, d, h, h', RemoveFirst(a, v), RemoveFirst(b, v));
  }

  // Both walks go down.
  lemma SimDownBoth(g: Graph, start: Target, c: Config, d: Config, h: History, c': Config, d': Config, h': History,
                    v: Target)
    requires Sim(g, start, c, d, h) && c.curr in g && c.curr in c.targ && c.curr in d.targ
    requires c' == c.(last := c.last[c.curr := v], walk := c.walk + [c.curr], curr := v)
    requires d' == d.(last := d.last[d.curr := v], walk := d.walk + [d.curr], curr := v)
    requires h' == h.(taken := h.taken + {(d.curr, v)}, ahead := h.ahead - {(d.curr, v)})
    requires Inv(Dedup(g), start, d', h') && Extra(d', h') && Indexable(c') && Indexable(d')
    requires RelatedAt(g, c', d', h', c.curr)
    ensures Sim(g, start, c', d', h')
  {
    SimFacts(g, start, c, d, h);
    hide IndexOf, RemoveFirst, Inv, Extra, CutOf, Indexable, Taken, RelatedAt, Sim;
    forall x | x in g && x != c.curr
      ensures CutOf(h', x) == CutOf(h, x)
    {
      CutOfSame(h, h', x);
    }
    SimFrom(g, start, c.curr, c, d, h, c', d', h');
  }

  lemma SimNewDown(g: Graph, start: Target, c: Config, d: Config, h: History)
    requires Sim(g, start, c, d, h) && Indexable(c) && Indexable(d) && !Copy(c, d, h) && c.curr in c.targ
    requires var k := Taken(c.targ, c.last, c.curr);
      k < |c.targ[c.curr]| && c.targ[c.curr][k] !in c.walk
    ensures !Step(c).halted && !Step(d).halted && Sim(g, start, Step(c), Step(d), HistStep(d, h))
  {
    SimFacts(g, start, c, d, h);
    hide Sim, Related, Taken, IndexOf, RemoveFirst, Inv, Extra, Elements, Step, HistStep, CutOf, Indexable;
    var u := c.curr;
    var a, k, b, l, cut := c.targ[u], Taken(c.targ, c.last, u), d.targ[u], Taken(d.targ, d.last, u), CutOf(h, u);
    var v, h' := a[k], HistStep(d, h);
    RelatedUndone(u, g[u], a, k, b, l, cut, u in h.rank);
    ElementsHold(b[..l], v);
    hide Copy;
    LastIn(c, u);
    LastIn(d, u);
    NewDownLists(u, g[u], c.targ, d.targ, c.last, cut);
    DownStep(c);
    DownStep(d);
    DownHist(d, h);
    CutOfSame(h, h', u);
    StepFacts(g, start, c, d, h);
    assert RelatedAt(g, Step(c), Step(d), h', u);
    hide RelatedAt;
    SimDownBoth(g, start, c, d, h, Step(c), Step(d), h', v);
  }

  // At the end of its list the current target is at its end in both walks.
  lemma BothEnd(g: Graph, start: Target, c: Config, d: Config, h: History)
    requires Sim(g, start, c, d, h) && Indexable(c) && Indexable(d)
    requires Taken(c.targ, c.last, c.curr) >= |Children(c.targ, c.curr)|
    ensures Taken(d.targ, d.last, c.curr) >= |Children(d.targ, c.curr)|
  {
    SimFacts(g, start, c, d, h);
    hide Sim, Taken, IndexOf, Inv, Extra, First, Twice;
    var u := c.curr;
    if u in g {
      BesideEnd(u, c.targ[u], Taken(c.targ, c.last, u), d.targ[u], Taken(d.targ, d.last, u), CutOf(h, u));
    }
  }

  lemma UpStep(c: Config)
    requires Indexable(c) && Taken(c.targ, c.last, c.curr) >= |Children(c.targ, c.curr)|
    ensures Step(c).halted == (c.walk == [] || c.halted)
    ensures var calls := c.calls + [Call(c.curr, c.walk)];
      Step(c) == if c.walk == [] then c.(calls := calls, halted := true)
                 else c.(calls := calls, curr := c.walk[|c.walk| - 1], walk := c.walk[..|c.walk| - 1])
  {
    hide Taken;
  }

  lemma UpHist(d: Config, h: History)
    requires Indexable(d) && Taken(d.targ, d.last, d.curr) >= |Children(d.targ, d.curr)|
    ensures HistStep(d, h).removed == h.removed && HistStep(d, h).taken == h.taken && HistStep(d, h).ahead == h.ahead
    ensures forall x :: x in HistStep(d, h).rank <==> x in h.rank || x == d.curr
  {
    hide Taken;
  }

  lemma RelatedDone(x: Target, own: seq<Target>, a: seq<Target>, k: nat, b: seq<Target>, l: nat, cut: set<Target>,
                    done: bool)
    requires Related(x, own, a, k, b, l, cut, done) && k == |a|
    ensures Related(x, own, a, k, b, l, cut, true)
  {
    hide Beside, Twice;
  }

  // Both walks finish the current target, and one goes up or ends as the other does.
  lemma SimUp(g: Graph, start: Target, c: Config, d: Config, h: History)
    requires Sim(g, start, c, d, h) && Indexable(c) && Indexable(d)
    requires Taken(c.targ, c.last, c.curr) >= |Children(c.targ, c.curr)|
    ensures Step(c) == Step(d).(targ := c.targ) && Step(d).targ == d.targ
    ensures !Step(d).halted ==> Sim(g, start, Step(c), Step(d), HistStep(d, h))
  {
    SimFacts(g, start, c, d, h);
    BothEnd(g, start, c, d, h);
    hide Sim, Related, Taken, IndexOf, Inv, Extra, Step, HistStep, CutOf, Indexable;
    UpStep(c);
    UpStep(d);
    if !Step(d).halted {
      UpHist(d, h);
      StepFacts(g, start, c, d, h);
      UpRelated(g, start, c, d, h, Step(c), Step(d), HistStep(d, h));
    }
  }

  lemma UpRelated(g: Graph, start: Target, c: Config, d: Config, h: History, c': Config, d': Config, h': History)
    requires Sim(g, start, c, d, h) && Indexable(c) && Indexable(d)
    requires Taken(c.targ, c.last, c.curr) >= |Children(c.targ, c.curr)|
    requires c'.targ == c.targ && c'.last == c.last && d'.targ == d.targ && d'.last == d.last
      && c' == d'.(targ := c'.targ)
    requires h'.removed == h.removed && forall x :: x in h'.rank <==> x in h.rank || x == c.curr
    requires Inv(Dedup(g), start, d', h') && Extra(d', h') && Indexable(c') && Indexable(d')
    ensures Sim(g, start, c', d', h')
  {
    SimFacts(g, start, c, d, h);
    var u := c.curr;
    if u in g {
      LastBound(c, u);
    }
    hide Sim, Related, Taken, IndexOf, Inv, Extra, CutOf, Indexable;
    forall x | x in g
      ensures CutOf(h', x) == CutOf(h, x)
    {
      CutOfSame(h, h', x);
    }
    if u in g {
      RelatedDone(u, g[u], c.targ[u], Taken(c.targ, c.last, u), d.targ[u], Taken(d.targ, d.last, u), CutOf(h, u),
                  u in h.rank);
      assert RelatedAt(g, c', d', h', u);
    }
    hide RelatedAt;
    SimFrom(g, start, u, c, d, h, c', d', h');
  }

  lemma LastBound(c: Config, u: Target)
    requires Indexable(c) && u in c.targ
    ensures Taken(c.targ, c.last, u) <= |c.targ[u]|
  {
  }

  // ---------------------------------------------------- where they part ways

  lemma BadFacts(g: Graph, start: Target, c: Config, d: Config, h: History) returns (v: Target)
    requires Sim(g, start, c, d, h) && Indexable(c) && Indexable(d) && Bad(c, d)
    ensures c.curr in g && c.curr in c.targ && v != c.curr && Twice(g[c.curr], v)
    ensures var k := Taken(c.targ, c.last, c.curr);
      k < |c.targ[c.curr]| && c.targ[c.curr][k] == v && v in c.targ[c.curr][..k]
    ensures (c.curr, v) in h.taken && Inv(Dedup(g), start, d, h) && Trail(c) == Trail(d)
  {
    SimFacts(g, start, c, d, h);
    var u := c.curr;
    var a, k, b, l := c.targ[u], Taken(c.targ, c.last, u), d.targ[u], Taken(d.targ, d.last, u);
    v := a[k];
    hide Sim, Extra, IndexOf, Taken, TrailOk, RankOk, RemovedOk, ReachOk, PrintedOk, Partition, Untouched;
    PassedSame(u, a, k, b, l, CutOf(h, u));
    assert v in a[..k];
    var i :| 0 <= i < l && b[i] == v;
    assert (u, d.targ[u][i]) in h.taken;
    var p :| 0 <= p < k && a[p] == v;
    assert Twice(a, v);
  }

  // A taken edge of the target on top leads to a finished target.
  lemma TakenBelow(start: Target, t: seq<Target>, h: History, u: Target, v: Target)
    requires TrailOk(start, t, h) && RankOk(t, h) && t[|t| - 1] == u && (u, v) in h.taken && u != v
    ensures v in h.rank && Above(t, u, v)
  {
    assert !OnTrail(t, (u, v));
    var i := if |t| > 1 && t[|t| - 2] == u then |t| - 2 else |t| - 1;
    assert t[i] == u;
  }

  /** Then the walk on g never leaves that target again. */
  lemma BadStuck(g: Graph, start: Target, c: Config, d: Config, h: History) returns (v: Target)
    requires Sim(g, start, c, d, h) && Indexable(c) && Indexable(d) && Bad(c, d)
    ensures Stuck(c, c.curr, v)
    ensures c.curr in g && v != c.curr && Twice(g[c.curr], v) && (c.curr, v) in h.taken
  {
    v := BadFacts(g, start, c, d, h);
    SimFacts(g, start, c, d, h);
    hide Sim, Extra, Bad, RelatedAt, IndexOf, Taken, Linked, RemovedOk, ReachOk, PrintedOk, Above, Dedup;
    TakenBelow(start, Trail(c), h, c.curr, v);
    var k :| 0 <= k < Taken(c.targ, c.last, c.curr) && c.targ[c.curr][k] == v;
  }

  // Both walks end with this iteration, and do the same.
  ghost predicate EndTogether(c: Config, d: Config)
    requires Indexable(c) && Indexable(d)
  {
    && Step(c).halted && Step(d).halted && Step(c) == Step(d).(targ := c.targ)
    && GoesUp(c) && GoesUp(d) && d.walk == []
  }

  // What ends the time the two walks spend together.
  ghost predicate Over(c: Config, d: Config)
    requires Indexable(c) && Indexable(d)
  {
    Bad(c, d) || EndTogether(c, d)
  }

  ghost predicate Less(c1: Config, h1: History, c: Config, h: History) {
    || h1.ahead < h.ahead
    || (h1.ahead == h.ahead
        && (|c1.walk| < |c.walk|
            || (c1.walk == c.walk && |Children(c1.targ, c1.curr)| < |Children(c.targ, c.curr)|)))
  }

  // One iteration of the walk on g, beside one or none of the other.
  lemma Once(g: Graph, start: Target, c: Config, d: Config, h: History) returns (d1: Config, h1: History)
    requires Sim(g, start, c, d, h) && Indexable(c) && Indexable(d) && !Bad(c, d)
    ensures Inv(Dedup(g), start, d, h)
    ensures Step(c).halted ==> EndTogether(c, d)
    ensures !Step(c).halted ==>
      && Sim(g, start, Step(c), d1, h1) && Inv(Dedup(g), start, d1, h1)
      && Run(Dedup(g), start, d1, h1) == Run(Dedup(g), start, d, h)
      && Less(Step(c), h1, c, h)
  {
    hide Sim, Inv, Run, Step, HistStep, Bad, Taken, Indexable, Dedup, Less, EndTogether;
    SimFacts(g, start, c, d, h);
    hide RelatedAt, Extra;
    d1, h1 := d, h;
    if Taken(c.targ, c.last, c.curr) >= |Children(c.targ, c.curr)| {
      hide Children;
      OnceUp(g, start, c, d, h);
      d1, h1 := Step(d), HistStep(d, h);
    } else if Copy(c, d, h) {
      hide Children, Copy;
      OnceCopy(g, start, c, d, h);
    } else {
      hide Copy;
      OnceNew(g, start, c, d, h);
      d1, h1 := Step(d), HistStep(d, h);
    }
  }

  lemma OnceUp(g: Graph, start: Target, c: Config, d: Config, h: History)
    requires Sim(g, start, c, d, h) && Indexable(c) && Indexable(d) && Inv(Dedup(g), start, d, h)
    requires Taken(c.targ, c.last, c.curr) >= |Children(c.targ, c.curr)|
    ensures Step(c).halted ==> EndTogether(c, d)
    ensures !Step(c).halted ==>
      && Sim(g, start, Step(c), Step(d), HistStep(d, h)) && Inv(Dedup(g), start, Step(d), HistStep(d, h))
      && Run(Dedup(g), start, Step(d), HistStep(d, h)) == Run(Dedup(g), start, d, h)
      && Less(Step(c), HistStep(d, h), c, h)
  {
    SimFacts(g, start, c, d, h);
    BothEnd(g, start, c, d, h);
    hide Sim, Inv, Extra, Run, Step, HistStep, RelatedAt, Taken, Indexable, Dedup, EndTogether, Less;
    RunStep(Dedup(g), start, d, h);
    SimUp(g, start, c, d, h);
    UpTogether(c, d, h);
  }

  lemma UpTogether(c: Config, d: Config, h: History)
    requires Indexable(c) && Indexable(d) && !c.halted && c == d.(targ := c.targ)
    requires Taken(c.targ, c.last, c.curr) >= |Children(c.targ, c.curr)|
    requires Taken(d.targ, d.last, d.curr) >= |Children(d.targ, d.curr)|
    ensures if c.walk == [] then EndTogether(c, d) else !Step(c).halted && Less(Step(c), HistStep(d, h), c, h)
  {
    UpHist(d, h);
    hide Taken, Indexable, Children, HistStep;
    UpStep(c);
    UpStep(d);
  }

  lemma OnceCopy(g: Graph, start: Target, c: Config, d: Config, h: History)
    requires Sim(g, start, c, d, h) && Indexable(c) && Indexable(d) && !Bad(c, d) && Copy(c, d, h)
    ensures !Step(c).halted && Sim(g, start, Step(c), d, h) && Less(Step(c), h, c, h)
  {
    SimFacts(g, start, c, d, h);
    hide Sim, Inv, Extra, Step, RelatedAt, Indexable, Dedup, Bad, Copy;
    SimCopy(g, start, c, d, h);
    SimFacts(g, start, Step(c), d, h);
  }

  lemma OnceNew(g: Graph, start: Target, c: Config, d: Config, h: History)
    requires Sim(g, start, c, d, h) && Indexable(c) && Indexable(d) && Inv(Dedup(g), start, d, h)
    requires Taken(c.targ, c.last, c.curr) < |Children(c.targ, c.curr)| && !Copy(c, d, h)
    ensures !Step(c).halted && Sim(g, start, Step(c), Step(d), HistStep(d, h))
    ensures Inv(Dedup(g), start, Step(d), HistStep(d, h)) && Less(Step(c), HistStep(d, h), c, h)
    ensures Run(Dedup(g), start, Step(d), HistStep(d, h)) == Run(Dedup(g), start, d, h)
  {
    SimFacts(g, start, c, d, h);
    hide Sim, Inv, Extra, Run, Step, HistStep, RelatedAt, Taken, Indexable, Dedup, Copy;
    RunStep(Dedup(g), start, d, h);
    if c.targ[c.curr][Taken(c.targ, c.last, c.curr)] in c.walk {
      SimNewCut(g, start, c, d, h);
    } else {
      SimNewDown(g, start, c, d, h);
    }
    SimFacts(g, start, Step(c), Step(d), HistStep(d, h));
  }

  // The walk gets from c to c1.
  ghost predicate Leads(c: Config, c1: Config) {
    exists n: nat :: c1 == Iterate(c, n)
  }

  lemma LeadsSelf(c: Config)
    ensures Leads(c, c)
  {
    assert Iterate(c, 0) == c;
  }

  lemma LeadsStep(c: Config, c1: Config)
    requires !c.halted && Indexable(c) && Leads(Step(c), c1)
    ensures Leads(c, c1)
  {
    hide Step;
    var n: nat :| c1 == Iterate(Step(c), n);
    assert Iterate(c, 0) == c && Iterate(c, 1) == Step(c);
    IterateOn(c, 1, n);
  }

  /** The two walks go on together until both end, or the walk on g goes down to
      a target a second time. */
  lemma {:induction false} Follow(g: Graph, start: Target, c: Config, d: Config, h: History)
      returns (c1: Config, d1: Config, h1: History)
    requires Sim(g, start, c, d, h) && Inv(Dedup(g), start, d, h)
    ensures Leads(c, c1) && Sim(g, start, c1, d1, h1) && Indexable(c1) && Indexable(d1)
    ensures Inv(Dedup(g), start, d1, h1) && Run(Dedup(g), start, d1, h1) == Run(Dedup(g), start, d, h)
    ensures Over(c1, d1)
    decreases h.ahead, |c.walk|, |Children(c.targ, c.curr)|
  {
    SimFacts(g, start, c, d, h);
    c1, d1, h1 := c, d, h;
    LeadsSelf(c);
    assert !c.halted;
    hide Sim, Inv, Run, Step, Bad, Indexable, Dedup, Children, EndTogether, Leads, RelatedAt, Extra;
    if Bad(c, d) {
      assert Over(c, d);
      return;
    }
    d1, h1 := Once(g, start, c, d, h);
    if Step(c).halted {
      assert Over(c, d);
      d1, h1 := d, h;
      return;
    }
    hide Over;
    c1, d1, h1 := Follow(g, start, Step(c), d1, h1);
    LeadsStep(c, c1);
  }

  // ------------------------------------------------------ when the walk ends

  /** The loop of DFS(start) ends on g. */
  ghost predicate Ends(g: Graph, start: Target) {
    exists n: nat :: Iterate(Start(g, start), n).halted
  }

  /** Every dependency that a reachable target lists more than once is one that
      the walk without repetitions removes from it. */
  ghost predicate Harmless(g: Graph, start: Target) {
    forall u, v :: u in g && v != u && Twice(g[u], v) && Reach(Edges(g), start, u) ==>
      (u, v) !in Edges(Dfs(Dedup(g), start).targ)
  }

  // What the walk leaves and has reported when it ends.
  ghost function Outcome(g: Graph, start: Target): Config
    requires Ends(g, start)
  {
    var n: nat :| Iterate(Start(g, start), n).halted;
    Iterate(Start(g, start), n)
  }

  lemma LeadsOn(b: Config, c: Config)
    requires Leads(b, c) && !c.halted && Indexable(c)
    ensures Leads(b, Step(c))
  {
    hide Step;
    var n: nat :| c == Iterate(b, n);
    assert Iterate(b, n + 1) == Step(c);
  }

  lemma {:induction false} HaltedOnce(c: Config, m: nat, n: nat)
    requires Iterate(c, m).halted && Iterate(c, n).halted
    ensures Iterate(c, m) == Iterate(c, n)
  {
    hide Step;
    if m < n {
      IterateOn(c, m, n - m);
      HaltedStays(Iterate(c, m), n - m);
    } else {
      IterateOn(c, n, m - n);
      HaltedStays(Iterate(c, n), m - n);
    }
  }

  lemma OutcomeIs(g: Graph, start: Target, c: Config)
    requires Leads(Start(g, start), c) && c.halted
    ensures Ends(g, start) && Outcome(g, start) == c
  {
    hide Iterate;
    var m: nat :| c == Iterate(Start(g, start), m);
    assert Ends(g, start);
    forall n: nat | Iterate(Start(g, start), n).halted
      ensures Iterate(Start(g, start), n) == c
    {
      HaltedOnce(Start(g, start), m, n);
    }
  }

  lemma StuckNeverEnds(g: Graph, start: Target, c: Config, u: Target, v: Target)
    requires Leads(Start(g, start), c) && Stuck(c, u, v)
    ensures !Ends(g, start)
  {
    hide Iterate;
    var s := Start(g, start);
    var m: nat :| c == Iterate(s, m);
    forall n: nat
      ensures !Iterate(s, n).halted
    {
      if n < m {
        IterateOn(s, n, m - n);
        if Iterate(s, n).halted { HaltedStays(Iterate(s, n), m - n); }
      } else {
        IterateOn(s, m, n - m);
        StuckForEver(c, u, v, n - m);
      }
    }
  }

  // A taken edge is never removed.
  lemma {:induction false} TakenStays(g0: Graph, start: Target, c: Config, h: History, e: Edge)
    requires Inv(g0, start, c, h) && e in h.taken
    ensures e in Edges(Run(g0, start, c, h).targ)
    decreases h.ahead, |c.walk|
  {
    hide Inv, Edges, Indexable, Settled;
    RunStep(g0, start, c, h);
    assert e in HistStep(c, h).taken;
    hide HistStep;
    if Step(c).halted {
      hide Step;
      EndsHere(g0, start, c, h, e);
    } else {
      hide Step;
      TakenStays(g0, start, Step(c), HistStep(c, h), e);
    }
  }

  lemma EndsHere(g0: Graph, start: Target, c: Config, h: History, e: Edge)
    requires Inv(g0, start, c, h) && Indexable(c) && Step(c).halted && e in h.taken
    ensures e in Edges(Step(c).targ)
  {
    hide Inv, Edges, Taken;
    assert GoesUp(c) && c.walk == [] by { hide RemoveFirst; NotHalted(g0, start, c, h); }
    EndSettled(g0, start, c, h);
  }

  lemma NotHalted(g0: Graph, start: Target, c: Config, h: History)
    requires Inv(g0, start, c, h)
    ensures !c.halted && Indexable(c)
  {
  }

  // Where the walk on g goes wrong, the condition fails.
  lemma BadHarms(g: Graph, start: Target, c: Config, d: Config, h: History)
    requires Sim(g, start, c, d, h) && Indexable(c) && Indexable(d) && Bad(c, d)
    requires Inv(Dedup(g), start, d, h) && Run(Dedup(g), start, d, h) == Dfs(Dedup(g), start)
    requires Leads(Start(g, start), c)
    ensures !Ends(g, start) && !Harmless(g, start)
  {
    var v := BadStuck(g, start, c, d, h);
    CurrReached(g, start, d, h);
    SimFacts(g, start, c, d, h);
    hide Sim, Inv, Extra, Bad, Run, Dfs, Dedup, Edges, Reach, Stuck, RelatedAt, Indexable, Twice, Leads, Ends;
    StuckNeverEnds(g, start, c, c.curr, v);
    TakenStays(Dedup(g), start, d, h, (c.curr, v));
  }

  lemma CurrReached(g: Graph, start: Target, d: Config, h: History)
    requires Inv(Dedup(g), start, d, h)
    ensures Reach(Edges(g), start, d.curr)
  {
    hide Dedup, Edges, Reach, PrintedOk, TrailOk, RankOk, RemovedOk, Untouched, Positioned;
    EdgesOfDedup(g);
    assert Trail(d)[|d.walk|] == d.curr;
    ReachMono(h.taken, Edges(g), start, d.curr);
  }

  // A finished list holds nothing twice, and lost at most the target itself.
  lemma RelatedEnd(x: Target, own: seq<Target>, a: seq<Target>, k: nat, b: seq<Target>, l: nat, cut: set<Target>)
    requires Related(x, own, a, k, b, l, cut, true)
    ensures a == b || (x in b && a == RemoveFirst(b, x))
    ensures forall v :: v != x && Twice(own, v) ==> v in cut
  {
    hide IndexOf, RemoveFirst, First, Elements;
    BesideEnd(x, a, k, b, l, cut);
    PassedSame(x, a, k, b, l, cut);
    assert a[..k] == a && b[..l] == b;
    assert forall v :: !Twice(a, v);
  }

  // At the end every reachable target is finished.
  lemma AllDone(g: Graph, start: Target, c: Config, d: Config, h: History, u: Target)
    requires Sim(g, start, c, d, h) && Indexable(c) && Indexable(d) && EndTogether(c, d)
    requires u in g && Reach(Edges(g), start, u)
    ensures u in c.targ && u in d.targ
    ensures Related(u, g[u], c.targ[u], Taken(c.targ, c.last, u), d.targ[u], Taken(d.targ, d.last, u), CutOf(h, u),
                    true)
  {
    SimFacts(g, start, c, d, h);
    EdgesOfDedup(g);
    EndSettled(Dedup(g), start, d, h);
    assert RelatedAt(g, c, d, h, u);
    LastBound(c, u);
    hide Sim, Inv, Extra, Edges, Reach, Settled, Dedup, Related, CutOf, Indexable, Step, Taken;
    UpHist(d, h);
    hide HistStep;
    RankedIsReachable(Dedup(g), start, Step(d).targ, HistStep(d, h), u);
    if u !in h.rank {
      assert u == c.curr;
      RelatedDone(u, g[u], c.targ[u], Taken(c.targ, c.last, u), d.targ[u], Taken(d.targ, d.last, u), CutOf(h, u),
                  false);
    }
  }

  // Where both walks end, the condition holds.
  lemma EndHarmless(g: Graph, start: Target, c: Config, d: Config, h: History)
    requires Sim(g, start, c, d, h) && Indexable(c) && Indexable(d) && EndTogether(c, d)
    requires Inv(Dedup(g), start, d, h) && Run(Dedup(g), start, d, h) == Dfs(Dedup(g), start)
    ensures Harmless(g, start) && Dfs(Dedup(g), start) == Step(d)
  {
    RunStep(Dedup(g), start, d, h);
    EndSettled(Dedup(g), start, d, h);
    UpHist(d, h);
    hide Sim, Inv, Extra, Run, Dfs, Dedup, Reach, Edges, Indexable, Step, HistStep, Taken, EndTogether, Twice;
    forall u, v | u in g && v != u && Twice(g[u], v) && Reach(Edges(g), start, u)
      ensures (u, v) !in Edges(Step(d).targ)
    {
      AllDone(g, start, c, d, h, u);
      RelatedEnd(u, g[u], c.targ[u], Taken(c.targ, c.last, u), d.targ[u], Taken(d.targ, d.last, u), CutOf(h, u));
      assert (u, v) in h.removed;
    }
  }

  // The start of both walks, and where they part.
  lemma FollowStart(g: Graph, start: Target) returns (c: Config, d: Config, h: History)
    ensures Leads(Start(g, start), c) && Sim(g, start, c, d, h) && Indexable(c) && Indexable(d)
    ensures Inv(Dedup(g), start, d, h) && Run(Dedup(g), start, d, h) == Dfs(Dedup(g), start)
    ensures Over(c, d)
  {
    SimStart(g, start);
    InvStart(Dedup(g), start);
    hide Sim, Inv, Over, Run;
    c, d, h := Follow(g, start, Start(g, start), Start(Dedup(g), start), HistStart(Dedup(g)));
  }

  /** The walk ends exactly when every dependency that a reachable target lists
      more than once, other than the target itself, is one the walk without the
      repetitions removes. */
  lemma EndsIff(g: Graph, start: Target)
    ensures Ends(g, start) <==> Harmless(g, start)
  {
    var c, d, h := FollowStart(g, start);
    SimFacts(g, start, c, d, h);
    hide Sim, Inv, Extra, Run, Dfs, Dedup, Bad, RelatedAt, Indexable, Ends, Harmless, Step, Leads;
    if Bad(c, d) {
      BadHarms(g, start, c, d, h);
    } else {
      EndHarmless(g, start, c, d, h);
      LeadsOn(Start(g, start), c);
      OutcomeIs(g, start, Step(c));
    }
  }

  /** A dependency of a reachable target that is listed more than once, and from
      which there is no way back, keeps the walk going for ever. */
  lemma DuplicateNeverEnds(g: Graph, start: Target, u: Target, v: Target)
    requires u in g && v != u && Twice(g[u], v)
    requires Reach(Edges(g), start, u) && !Reach(Edges(g), v, u)
    ensures !Ends(g, start)
  {
    EndsIff(g, start);
    EdgesOfDedup(g);
    assert (u, v) in Edges(g) by {
      var i :| 0 <= i < |g[u]| && g[u][i] == v;
    }
    hide Ends, Reach, Dfs, Dedup, Edges, Twice;
    DfsRemovesOnlyLoopEdges(Dedup(g), start, (u, v));
    if (u, v) !in Edges(Dfs(Dedup(g), start).targ) {
      ReachMono(Edges(Dfs(Dedup(g), start).targ), Edges(g), v, u);
    }
  }

  // The walk has only been where it can get to, and touched nothing else.
  ghost predicate Within(g: Graph, start: Target, c: Config) {
    && (forall i :: 0 <= i < |Trail(c)| ==> Reach(Edges(g), start, Trail(c)[i]))
    && (forall u :: u in c.targ ==> u in g && forall v :: v in c.targ[u] ==> v in g[u])
    && (forall u :: u in g && !Reach(Edges(g), start, u) ==> u in c.targ && c.targ[u] == g[u])
  }

  lemma RemoveAddsNothing(s: seq<Target>, x: Target, v: Target)
    requires x in s && v in RemoveFirst(s, x)
    ensures v in s
  {
    hide IndexOf;
  }

  lemma WithinList(g: Graph, start: Target, c: Config, list: seq<Target>)
    requires Within(g, start, c) && c.curr in c.targ && forall v :: v in list ==> v in c.targ[c.curr]
    ensures Within(g, start, c.(targ := c.targ[c.curr := list]))
  {
    hide Reach, Edges;
    assert Trail(c)[|c.walk|] == c.curr;
    assert Trail(c.(targ := c.targ[c.curr := list])) == Trail(c);
  }

  lemma WithinLess(g: Graph, start: Target, c: Config, c': Config, n: nat)
    requires Within(g, start, c) && c'.targ == c.targ && n <= |Trail(c)| && Trail(c') == Trail(c)[..n]
    ensures Within(g, start, c')
  {
    hide Reach, Edges, Trail;
    forall i | 0 <= i < n
      ensures Reach(Edges(g), start, Trail(c')[i])
    {
      assert Trail(c')[i] == Trail(c)[i];
    }
  }

  lemma WithinMore(g: Graph, start: Target, c: Config, c': Config, v: Target)
    requires Within(g, start, c) && c'.targ == c.targ && Trail(c') == Trail(c) + [v]
    requires c.curr in c.targ && v in c.targ[c.curr]
    ensures Within(g, start, c')
  {
    assert Trail(c)[|c.walk|] == c.curr;
    hide Reach, Edges, Trail;
    ReachChild(g, start, c.curr, v);
    forall i | 0 <= i < |Trail(c')|
      ensures Reach(Edges(g), start, Trail(c')[i])
    {
      assert i < |Trail(c)| ==> Trail(c')[i] == Trail(c)[i];
    }
  }

  lemma ReachChild(g: Graph, start: Target, u: Target, v: Target)
    requires u in g && v in g[u] && Reach(Edges(g), start, u)
    ensures Reach(Edges(g), start, v)
  {
    hide Reach;
    var j :| 0 <= j < |g[u]| && g[u][j] == v;
    assert (u, g[u][j]) in Edges(g);
    ReachStep(Edges(g), start, u, v);
  }

  lemma WithinStep(g: Graph, start: Target, c: Config)
    requires Indexable(c) && Within(g, start, c)
    ensures Within(g, start, Step(c))
  {
    var k, a := Taken(c.targ, c.last, c.curr), Children(c.targ, c.curr);
    hide Within, Step, Taken, Indexable, RemoveFirst;
    if k >= |a| {
      UpStep(c);
      var n := if c.walk == [] then 1 else |c.walk|;
      assert Trail(Step(c)) == Trail(c)[..n];
      WithinLess(g, start, c, Step(c), n);
    } else if a[k] in c.walk {
      CutStep(c);
      forall v | v in RemoveFirst(a, a[k]) ensures v in a { RemoveAddsNothing(a, a[k], v); }
      WithinList(g, start, c, RemoveFirst(a, a[k]));
    } else {
      DownStep(c);
      assert Trail(Step(c)) == Trail(c) + [a[k]];
      WithinMore(g, start, c, Step(c), a[k]);
    }
  }

  lemma {:induction false} WithinAlways(g: Graph, start: Target, n: nat)
    ensures Within(g, start, Iterate(Start(g, start), n))
  {
    hide Step, Reach, Edges;
    if n > 0 {
      WithinAlways(g, start, n - 1);
      var p := Iterate(Start(g, start), n - 1);
      hide Within;
      if Indexable(p) { WithinStep(g, start, p); }
    } else {
      ReachRefl(Edges(g), start);
    }
  }

  /** When the walk ends, it has reported what it reports without the
      repetitions; reachable lists are left the same, except that a target may
      miss itself; and the others are as they were. */
  lemma EndsLikeDedup(g: Graph, start: Target)
    requires Ends(g, start)
    ensures var r, s := Outcome(g, start), Dfs(Dedup(g), start);
      && r.calls == s.calls && r.targ.Keys == g.Keys && s.targ.Keys == g.Keys
      && (forall u :: u in g && Reach(Edges(g), start, u) ==>
            && u in r.targ && u in s.targ
            && (r.targ[u] == s.targ[u] || (u in s.targ[u] && r.targ[u] == RemoveFirst(s.targ[u], u))))
      && (forall u :: u in g && !Reach(Edges(g), start, u) ==> u in r.targ && r.targ[u] == g[u])
  {
    EndsIff(g, start);
    var c, d, h := FollowStart(g, start);
    SimFacts(g, start, c, d, h);
    hide Sim, Inv, Extra, Run, Dfs, Dedup, Bad, RelatedAt, Indexable, Ends, Harmless, Step, Leads;
    if Bad(c, d) {
      BadHarms(g, start, c, d, h);
    } else {
      EndHarmless(g, start, c, d, h);
      LeadsOn(Start(g, start), c);
      OutcomeIs(g, start, Step(c));
      hide EndTogether, Edges, Reach, Twice, RemoveFirst;
      UntouchedAtEnd(g, start);
      forall u | u in g && Reach(Edges(g), start, u)
        ensures u in c.targ && u in d.targ
        ensures c.targ[u] == d.targ[u] || (u in d.targ[u] && c.targ[u] == RemoveFirst(d.targ[u], u))
      {
        AllDone(g, start, c, d, h, u);
        RelatedEnd(u, g[u], c.targ[u], Taken(c.targ, c.last, u), d.targ[u], Taken(d.targ, d.last, u), CutOf(h, u));
      }
      EndTargs(g, start, c, d, h);
    }
  }

  lemma EndTargs(g: Graph, start: Target, c: Config, d: Config, h: History)
    requires Sim(g, start, c, d, h) && Indexable(c) && Indexable(d) && EndTogether(c, d)
    ensures c.targ.Keys == g.Keys == d.targ.Keys
    ensures Step(c).targ == c.targ && Step(d).targ == d.targ && Step(c).calls == Step(d).calls
  {
    SimFacts(g, start, c, d, h);
    hide Sim, Taken, Inv, Extra, RelatedAt, Indexable;
  }

  lemma UntouchedAtEnd(g: Graph, start: Target)
    requires Ends(g, start)
    ensures forall u :: u in g && !Reach(Edges(g), start, u) ==>
      u in Outcome(g, start).targ && Outcome(g, start).targ[u] == g[u]
  {
    hide Iterate, Reach, Edges;
    forall n: nat
      ensures Within(g, start, Iterate(Start(g, start), n))
    {
      WithinAlways(g, start, n);
    }
  }

  lemma {:induction false} RunLeads(g0: Graph, start: Target, c: Config, h: History)
    requires Inv(g0, start, c, h)
    ensures Leads(c, Run(g0, start, c, h)) && Run(g0, start, c, h).halted
    decreases h.ahead, |c.walk|
  {
    hide Inv, Indexable, Leads;
    NotHalted(g0, start, c, h);
    RunStep(g0, start, c, h);
    hide Run, Step, HistStep;
    if Step(c).halted {
      LeadsSelf(Step(c));
    } else {
      RunLeads(g0, start, Step(c), HistStep(c, h));
    }
    LeadsStep(c, Run(g0, start, c, h));
  }

  // --------------------------------------------- the guarantees at the end

  // An edge of a reachable target is left as without the repetitions, self
  // edges aside.
  lemma EdgeLeft(g: Graph, start: Target, e: Edge)
    requires Ends(g, start) && Reach(Edges(g), start, e.0)
    ensures var r, s := Outcome(g, start).targ, Dfs(Dedup(g), start).targ;
      && (e in Edges(r) ==> e in Edges(s) && e in Edges(g))
      && (e in Edges(s) ==> e in Edges(g) && (e.0 == e.1 || e in Edges(r)))
  {
    EndsLikeDedup(g, start);
    EdgesOfDedup(g);
    DfsRemovesOnlyLoopEdges(Dedup(g), start, e);
    hide Reach, Dfs, Dedup, Outcome, Ends, RemoveFirst;
    var r, s := Outcome(g, start).targ, Dfs(Dedup(g), start).targ;
    if e.0 in g {
      EdgeIs(r, e);
      EdgeIs(s, e);
      hide Edges;
      if r[e.0] != s[e.0] { SameElements(s[e.0], e.0, e.1); }
    }
  }

  lemma EdgeIs(g: Graph, e: Edge)
    requires e.0 in g
    ensures e in Edges(g) <==> e.1 in g[e.0]
  {
    if e.1 in g[e.0] {
      var i :| 0 <= i < |g[e.0]| && g[e.0][i] == e.1;
      assert (e.0, g[e.0][i]) in Edges(g);
    }
  }

  lemma SameElements(s: seq<Target>, x: Target, v: Target)
    requires x in s
    ensures v in RemoveFirst(s, x) ==> v in s
    ensures v in s && v != x ==> v in RemoveFirst(s, x)
  {
    var k := IndexOf(s, x);
    hide IndexOf;
    assert s == s[..k] + [x] + s[k + 1..];
  }

  // Self edges lead nowhere: without them the same targets can be reached.
  lemma {:induction false} ReachAlike(es: set<Edge>, fs: set<Edge>, gs: set<Edge>, p: seq<Target>)
    requires IsPath(es, p)
    requires forall e :: e in es && Reach(gs, p[0], e.0) ==> e in gs && (e.0 == e.1 || e in fs)
    ensures forall i :: 0 <= i < |p| ==> Reach(gs, p[0], p[i]) && Reach(fs, p[0], p[i])
  {
    if |p| == 1 {
      ReachRefl(gs, p[0]);
      ReachRefl(fs, p[0]);
    } else {
      var n := |p| - 1;
      var q := p[..n];
      assert forall i :: 0 <= i < |q| ==> q[i] == p[i];
      hide Reach;
      ReachAlike(es, fs, gs, q);
      assert (p[n - 1], p[n - 1 + 1]) in es && q[n - 1] == p[n - 1];
      ReachStep(gs, p[0], p[n - 1], p[n]);
      if p[n - 1] != p[n] { ReachStep(fs, p[0], p[n - 1], p[n]); }
    }
  }

  /** Whenever the walk ends, it has neither lost nor gained a reachable target. */
  lemma EndsKeepReachable(g: Graph, start: Target, u: Target)
    requires Ends(g, start)
    ensures Reach(Edges(Outcome(g, start).targ), start, u) <==> Reach(Edges(g), start, u)
  {
    var es, fs, gs := Edges(Outcome(g, start).targ), Edges(Dfs(Dedup(g), start).targ), Edges(g);
    EdgesOfDedup(g);
    DfsKeepsReachable(Dedup(g), start, u);
    hide Ends, Outcome, Dfs, Dedup, Edges, IsPath;
    forall e: Edge | Reach(gs, start, e.0)
      ensures e in es ==> e in fs && e in gs
      ensures e in fs ==> e in gs && (e.0 == e.1 || e in es)
    {
      EdgeLeft(g, start, e);
    }
    if Reach(es, start, u) {
      var p :| PathFrom(es, start, u, p);
      ReachAlike(es, fs, gs, p);
    }
    if Reach(fs, start, u) {
      var p :| PathFrom(fs, start, u, p);
      ReachAlike(fs, es, gs, p);
    }
  }

  /** And no loop through two targets is left in what can be reached. */
  lemma EndsBreakLoops(g: Graph, start: Target, p: seq<Target>)
    requires Ends(g, start)
    requires IsPath(Edges(Outcome(g, start).targ), p) && Reach(Edges(Outcome(g, start).targ), start, p[0])
    ensures !IsLoop(Edges(Outcome(g, start).targ), p)
  {
    var es, fs := Edges(Outcome(g, start).targ), Edges(Dfs(Dedup(g), start).targ);
    EdgesOfDedup(g);
    EndsKeepReachable(g, start, p[0]);
    DfsKeepsReachable(Dedup(g), start, p[0]);
    hide Ends, Outcome, Dfs, Dedup, Edges, Reach;
    forall i | 0 <= i < |p| - 1
      ensures (p[i], p[i + 1]) in fs
    {
      StaysReached(g, start, p, i);
      EdgeLeft(g, start, (p[i], p[i + 1]));
    }
    DfsBreaksLoops(Dedup(g), start, p);
  }

  lemma {:induction false} StaysReached(g: Graph, start: Target, p: seq<Target>, i: nat)
    requires Ends(g, start) && IsPath(Edges(Outcome(g, start).targ), p) && i < |p|
    requires Reach(Edges(g), start, p[0])
    ensures Reach(Edges(g), start, p[i])
  {
    hide Ends, Outcome, Edges, Reach;
    if i > 0 {
      StaysReached(g, start, p, i - 1);
      var e := (p[i - 1], p[i - 1 + 1]);
      EdgeLeft(g, start, e);
      ReachStep(Edges(g), start, p[i - 1], p[i]);
    }
  }

  /** Without repetitions the walk always ends, with the result of Dfs. */
  lemma EndsWithoutDuplicates(g: Graph, start: Target)
    requires DupFree(g)
    ensures Ends(g, start) && Outcome(g, start) == Dfs(g, start)
  {
    hide Inv, Run;
    InvStart(g, start);
    RunLeads(g, start, Start(g, start), HistStart(g));
    OutcomeIs(g, start, Dfs(g, start));
  }

  // The example's configurations once it is below a.
  function Below(a: Target, b: Target, bs: seq<Target>): Config {
    Config(map[a := [b], b := bs], b, [a], map[a := b], [], false)
  }

  lemma BelowCuts(a: Target, b: Target, bs: seq<Target>)
    requires a != b
    ensures Indexable(Below(a, b, [a] + bs)) && Step(Below(a, b, [a] + bs)) == Below(a, b, bs)
  {
    var c := Below(a, b, [a] + bs);
    assert Taken(c.targ, c.last, b) == 0 && Indexable(c);
    hide Taken, Step, Indexable;
    RemoveFirstAt([a] + bs, 0);
    assert RemoveFirst([a] + bs, a) == bs;
    CutStep(c);
    assert c.targ[b := bs] == Below(a, b, bs).targ;
  }

  lemma BelowEnds(a: Target, b: Target)
    requires a != b
    ensures var end := Config(map[a := [b], b := []], a, [], map[a := b], [Call(b, [a]), Call(a, [])], true);
      end.halted && Leads(Below(a, b, []), end)
  {
    var c := Below(a, b, []);
    var c1 := Config(c.targ, a, [], c.last, [Call(b, [a])], false);
    assert c.walk[..0] == [];
    assert Step(c) == c1 && Indexable(c) && Indexable(c1);
    assert Taken(c1.targ, c1.last, a) == 1;
    hide IndexOf, Taken;
    var c2 := c1.(calls := c1.calls + [Call(a, [])], halted := true);
    assert Step(c1) == c2;
    hide Step, Indexable, Leads;
    LeadsSelf(c2);
    LeadsStep(c1, c2);
    LeadsStep(c, c2);
  }

  /** Repetitions alone are no reason: here b lists a twice, and the loop ends
      with b listing nothing. */
  lemma RepetitionMayEnd(a: Target, b: Target)
    requires a != b
    ensures var g := map[a := [b], b := [a, a]];
      Ends(g, a) && Outcome(g, a).targ == map[a := [b], b := []]
  {
    var c := Start(map[a := [b], b := [a, a]], a);
    var end := Config(map[a := [b], b := []], a, [], map[a := b], [Call(b, [a]), Call(a, [])], true);
    assert Indexable(c) && Step(c) == Below(a, b, [a, a]);
    hide Step, Indexable, Leads, Below;
    assert [a] + [a] == [a, a] && [a] + [] == [a];
    BelowCuts(a, b, [a]);
    BelowCuts(a, b, []);
    BelowEnds(a, b);
    assert !Below(a, b, [a, a]).halted && !Below(a, b, [a]).halted;
    LeadsStep(Below(a, b, [a]), end);
    LeadsStep(Below(a, b, [a, a]), end);
    LeadsStep(c, end);
    OutcomeIs(map[a := [b], b := [a, a]], a, end);
  }

  // One iteration, when the walk is known to end.
  lemma OnceEnds(g: Graph, start: Target, c: Config, d: Config, h: History) returns (d1: Config, h1: History)
    requires Harmless(g, start) && Sim(g, start, c, d, h) && Indexable(c) && Leads(Start(g, start), c)
    requires Inv(Dedup(g), start, d, h) && Run(Dedup(g), start, d, h) == Dfs(Dedup(g), start)
    ensures Ends(g, start)
    ensures Step(c).halted ==> Step(c) == Outcome(g, start)
    ensures !Step(c).halted ==>
      && Sim(g, start, Step(c), d1, h1) && Indexable(Step(c)) && Leads(Start(g, start), Step(c))
      && Inv(Dedup(g), start, d1, h1) && Run(Dedup(g), start, d1, h1) == Dfs(Dedup(g), start)
      && Less(Step(c), h1, c, h)
  {
    SimFacts(g, start, c, d, h);
    NotHalted(Dedup(g), start, d, h);
    EndsIff(g, start);
    hide Sim, Inv, Extra, Run, Dfs, Dedup, Bad, RelatedAt, Ends, Harmless, Step, Leads, Less, Children;
    if Bad(c, d) { BadHarms(g, start, c, d, h); }
    StepIndexable(c);
    d1, h1 := Once(g, start, c, d, h);
    LeadsOn(Start(g, start), c);
    if Step(c).halted { OutcomeIs(g, start, Step(c)); }
  }

  /** The script's global graph and the calls made so far. */
  class Walker {
    var targ: Graph
    var calls: seq<Call>

    constructor (g: Graph)
      ensures targ == g && calls == []
    {
      targ := g;
      calls := [];
    }

    // DFS(start, do_cmd), with every call of do_cmd recorded in `calls`.
    method DFS(start: Target)
      requires Harmless(targ, start) && calls == []
      modifies this
      ensures Ends(old(targ), start) && targ == Outcome(old(targ), start).targ
      ensures calls == Dfs(Dedup(old(targ)), start).calls
    {
      hide Sim, Inv, Run, Dfs, Outcome, Ends, Harmless, Leads, HistStep, RemoveFirst, Extra, RelatedAt, Dedup;
      var curr := start;
      var walk: seq<Target> := [];
      var last: map<Target, Target> := map[];
      ghost var g := targ;
      ghost var d, h := DfsStarts(g, start);
      while true
        invariant var c := Config(targ, curr, walk, last, calls, false);
          Sim(g, start, c, d, h) && Indexable(c) && Leads(Start(g, start), c)
        invariant Inv(Dedup(g), start, d, h) && Run(Dedup(g), start, d, h) == Dfs(Dedup(g), start)
        decreases h.ahead, |walk|, |Children(targ, curr)|
      {
        ghost var c := Config(targ, curr, walk, last, calls, false);
        d, h := OnceEnds(g, start, c, d, h);
        var child := if curr in targ then targ[curr] else [];
        var idx := 0;
        if curr in last {
          idx := IndexOf(child, last[curr]);
          idx := idx + 1;
        }
        if idx >= |child| {
          calls := calls + [Call(curr, walk)];
          if walk == [] {
            break;
          }
          curr, walk := walk[|walk| - 1], walk[..|walk| - 1];
        } else {
          var ne := child[idx];
          if ne in walk {
            targ := targ[curr := RemoveFirst(targ[curr], ne)];
          } else {
            last := last[curr := ne];
            walk := walk + [curr];
            curr := ne;
          }
        }
        assert Config(targ, curr, walk, last, calls, false) == Step(c);
      }
      EndsLikeDedup(g, start);
    }
  }

  lemma DfsStarts(g: Graph, start: Target) returns (d: Config, h: History)
    ensures var c := Start(g, start);
      Sim(g, start, c, d, h) && Indexable(c) && Leads(Start(g, start), c)
    ensures Inv(Dedup(g), start, d, h) && Run(Dedup(g), start, d, h) == Dfs(Dedup(g), start)
  {
    hide Sim, Inv, Run;
    d, h := Start(Dedup(g), start), HistStart(Dedup(g));
    SimStart(g, start);
    InvStart(Dedup(g), start);
    LeadsSelf(Start(g, start));
  }
}

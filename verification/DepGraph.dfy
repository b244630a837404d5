/** The dependency-graph walk of cdk/dep-graph.py: an explicit-stack depth-first
    search that removes, from the graph it is walking, every edge that would
    close a loop, and reports every edge it keeps. */
module DepGraph {

  // A makefile target, known by its name.
  datatype Target = Target(name: string)

  type Edge = (Target, Target)
  type Graph = map<Target, seq<Target>>

  // One call of the walk's command: the current target and the walk above it.
  datatype Call = Call(node: Target, walk: seq<Target>)

  // The walk's variables between two iterations of its loop.
  datatype Config = Config(
    targ: Graph,
    curr: Target,
    walk: seq<Target>,
    last: map<Target, Target>,
    calls: seq<Call>,
    halted: bool)

  // ---------------------------------------------------------------- graphs

  predicate NoDup(s: seq<Target>) {
    forall i, j :: 0 <= i < j < |s| ==> s[i] != s[j]
  }

  predicate DupFree(g: Graph) {
    forall u :: u in g ==> NoDup(g[u])
  }

  function Children(g: Graph, u: Target): seq<Target> {
    if u in g then g[u] else []
  }

  function Edges(g: Graph): set<Edge> {
    set u, i | u in g && 0 <= i < |g[u]| :: (u, g[u][i])
  }

  ghost predicate IsPath(es: set<Edge>, p: seq<Target>) {
    && p != []
    && forall i :: 0 <= i < |p| - 1 ==> (p[i], p[i + 1]) in es
  }

  ghost predicate PathFrom(es: set<Edge>, u: Target, v: Target, p: seq<Target>) {
    IsPath(es, p) && p[0] == u && p[|p| - 1] == v
  }

  ghost predicate Reach(es: set<Edge>, u: Target, v: Target) {
    exists p :: PathFrom(es, u, v, p)
  }

  // A closed walk that visits at least two different targets.
  ghost predicate IsLoop(es: set<Edge>, p: seq<Target>) {
    && IsPath(es, p)
    && p[0] == p[|p| - 1]
    && exists i :: 0 <= i < |p| && p[i] != p[0]
  }

  lemma ReachRefl(es: set<Edge>, u: Target)
    ensures Reach(es, u, u)
  {
    assert PathFrom(es, u, u, [u]);
  }

  lemma ReachStep(es: set<Edge>, u: Target, v: Target, w: Target)
    requires Reach(es, u, v) && (v, w) in es
    ensures Reach(es, u, w)
  {
    var p :| PathFrom(es, u, v, p);
    assert PathFrom(es, u, w, p + [w]);
  }

  lemma ReachMono(es: set<Edge>, es': set<Edge>, u: Target, v: Target)
    requires Reach(es, u, v) && es <= es'
    ensures Reach(es', u, v)
  {
    var p :| PathFrom(es, u, v, p);
    assert PathFrom(es', u, v, p);
  }

  // A set of targets that no edge leaves holds everything reachable from it.
  lemma {:induction false} ClosedReach(es: set<Edge>, s: set<Target>, p: seq<Target>)
    requires IsPath(es, p) && p[0] in s
    requires forall e :: e in es && e.0 in s ==> e.1 in s
    ensures forall i :: 0 <= i < |p| ==> p[i] in s
  {
    if |p| > 1 {
      assert (p[0], p[1]) in es;
      assert IsPath(es, p[1..]) by {
        forall i | 0 <= i < |p[1..]| - 1 ensures (p[1..][i], p[1..][i + 1]) in es {
          assert (p[i + 1], p[i + 1 + 1]) in es;
        }
      }
      ClosedReach(es, s, p[1..]);
      forall i | 0 <= i < |p| ensures p[i] in s {
        if i > 0 { assert p[i] == p[1..][i - 1]; }
      }
    }
  }

  // ------------------------------------------------------------ list helpers

  function IndexOf(s: seq<Target>, x: Target): (r: nat)
    requires x in s
    ensures r < |s| && s[r] == x && x !in s[..r]
  {
    if s[0] == x then 0 else
      assert s == [s[0]] + s[1..];
      1 + IndexOf(s[1..], x)
  }

  lemma IndexUnique(s: seq<Target>, i: nat)
    requires NoDup(s) && i < |s|
    ensures IndexOf(s, s[i]) == i
  {
  }

  function RemoveFirst(s: seq<Target>, x: Target): (r: seq<Target>)
    requires x in s
    ensures NoDup(s) ==> NoDup(r) && (forall y :: y in r <==> y in s && y != x)
  {
    var i := IndexOf(s, x);
    assert s == s[..i] + [x] + s[i + 1..];
    s[..i] + s[i + 1..]
  }

  // How many of u's child edges the walk has already taken.
  function Taken(targ: Graph, last: map<Target, Target>, u: Target): nat
    requires u in last ==> last[u] in Children(targ, u)
  {
    if u in last then IndexOf(Children(targ, u), last[u]) + 1 else 0
  }

  predicate Indexable(c: Config) {
    forall u :: u in c.last ==> c.last[u] in Children(c.targ, u)
  }

  // ---------------------------------------------------------------- the walk

  function Start(g: Graph, start: Target): Config {
    Config(g, start, [], map[], [], false)
  }

  // One iteration of the loop.
  function Step(c: Config): Config
    requires Indexable(c)
  {
    var child := Children(c.targ, c.curr);
    var idx := Taken(c.targ, c.last, c.curr);
    if idx >= |child| then
      var calls := c.calls + [Call(c.curr, c.walk)];
      if c.walk == [] then c.(calls := calls, halted := true)
      else c.(calls := calls, curr := c.walk[|c.walk| - 1], walk := c.walk[..|c.walk| - 1])
    else
      var ne := child[idx];
      if ne in c.walk then c.(targ := c.targ[c.curr := RemoveFirst(child, ne)])
      else c.(last := c.last[c.curr := ne], walk := c.walk + [c.curr], curr := ne)
  }

  // ----------------------------------------------------------- proof history

  // What the walk has done so far, seen as sets of edges: taken (walked down),
  // still ahead, removed; the finishing time of each finished target; and the
  // reported edges in order.
  datatype History = History(
    taken: set<Edge>,
    ahead: set<Edge>,
    removed: set<Edge>,
    rank: map<Target, nat>,
    clock: nat,
    printed: seq<Edge>)

  ghost function Trail(c: Config): seq<Target> {
    c.walk + [c.curr]
  }

  // The lists and the edge sets describe the same graph.
  ghost predicate Linked(g0: Graph, c: Config, h: History) {
    && DupFree(c.targ) && Indexable(c)
    && c.targ.Keys == g0.Keys
    && Positioned(c, h)
    && (forall e :: e in h.taken + h.ahead ==> e.0 in c.targ && e.1 in c.targ[e.0])
    && Partition(g0, h)
    && Untouched(g0, c.targ, h)
  }

  // The first Taken(u) children of u are taken edges, the others are ahead.
  ghost predicate Positioned(c: Config, h: History)
    requires Indexable(c)
  {
    forall u, i :: u in c.targ && 0 <= i < |c.targ[u]| ==>
      (u, c.targ[u][i]) in (if i < Taken(c.targ, c.last, u) then h.taken else h.ahead)
  }

  ghost predicate Partition(g0: Graph, h: History) {
    && h.taken !! h.ahead
    && h.removed !! (h.taken + h.ahead)
    && h.taken + h.ahead + h.removed == Edges(g0)
  }

  // A target that lost no edge has its original list.
  ghost predicate Untouched(g0: Graph, targ: Graph, h: History)
    requires targ.Keys == g0.Keys
  {
    forall u :: u in g0 && (forall v :: v in g0[u] ==> (u, v) !in h.removed) ==> targ[u] == g0[u]
  }

  ghost predicate Seen(t: seq<Target>, rank: map<Target, nat>, u: Target) {
    u in t || u in rank
  }

  ghost predicate OnTrail(t: seq<Target>, e: Edge) {
    exists i :: 0 <= i < |t| - 1 && t[i] == e.0 && t[i + 1] == e.1
  }

  // The stack is a walk from the start over taken edges, repeating a target
  // only where a target depends on itself.
  ghost predicate TrailOk(start: Target, t: seq<Target>, h: History) {
    && IsPath(h.taken, t) && t[0] == start
    && (forall i, j :: 0 <= i < j < |t| && t[i] == t[j] ==> j == i + 1)
    && (forall i :: 0 <= i < |t| - 1 ==> t[i] !in h.rank)
  }

  // Finishing times decrease along taken edges, and finished targets have
  // nothing ahead.
  ghost predicate RankOk(t: seq<Target>, h: History) {
    && (forall e :: e in h.taken ==> Seen(t, h.rank, e.0) && Seen(t, h.rank, e.1))
    && (forall e :: e in h.taken && e.0 != e.1 ==> e.1 in h.rank || OnTrail(t, e))
    && (forall e :: e in h.taken && e.0 != e.1 && e.0 in h.rank ==>
          e.1 in h.rank && h.rank[e.1] < h.rank[e.0])
    && (forall u :: u in h.rank ==> h.rank[u] < h.clock)
    && (forall e :: e in h.ahead ==> e.0 !in h.rank)
  }

  // Every removed edge closed a loop of edges that are kept.
  ghost predicate RemovedOk(t: seq<Target>, h: History) {
    forall e :: e in h.removed ==>
      && e.0 != e.1
      && Seen(t, h.rank, e.0) && Seen(t, h.rank, e.1)
      && Reach(h.taken, e.1, e.0)
  }

  ghost predicate ReachOk(start: Target, t: seq<Target>, h: History) {
    && (forall i :: 0 <= i < |t| ==> Reach(h.taken, start, t[i]))
    && (forall u :: u in h.rank ==> Reach(h.taken, start, u))
  }

  // Exactly the taken edges that have left the stack have been reported, once each.
  ghost predicate PrintedOk(t: seq<Target>, c: Config, h: History) {
    && |h.printed| == |c.calls|
    && (forall k :: 0 <= k < |c.calls| ==> Reports(c.calls[k], h.printed[k]))
    && (forall k, l :: 0 <= k < l < |h.printed| ==> h.printed[k] != h.printed[l])
    && (forall e :: e in h.taken <==> e in h.printed || OnTrail(t, e))
    && (forall e :: e in h.printed ==> !OnTrail(t, e))
  }

  // The call names edge e: its source on top of the walk, its target current.
  ghost predicate Reports(call: Call, e: Edge) {
    call.walk != [] && call.walk[|call.walk| - 1] == e.0 && call.node == e.1
  }

  ghost predicate Inv(g0: Graph, start: Target, c: Config, h: History) {
    && !c.halted
    && Linked(g0, c, h)
    && TrailOk(start, Trail(c), h)
    && RankOk(Trail(c), h)
    && RemovedOk(Trail(c), h)
    && ReachOk(start, Trail(c), h)
    && PrintedOk(Trail(c), c, h)
  }

  ghost function HistStart(g0: Graph): History {
    History({}, Edges(g0), {}, map[], 0, [])
  }

  // The target is finished (the first time it is left).
  ghost function Finish(c: Config, h: History): History {
    h.(rank := if c.curr in h.rank then h.rank else h.rank[c.curr := h.clock], clock := h.clock + 1)
  }

  ghost function HistStep(c: Config, h: History): History
    requires Indexable(c)
  {
    var child := Children(c.targ, c.curr);
    var idx := Taken(c.targ, c.last, c.curr);
    if idx >= |child| then
      if c.walk == [] then Finish(c, h)
      else Finish(c, h).(printed := h.printed + [(c.walk[|c.walk| - 1], c.curr)])
    else
      var e := (c.curr, child[idx]);
      if child[idx] in c.walk then h.(removed := h.removed + {e}, ahead := h.ahead - {e})
      else h.(taken := h.taken + {e}, ahead := h.ahead - {e})
  }

  lemma InvStart(g0: Graph, start: Target)
    requires DupFree(g0)
    ensures Inv(g0, start, Start(g0, start), HistStart(g0))
  {
    var c := Start(g0, start);
    assert Trail(c) == [start];
    ReachRefl({}, start);
  }

  // ------------------------------------------------- going down a fresh edge

  ghost predicate GoesDown(c: Config)
    requires Indexable(c)
  {
    var child := Children(c.targ, c.curr);
    var idx := Taken(c.targ, c.last, c.curr);
    idx < |child| && child[idx] !in c.walk
  }

  lemma DownTaken(c: Config)
    requires Indexable(c) && DupFree(c.targ) && GoesDown(c)
    ensures Indexable(Step(c))
    ensures forall u :: Taken(c.targ, Step(c).last, u) == Taken(c.targ, c.last, u) + if u == c.curr then 1 else 0
  {
    IndexUnique(Children(c.targ, c.curr), Taken(c.targ, c.last, c.curr));
  }

  lemma DownPositioned(c: Config, h: History, u: Target, i: nat)
    requires Indexable(c) && DupFree(c.targ) && GoesDown(c) && Positioned(c, h)
    requires u in c.targ && i < |c.targ[u]|
    ensures Indexable(Step(c))
    ensures (u, c.targ[u][i]) in
      (if i < Taken(c.targ, Step(c).last, u) then HistStep(c, h).taken else HistStep(c, h).ahead)
  {
    hide IndexOf;
    DownTaken(c);
    assert (u, c.targ[u][i]) in (if i < Taken(c.targ, c.last, u) then h.taken else h.ahead);
  }

  lemma DownLinked(g0: Graph, c: Config, h: History)
    requires Linked(g0, c, h) && GoesDown(c)
    ensures Linked(g0, Step(c), HistStep(c, h))
  {
    hide IndexOf, Taken;
    DownTaken(c);
    var idx := Taken(c.targ, c.last, c.curr);
    var e := (c.curr, c.targ[c.curr][idx]);
    assert e in h.ahead;
    DownPartition(g0, h, e);
    forall u, i | u in c.targ && 0 <= i < |c.targ[u]|
      ensures (u, c.targ[u][i]) in
        (if i < Taken(c.targ, Step(c).last, u) then HistStep(c, h).taken else HistStep(c, h).ahead)
    {
      DownPositioned(c, h, u, i);
    }
  }

  lemma DownPartition(g0: Graph, h: History, e: Edge)
    requires Partition(g0, h) && e in h.ahead
    ensures Partition(g0, Took(h, e)) && Took(h, e).taken + Took(h, e).ahead == h.taken + h.ahead
  {
  }

  ghost function Took(h: History, e: Edge): History {
    h.(taken := h.taken + {e}, ahead := h.ahead - {e})
  }

  lemma DownOnTrail(t: seq<Target>, e: Edge, f: Edge)
    requires t != [] && t[|t| - 1] == e.0
    ensures OnTrail(t + [e.1], f) <==> OnTrail(t, f) || f == e
  {
    var t' := t + [e.1];
    if OnTrail(t, f) {
      var i :| 0 <= i < |t| - 1 && t[i] == f.0 && t[i + 1] == f.1;
      assert t'[i] == f.0 && t'[i + 1] == f.1;
    } else if f == e {
      assert t'[|t| - 1] == f.0 && t'[|t| - 1 + 1] == f.1;
    }
  }

  lemma DownTrailOk(start: Target, t: seq<Target>, h: History, e: Edge)
    requires TrailOk(start, t, h) && t[|t| - 1] == e.0 && e in h.ahead
    requires e.1 !in t[..|t| - 1] && RankOk(t, h)
    ensures TrailOk(start, t + [e.1], Took(h, e))
  {
  }

  lemma DownRankOk(t: seq<Target>, h: History, e: Edge)
    requires t != [] && t[|t| - 1] == e.0 && e in h.ahead && RankOk(t, h)
    ensures RankOk(t + [e.1], Took(h, e))
  {
    forall f ensures OnTrail(t + [e.1], f) <==> OnTrail(t, f) || f == e {
      DownOnTrail(t, e, f);
    }
  }

  lemma DownReach(start: Target, t: seq<Target>, h: History, e: Edge)
    requires t != [] && t[|t| - 1] == e.0 && ReachOk(start, t, h) && RemovedOk(t, h)
    ensures ReachOk(start, t + [e.1], Took(h, e)) && RemovedOk(t + [e.1], Took(h, e))
  {
    var es := h.taken + {e};
    forall u | Reach(h.taken, start, u) ensures Reach(es, start, u) {
      ReachMono(h.taken, es, start, u);
    }
    assert Reach(es, start, e.0) by { assert Reach(h.taken, start, t[|t| - 1]); }
    ReachStep(es, start, e.0, e.1);
    forall r | r in h.removed ensures Reach(es, r.1, r.0) {
      ReachMono(h.taken, es, r.1, r.0);
    }
  }

  lemma DownPrinted(t: seq<Target>, c: Config, c': Config, h: History, e: Edge)
    requires t != [] && t[|t| - 1] == e.0 && e !in h.taken && c'.calls == c.calls
    requires PrintedOk(t, c, h)
    ensures PrintedOk(t + [e.1], c', Took(h, e))
  {
    forall f ensures OnTrail(t + [e.1], f) <==> OnTrail(t, f) || f == e {
      DownOnTrail(t, e, f);
    }
  }

  lemma DownInv(g0: Graph, start: Target, c: Config, h: History)
    requires Inv(g0, start, c, h) && GoesDown(c)
    ensures Inv(g0, start, Step(c), HistStep(c, h))
  {
    hide IsPath, Reach, IndexOf, RemoveFirst;
    DownLinked(g0, c, h);
    var e := (c.curr, Children(c.targ, c.curr)[Taken(c.targ, c.last, c.curr)]);
    assert e in h.ahead;
    var t := Trail(c);
    assert t[..|t| - 1] == c.walk && t[|t| - 1] == e.0;
    assert HistStep(c, h) == Took(h, e) && Trail(Step(c)) == t + [e.1];
    DownTrailOk(start, t, h, e);
    DownRankOk(t, h, e);
    DownReach(start, t, h, e);
    DownPrinted(t, c, Step(c), h, e);
  }

  // ------------------------------------------------ removing a loop's edge

  ghost predicate Cuts(c: Config)
    requires Indexable(c)
  {
    var child := Children(c.targ, c.curr);
    var idx := Taken(c.targ, c.last, c.curr);
    idx < |child| && child[idx] in c.walk
  }

  // Dropping an element of a duplicate-free list leaves the earlier positions alone.
  lemma RemoveAt(s: seq<Target>, k: nat)
    requires NoDup(s) && k < |s|
    ensures RemoveFirst(s, s[k]) == s[..k] + s[k + 1..]
    ensures NoDup(RemoveFirst(s, s[k]))
    ensures forall i :: 0 <= i < k ==> s[i] in RemoveFirst(s, s[k]) && IndexOf(RemoveFirst(s, s[k]), s[i]) == i
  {
    IndexUnique(s, k);
    var r := RemoveFirst(s, s[k]);
    forall i | 0 <= i < k ensures s[i] in r && IndexOf(r, s[i]) == i {
      assert r[i] == s[i];
      IndexUnique(r, i);
    }
  }

  lemma CutTaken(c: Config)
    requires Indexable(c) && DupFree(c.targ) && Cuts(c)
    ensures Indexable(Step(c)) && DupFree(Step(c).targ)
    ensures forall u :: Taken(Step(c).targ, c.last, u) == Taken(c.targ, c.last, u)
  {
    var child := Children(c.targ, c.curr);
    RemoveAt(child, Taken(c.targ, c.last, c.curr));
  }

  lemma CutPosition(c: Config, h: History, u: Target, i: nat)
    requires Indexable(c) && DupFree(c.targ) && Positioned(c, h) && Cuts(c)
    requires u in Step(c).targ && i < |Step(c).targ[u]|
    ensures (u, Step(c).targ[u][i]) in
      (if i < Taken(c.targ, c.last, u) then h.taken else HistStep(c, h).ahead)
  {
    var child := Children(c.targ, c.curr);
    var idx := Taken(c.targ, c.last, c.curr);
    hide IndexOf, RemoveFirst, Taken, Positioned;
    RemoveAt(child, idx);
    var k := if u != c.curr || i < idx then i else i + 1;
    assert Step(c).targ[u][i] == c.targ[u][k];
    PositionedAt(c, h, u, k);
    if u == c.curr { assert child[k] != child[idx]; }
  }

  lemma PositionedAt(c: Config, h: History, u: Target, i: nat)
    requires Indexable(c) && Positioned(c, h) && u in c.targ && i < |c.targ[u]|
    ensures (u, c.targ[u][i]) in (if i < Taken(c.targ, c.last, u) then h.taken else h.ahead)
  {
  }

  lemma CutLists(g0: Graph, c: Config, h: History)
    requires Linked(g0, c, h) && Cuts(c)
    ensures Indexable(Step(c)) && Positioned(Step(c), HistStep(c, h))
  {
    hide IndexOf, RemoveFirst;
    CutTaken(c);
    var c' := Step(c);
    forall u, i | u in c'.targ && 0 <= i < |c'.targ[u]|
      ensures (u, c'.targ[u][i]) in
        (if i < Taken(c'.targ, c'.last, u) then h.taken else HistStep(c, h).ahead)
    {
      CutPosition(c, h, u, i);
    }
  }

  lemma CutPartition(g0: Graph, h: History, e: Edge)
    requires Partition(g0, h) && e in h.ahead
    ensures Partition(g0, h.(removed := h.removed + {e}, ahead := h.ahead - {e}))
  {
    var h' := h.(removed := h.removed + {e}, ahead := h.ahead - {e});
    assert h'.taken + h'.ahead + h'.removed == h.taken + h.ahead + h.removed;
  }

  lemma CutUntouched(g0: Graph, targ: Graph, h: History, e: Edge, list: seq<Target>)
    requires targ.Keys == g0.Keys && Untouched(g0, targ, h) && e in Edges(g0)
    ensures Untouched(g0, targ[e.0 := list], h.(removed := h.removed + {e}, ahead := h.ahead - {e}))
  {
    var h' := h.(removed := h.removed + {e}, ahead := h.ahead - {e});
    forall u | u in g0 && (forall v :: v in g0[u] ==> (u, v) !in h'.removed)
      ensures targ[e.0 := list][u] == g0[u]
    {
      assert forall v :: v in g0[u] ==> (u, v) !in h.removed && (u, v) !in h'.removed;
      assert e.1 in g0[e.0] && e in h'.removed;
    }
  }

  lemma CutLinked(g0: Graph, c: Config, h: History)
    requires Linked(g0, c, h) && Cuts(c)
    ensures Linked(g0, Step(c), HistStep(c, h))
  {
    CutTaken(c);
    CutLists(g0, c, h);
    var child := Children(c.targ, c.curr);
    var idx := Taken(c.targ, c.last, c.curr);
    var e := (c.curr, child[idx]);
    assert e in h.ahead by { assert (c.curr, c.targ[c.curr][idx]) in h.ahead; }
    CutPartition(g0, h, e);
    CutUntouched(g0, c.targ, h, e, RemoveFirst(child, child[idx]));
    var c', h' := Step(c), HistStep(c, h);
    assert c'.last == c.last;
    forall f | f in h'.taken + h'.ahead ensures f.0 in c'.targ && f.1 in c'.targ[f.0] {
      assert f in h.taken + h.ahead && f != e;
    }
  }

  // The stack from the edge's target up to its source is a path of kept edges.
  lemma CutClosesLoop(start: Target, t: seq<Target>, h: History, e: Edge)
    requires TrailOk(start, t, h) && t[|t| - 1] == e.0 && e.1 in t[..|t| - 1] && e !in h.taken
    ensures e.0 != e.1 && Reach(h.taken, e.1, e.0)
  {
    var i :| 0 <= i < |t| - 1 && t[..|t| - 1][i] == e.1;
    assert t[i] == e.1;
    assert (t[i], t[i + 1]) in h.taken;
    assert t[i] == t[|t| - 1] ==> i + 1 == |t| - 1;
    var p := t[i..];
    forall k | 0 <= k < |p| - 1 ensures (p[k], p[k + 1]) in h.taken {
      assert (t[i + k], t[i + k + 1]) in h.taken;
    }
    assert PathFrom(h.taken, e.1, e.0, p);
  }

  lemma CutInv(g0: Graph, start: Target, c: Config, h: History)
    requires Inv(g0, start, c, h) && Cuts(c)
    ensures Inv(g0, start, Step(c), HistStep(c, h))
  {
    CutLinked(g0, c, h);
    var idx := Taken(c.targ, c.last, c.curr);
    var e := (c.curr, Children(c.targ, c.curr)[idx]);
    assert e in h.ahead by { assert (c.curr, c.targ[c.curr][idx]) in h.ahead; }
    var t := Trail(c);
    assert t[..|t| - 1] == c.walk && t[|t| - 1] == e.0;
    CutClosesLoop(start, t, h, e);
    assert Trail(Step(c)) == t;
    assert e.1 in t;
  }

  // ------------------------------------------------------------ going up

  ghost predicate GoesUp(c: Config)
    requires Indexable(c)
  {
    Taken(c.targ, c.last, c.curr) >= |Children(c.targ, c.curr)|
  }

  lemma UpLinked(g0: Graph, c: Config, h: History)
    requires Linked(g0, c, h) && GoesUp(c)
    ensures Linked(g0, Step(c), HistStep(c, h))
    ensures forall e :: e in h.ahead ==> e.0 != c.curr
  {
    forall e | e in h.ahead ensures e.0 != c.curr {
      var i :| 0 <= i < |c.targ[e.0]| && c.targ[e.0][i] == e.1;
      assert (e.0, c.targ[e.0][i]) in (if i < Taken(c.targ, c.last, e.0) then h.taken else h.ahead);
    }
  }

  ghost function Left(h: History, u: Target, clock: nat): map<Target, nat> {
    if u in h.rank then h.rank else h.rank[u := clock]
  }

  lemma UpOnTrail(t: seq<Target>, f: Edge)
    requires |t| > 1
    requires forall i, j :: 0 <= i < j < |t| && t[i] == t[j] ==> j == i + 1
    ensures OnTrail(t, f) <==> OnTrail(t[..|t| - 1], f) || f == (t[|t| - 2], t[|t| - 1])
    ensures !OnTrail(t[..|t| - 1], (t[|t| - 2], t[|t| - 1]))
  {
    var t', e := t[..|t| - 1], (t[|t| - 2], t[|t| - 1]);
    if OnTrail(t', f) {
      var i :| 0 <= i < |t'| - 1 && t'[i] == f.0 && t'[i + 1] == f.1;
      assert t[i] == f.0 && t[i + 1] == f.1;
    } else if f == e {
      assert t[|t| - 2] == f.0 && t[|t| - 2 + 1] == f.1;
    }
    forall i | 0 <= i < |t'| - 1 ensures !(t'[i] == e.0 && t'[i + 1] == e.1) {
      assert t[i] == t[|t| - 2] ==> i + 1 == |t| - 2;
      assert t[i + 1] == t[|t| - 1] ==> i + 1 + 1 == |t| - 1;
      assert t[i] == t[|t| - 1] ==> i + 1 == |t| - 1;
    }
  }

  // All of a target's taken edges lead to finished targets when it is left.
  lemma UpChildrenDone(start: Target, t: seq<Target>, h: History, e: Edge)
    requires TrailOk(start, t, h) && RankOk(t, h)
    requires e in h.taken && e.0 == t[|t| - 1] && e.0 != e.1
    ensures e.1 in h.rank
  {
    forall i | 0 <= i < |t| - 1 ensures !(t[i] == e.0 && t[i + 1] == e.1) {
      assert t[i] == t[|t| - 1] ==> i + 1 == |t| - 1;
    }
  }

  lemma UpRankOk(start: Target, t: seq<Target>, h: History)
    requires TrailOk(start, t, h) && RankOk(t, h) && |t| > 1
    requires forall e :: e in h.ahead ==> e.0 != t[|t| - 1]
    ensures var h' := h.(rank := Left(h, t[|t| - 1], h.clock), clock := h.clock + 1);
      RankOk(t[..|t| - 1], h')
  {
    var u := t[|t| - 1];
    var t', rank' := t[..|t| - 1], Left(h, u, h.clock);
    assert t == t' + [u];
    forall e | e in h.taken && e.0 != e.1 ensures e.1 in rank' || OnTrail(t', e) {
      UpOnTrail(t, e);
    }
    forall e | e in h.taken && e.0 != e.1 && e.0 in rank' ensures e.1 in rank' && rank'[e.1] < rank'[e.0] {
      if e.0 !in h.rank { UpChildrenDone(start, t, h, e); }
    }
  }

  lemma UpTrailOk(start: Target, t: seq<Target>, h: History)
    requires TrailOk(start, t, h) && |t| > 1
    ensures var h' := h.(rank := Left(h, t[|t| - 1], h.clock), clock := h.clock + 1);
      TrailOk(start, t[..|t| - 1], h')
  {
    var t' := t[..|t| - 1];
    forall i | 0 <= i < |t'| - 1 ensures t'[i] !in Left(h, t[|t| - 1], h.clock) && (t'[i], t'[i + 1]) in h.taken {
      assert t'[i] == t[i] && t'[i + 1] == t[i + 1];
      assert t[i] == t[|t| - 1] ==> i + 1 == |t| - 1;
    }
  }

  lemma UpReach(start: Target, t: seq<Target>, h: History)
    requires ReachOk(start, t, h) && RemovedOk(t, h) && |t| > 1
    ensures var h' := h.(rank := Left(h, t[|t| - 1], h.clock), clock := h.clock + 1);
      ReachOk(start, t[..|t| - 1], h') && RemovedOk(t[..|t| - 1], h')
  {
    var t' := t[..|t| - 1];
    assert t == t' + [t[|t| - 1]];
    assert Reach(h.taken, start, t[|t| - 1]);
  }

  lemma UpPrintedEdges(t: seq<Target>, h: History)
    requires |t| > 1
    requires forall i, j :: 0 <= i < j < |t| && t[i] == t[j] ==> j == i + 1
    requires forall e :: e in h.taken <==> e in h.printed || OnTrail(t, e)
    requires forall e :: e in h.printed ==> !OnTrail(t, e)
    ensures var e, t' := (t[|t| - 2], t[|t| - 1]), t[..|t| - 1];
      && e !in h.printed
      && (forall f :: f in h.taken <==> f in h.printed + [e] || OnTrail(t', f))
      && (forall f :: f in h.printed + [e] ==> !OnTrail(t', f))
  {
    var e, t' := (t[|t| - 2], t[|t| - 1]), t[..|t| - 1];
    forall f ensures OnTrail(t, f) <==> OnTrail(t', f) || f == e { UpOnTrail(t, f); }
    UpOnTrail(t, e);
  }

  lemma UpPrinted(start: Target, t: seq<Target>, c: Config, c': Config, h: History)
    requires |t| > 1 && t == Trail(c) && TrailOk(start, t, h) && PrintedOk(t, c, h)
    requires c'.calls == c.calls + [Call(c.curr, c.walk)]
    ensures PrintedOk(t[..|t| - 1], c', h.(printed := h.printed + [(t[|t| - 2], t[|t| - 1])]))
  {
    hide OnTrail;
    UpPrintedEdges(t, h);
    assert c.walk[|c.walk| - 1] == t[|t| - 2];
    assert forall k :: 0 <= k < |h.printed| ==> h.printed[k] in h.printed;
  }

  lemma UpInv(g0: Graph, start: Target, c: Config, h: History)
    requires Inv(g0, start, c, h) && GoesUp(c) && c.walk != []
    ensures Inv(g0, start, Step(c), HistStep(c, h))
  {
    UpLinked(g0, c, h);
    var t := Trail(c);
    assert Trail(Step(c)) == t[..|t| - 1];
    assert t[|t| - 1] == c.curr && t[|t| - 2] == c.walk[|c.walk| - 1];
    UpTrailOk(start, t, h);
    UpRankOk(start, t, h);
    UpReach(start, t, h);
    UpPrinted(start, t, c, Step(c), h);
  }

  // -------------------------------------------------------------- whole runs

  // Every iteration that does not end the walk keeps the invariant, and either
  // uses up an edge or pops the stack.
  lemma StepInv(g0: Graph, start: Target, c: Config, h: History)
    requires Inv(g0, start, c, h) && !Step(c).halted
    ensures Inv(g0, start, Step(c), HistStep(c, h))
    ensures HistStep(c, h).ahead < h.ahead || (HistStep(c, h).ahead == h.ahead && |Step(c).walk| < |c.walk|)
  {
    if GoesUp(c) {
      UpInv(g0, start, c, h);
    } else {
      var idx := Taken(c.targ, c.last, c.curr);
      assert (c.curr, c.targ[c.curr][idx]) in h.ahead;
      if Cuts(c) { CutInv(g0, start, c, h); } else { DownInv(g0, start, c, h); }
    }
  }

  // The walk from configuration c to its end.
  ghost function Run(g0: Graph, start: Target, c: Config, h: History): Config
    requires Inv(g0, start, c, h)
    decreases h.ahead, |c.walk|
  {
    if Step(c).halted then Step(c) else
      StepInv(g0, start, c, h);
      Run(g0, start, Step(c), HistStep(c, h))
  }

  lemma RunStep(g0: Graph, start: Target, c: Config, h: History)
    requires Inv(g0, start, c, h)
    ensures Indexable(c)
    ensures Step(c).halted ==> Run(g0, start, c, h) == Step(c)
    ensures !Step(c).halted ==>
      && Inv(g0, start, Step(c), HistStep(c, h))
      && Run(g0, start, c, h) == Run(g0, start, Step(c), HistStep(c, h))
      && (HistStep(c, h).ahead < h.ahead || (HistStep(c, h).ahead == h.ahead && |Step(c).walk| < |c.walk|))
  {
    if !Step(c).halted { StepInv(g0, start, c, h); }
  }

  // The result of DFS(start): the graph it leaves and the calls it makes.
  ghost function Dfs(g: Graph, start: Target): Config
    requires DupFree(g)
  {
    InvStart(g, start);
    Run(g, start, Start(g, start), HistStart(g))
  }

  // A run ends by leaving the start with an empty stack.
  lemma {:induction false} RunEnds(g0: Graph, start: Target, c: Config, h: History)
      returns (c1: Config, h1: History)
    requires Inv(g0, start, c, h)
    ensures Inv(g0, start, c1, h1) && Indexable(c1) && GoesUp(c1) && c1.walk == []
    ensures Run(g0, start, c, h) == Step(c1)
    decreases h.ahead, |c.walk|
  {
    if Step(c).halted {
      c1, h1 := c, h;
    } else {
      StepInv(g0, start, c, h);
      c1, h1 := RunEnds(g0, start, Step(c), HistStep(c, h));
    }
  }

  // What the end of the walk says about the sets of edges.
  ghost predicate Settled(g0: Graph, start: Target, g: Graph, h: History) {
    && DupFree(g) && g.Keys == g0.Keys && Edges(g) == h.taken + h.ahead
    && Partition(g0, h) && Untouched(g0, g, h)
    && RanksSettled(start, h)
  }

  ghost predicate RanksSettled(start: Target, h: History) {
    && start in h.rank
    && (forall e :: e in h.taken ==> e.0 in h.rank && e.1 in h.rank)
    && (forall e :: e in h.taken && e.0 != e.1 ==> h.rank[e.1] < h.rank[e.0])
    && (forall e :: e in h.ahead ==> e.0 !in h.rank)
    && (forall e :: e in h.removed ==> e.0 != e.1 && e.0 in h.rank && e.1 in h.rank && Reach(h.taken, e.1, e.0))
    && (forall u :: u in h.rank ==> Reach(h.taken, start, u))
  }

  lemma EdgesOfLists(c: Config, h: History)
    requires Indexable(c) && Positioned(c, h)
    requires forall e :: e in h.taken + h.ahead ==> e.0 in c.targ && e.1 in c.targ[e.0]
    ensures Edges(c.targ) == h.taken + h.ahead
  {
    forall e | e in Edges(c.targ) ensures e in h.taken + h.ahead {
      var i :| 0 <= i < |c.targ[e.0]| && c.targ[e.0][i] == e.1;
      assert (e.0, c.targ[e.0][i]) in (if i < Taken(c.targ, c.last, e.0) then h.taken else h.ahead);
    }
  }

  lemma EndRank(start: Target, h: History, e: Edge)
    requires RankOk([start], h) && e in h.taken && e.0 != e.1
    requires forall f :: f in h.ahead ==> f.0 != start
    ensures e.1 in h.rank
    ensures var rank := Left(h, start, h.clock);
      e.0 in rank && e.1 in rank && rank[e.1] < rank[e.0]
  {
    assert !OnTrail([start], e);
    assert Seen([start], h.rank, e.0);
  }

  lemma EndRanks(start: Target, h: History, h': History)
    requires RankOk([start], h) && RemovedOk([start], h) && ReachOk(start, [start], h)
    requires forall e :: e in h.ahead ==> e.0 != start
    requires h' == h.(rank := Left(h, start, h.clock), clock := h'.clock)
    ensures RanksSettled(start, h')
  {
    hide Reach, OnTrail;
    var rank := h'.rank;
    forall e | e in h.taken ensures e.0 in rank && e.1 in rank && (e.0 != e.1 ==> rank[e.1] < rank[e.0]) {
      if e.0 != e.1 {
        EndRank(start, h, e);
      } else {
        assert Seen([start], h.rank, e.0);
      }
    }
    forall e | e in h.removed ensures e.0 in rank && e.1 in rank {
      assert Seen([start], h.rank, e.0) && Seen([start], h.rank, e.1);
    }
    assert Reach(h.taken, start, [start][0]);
  }

  lemma EndSettled(g0: Graph, start: Target, c: Config, h: History)
    requires Inv(g0, start, c, h) && GoesUp(c) && c.walk == []
    ensures Settled(g0, start, Step(c).targ, HistStep(c, h))
    ensures PrintedOk([start], c, h) && c.curr == start
  {
    hide Positioned, RanksSettled, RankOk, RemovedOk, ReachOk, PrintedOk, Edges, IndexOf, Partition, Untouched, Left;
    assert Trail(c) == [start];
    EdgesOfLists(c, h);
    UpLinked(g0, c, h);
    HistUp(c, h);
    EndRanks(start, h, HistStep(c, h));
  }

  lemma HistUp(c: Config, h: History)
    requires Indexable(c) && GoesUp(c) && c.walk == []
    ensures HistStep(c, h) == h.(rank := Left(h, c.curr, h.clock), clock := h.clock + 1) && Step(c).targ == c.targ
  {
    hide Taken;
  }

  lemma DfsSettles(g: Graph, start: Target) returns (h: History)
    requires DupFree(g)
    ensures Settled(g, start, Dfs(g, start).targ, h)
  {
    InvStart(g, start);
    var c1, h1 := RunEnds(g, start, Start(g, start), HistStart(g));
    EndSettled(g, start, c1, h1);
    h := HistStep(c1, h1);
  }

  // The finished targets are those reachable from the start, in the graph left
  // and in the original.
  lemma RankedIsReachable(g0: Graph, start: Target, g: Graph, h: History, u: Target)
    requires Settled(g0, start, g, h)
    ensures Reach(Edges(g), start, u) <==> u in h.rank
    ensures Reach(Edges(g0), start, u) <==> u in h.rank
  {
    if u in h.rank {
      ReachMono(h.taken, Edges(g), start, u);
      ReachMono(h.taken, Edges(g0), start, u);
    }
    if Reach(Edges(g), start, u) {
      var p :| PathFrom(Edges(g), start, u, p);
      ClosedReach(Edges(g), h.rank.Keys, p);
    }
    if Reach(Edges(g0), start, u) {
      var p :| PathFrom(Edges(g0), start, u, p);
      ClosedReach(Edges(g0), h.rank.Keys, p);
    }
  }

  /** The walk neither loses nor gains a reachable target. */
  lemma DfsKeepsReachable(g: Graph, start: Target, u: Target)
    requires DupFree(g)
    ensures Reach(Edges(Dfs(g, start).targ), start, u) <==> Reach(Edges(g), start, u)
  {
    var h := DfsSettles(g, start);
    RankedIsReachable(g, start, Dfs(g, start).targ, h, u);
  }

  // Along a path of kept edges the finishing time never rises, and two
  // different ends mean it fell.
  lemma {:induction false} RankFalls(es: set<Edge>, rank: map<Target, nat>, p: seq<Target>)
    requires IsPath(es, p) && p[0] in rank
    requires forall e :: e in es && e.0 in rank ==> e.1 in rank && (e.0 == e.1 || rank[e.1] < rank[e.0])
    ensures forall i :: 0 <= i < |p| ==> p[i] in rank && (p[i] == p[0] || rank[p[i]] < rank[p[0]])
    ensures forall i :: 0 <= i < |p| ==> p[i] == p[|p| - 1] || rank[p[|p| - 1]] < rank[p[i]]
  {
    if |p| > 1 {
      var q := p[1..];
      assert (p[0], p[1]) in es;
      forall i | 0 <= i < |q| - 1 ensures (q[i], q[i + 1]) in es {
        assert (p[i + 1], p[i + 1 + 1]) in es;
      }
      RankFalls(es, rank, q);
      assert forall i :: 0 < i < |p| ==> p[i] == q[i - 1];
    }
  }

  /** Nothing reachable lies on a loop through two targets any more. */
  lemma DfsBreaksLoops(g: Graph, start: Target, p: seq<Target>)
    requires DupFree(g)
    requires IsPath(Edges(Dfs(g, start).targ), p) && Reach(Edges(Dfs(g, start).targ), start, p[0])
    ensures !IsLoop(Edges(Dfs(g, start).targ), p)
  {
    var g' := Dfs(g, start).targ;
    var h := DfsSettles(g, start);
    RankedIsReachable(g, start, g', h, p[0]);
    RankFalls(Edges(g'), h.rank, p);
  }

  /** Only edges that close a loop of kept edges are removed, self edges never,
      and a target that cannot be reached keeps its list. */
  lemma DfsRemovesOnlyLoopEdges(g: Graph, start: Target, e: Edge)
    requires DupFree(g)
    ensures Edges(Dfs(g, start).targ) <= Edges(g)
    ensures e in Edges(g) && e !in Edges(Dfs(g, start).targ) ==>
      e.0 != e.1 && Reach(Edges(g), start, e.0) && Reach(Edges(Dfs(g, start).targ), e.1, e.0)
    ensures e.0 in g && !Reach(Edges(g), start, e.0) ==>
      e.0 in Dfs(g, start).targ && Dfs(g, start).targ[e.0] == g[e.0]
  {
    var g' := Dfs(g, start).targ;
    var h := DfsSettles(g, start);
    RankedIsReachable(g, start, g', h, e.0);
    if e in h.removed {
      ReachMono(h.taken, Edges(g'), e.1, e.0);
    }
    if e.0 in g && e.0 !in h.rank {
      forall v | v in g[e.0] ensures (e.0, v) !in h.removed {}
    }
  }

  /** After the walk a reachable target lies on a loop exactly when some
      reachable target depended on itself in the first place. */
  lemma DfsAcyclicUpToSelfEdges(g: Graph, start: Target)
    requires DupFree(g)
    ensures (exists p :: |p| > 1 && PathFrom(Edges(Dfs(g, start).targ), p[0], p[0], p)
                         && Reach(Edges(Dfs(g, start).targ), start, p[0]))
      <==> (exists u :: Reach(Edges(g), start, u) && (u, u) in Edges(g))
  {
    var es, es0 := Edges(Dfs(g, start).targ), Edges(g);
    forall p | |p| > 1 && PathFrom(es, p[0], p[0], p) && Reach(es, start, p[0])
      ensures Reach(es0, start, p[0]) && (p[0], p[0]) in es0
    {
      DfsBreaksLoops(g, start, p);
      assert p[1] == p[0] && (p[0], p[1]) in es;
      DfsKeepsReachable(g, start, p[0]);
      DfsRemovesOnlyLoopEdges(g, start, (p[0], p[0]));
    }
    forall u | Reach(es0, start, u) && (u, u) in es0
      ensures exists p :: |p| > 1 && PathFrom(es, p[0], p[0], p) && Reach(es, start, p[0])
    {
      DfsKeepsReachable(g, start, u);
      DfsRemovesOnlyLoopEdges(g, start, (u, u));
      var p := [u, u];
      assert PathFrom(es, p[0], p[0], p);
    }
  }

  // ------------------------------------------------------------- the drawing

  // What print_cmd writes for a call: the edge from the top of the walk, and
  // nothing for the root.
  function Printed(call: Call): seq<Edge> {
    if call.walk != [] then [(call.walk[|call.walk| - 1], call.node)] else []
  }

  function Dot(calls: seq<Call>): seq<Edge> {
    if calls == [] then [] else Dot(calls[..|calls| - 1]) + Printed(calls[|calls| - 1])
  }

  lemma {:induction false} DotIs(calls: seq<Call>, printed: seq<Edge>)
    requires |calls| == |printed|
    requires forall k :: 0 <= k < |calls| ==> Reports(calls[k], printed[k])
    ensures Dot(calls) == printed
  {
    if calls != [] {
      var n := |calls| - 1;
      DotIs(calls[..n], printed[..n]);
      assert printed == printed[..n] + [printed[n]];
      assert Reports(calls[n], printed[n]);
    }
  }

  lemma PrintedIsReachable(g0: Graph, start: Target, g: Graph, h: History, c: Config, h1: History, e: Edge)
    requires Settled(g0, start, g, h) && PrintedOk([start], c, h1) && h1.taken == h.taken
    ensures e in h1.printed <==> e in Edges(g) && Reach(Edges(g), start, e.0)
  {
    hide Reach, Untouched, Partition, Edges;
    assert !OnTrail([start], e);
    RankedIsReachable(g0, start, g, h, e.0);
  }

  /** The walk reports each surviving reachable edge exactly once, then the root
      with an empty walk, and nothing else. */
  lemma DfsReports(g: Graph, start: Target)
    requires DupFree(g)
    ensures var r := Dfs(g, start);
      && r.calls != []
      && r.calls[|r.calls| - 1] == Call(start, [])
      && (forall k :: 0 <= k < |r.calls| - 1 ==> r.calls[k].walk != [])
      && (forall k, l :: 0 <= k < l < |Dot(r.calls)| ==> Dot(r.calls)[k] != Dot(r.calls)[l])
      && (forall e :: e in Dot(r.calls) <==> e in Edges(r.targ) && Reach(Edges(r.targ), start, e.0))
  {
    hide Run, Inv, Settled, OnTrail, Reach, Edges;
    InvStart(g, start);
    var c, h := RunEnds(g, start, Start(g, start), HistStart(g));
    EndSettled(g, start, c, h);
    var r := Dfs(g, start);
    assert r.calls[..|r.calls| - 1] == c.calls;
    DotIs(c.calls, h.printed);
    assert Dot(r.calls) == h.printed;
    forall k | 0 <= k < |r.calls| - 1 ensures r.calls[k].walk != [] {
      assert Reports(c.calls[k], h.printed[k]);
    }
    forall e ensures e in h.printed <==> e in Edges(r.targ) && Reach(Edges(r.targ), start, e.0) {
      PrintedIsReachable(g, start, r.targ, HistStep(c, h), c, h, e);
    }
  }

  // ------------------------------------------------ counting the iterations

  // The configuration after n iterations, for as long as they make sense.
  function Iterate(c: Config, n: nat): Config {
    if n == 0 then c else
      var p := Iterate(c, n - 1);
      if p.halted || !Indexable(p) then p else Step(p)
  }
}

/** The two parsers of parenthesised dependency strings in cdk/bb.py: tokenize,
    which reads characters with a stack of lists, and dep_parenreduce, which
    rewrites a token list in place by recursion. */
module DepString {
  import opened Wrappers

  // A list element: a string or a sub-list.
  datatype Elem = Str(s: string) | Sub(items: seq<Elem>)

  const OPEN: Elem := Str("(")
  const CLOSE: Elem := Str(")")

  predicate IsOpen(e: Elem): (r: bool)
    ensures r ==> e.Str?
  {
    e == OPEN
  }

  predicate IsClose(e: Elem): (r: bool)
    ensures r ==> e.Str? && !IsOpen(e)
  {
    e == CLOSE
  }

  predicate Plain(es: seq<Elem>) {
    forall e :: e in es ==> !IsOpen(e) && !IsClose(e)
  }

  // ------------------------------------------------- the reference reading

  // Reading a token with a stack of open lists, innermost last. A closing
  // parenthesis that nothing opened stays an element of the outermost list.
  function Feed(stack: seq<seq<Elem>>, e: Elem): (r: seq<seq<Elem>>)
    requires stack != []
    ensures r != []
  {
    var n := |stack| - 1;
    if IsOpen(e) then stack + [[]]
    else if IsClose(e) && n > 0 then
      stack[..n - 1] + [stack[n - 1] + [Sub(stack[n])]]
    else stack[..n] + [stack[n] + [e]]
  }

  function Feeds(stack: seq<seq<Elem>>, es: seq<Elem>): (r: seq<seq<Elem>>)
    requires stack != []
    ensures r != []
  {
    if es == [] then stack else Feed(Feeds(stack, es[..|es| - 1]), es[|es| - 1])
  }

  // The lists still open become elements again, each behind its parenthesis.
  function Collapse(stack: seq<seq<Elem>>): seq<Elem>
    requires stack != []
  {
    var n := |stack| - 1;
    if n == 0 then stack[0] else Collapse(stack[..n]) + [OPEN] + stack[n]
  }

  /** The nested form of a token list. */
  function Nest(es: seq<Elem>): seq<Elem> {
    Collapse(Feeds([[]], es))
  }

  // Only parentheses without a partner are left: no closing one after an opening one.
  ghost predicate Normal(es: seq<Elem>) {
    forall i, j :: 0 <= i < j < |es| && IsOpen(es[i]) ==> !IsClose(es[j])
  }

  // ------------------------------------------------------------ basic facts

  lemma {:induction false} FeedsAppend(stack: seq<seq<Elem>>, a: seq<Elem>, b: seq<Elem>)
    requires stack != []
    ensures Feeds(stack, a + b) == Feeds(Feeds(stack, a), b)
  {
    if b == [] {
      assert a + b == a;
    } else {
      var n := |b| - 1;
      FeedsAppend(stack, a, b[..n]);
      assert (a + b)[..|a + b| - 1] == a + b[..n];
    }
  }

  lemma FeedsOne(stack: seq<seq<Elem>>, e: Elem)
    requires stack != []
    ensures Feeds(stack, [e]) == Feed(stack, e)
  {
    assert [e][..0] == [];
  }

  // Reading elements that are not parentheses only extends the innermost list;
  // at the outermost level closing parentheses do too.
  lemma {:induction false} FeedsFlat(stack: seq<seq<Elem>>, es: seq<Elem>)
    requires stack != []
    requires forall e :: e in es ==> !IsOpen(e) && (IsClose(e) ==> |stack| == 1)
    ensures Feeds(stack, es) == stack[..|stack| - 1] + [stack[|stack| - 1] + es]
  {
    if es == [] {
      assert stack[|stack| - 1] + es == stack[|stack| - 1];
    } else {
      var m := |es| - 1;
      FeedsFlat(stack, es[..m]);
      assert stack[|stack| - 1] + es == stack[|stack| - 1] + es[..m] + [es[m]];
    }
  }

  lemma CollapseAppend(stack: seq<seq<Elem>>, e: Elem)
    requires stack != []
    ensures var n := |stack| - 1;
      Collapse(stack[..n] + [stack[n] + [e]]) == Collapse(stack) + [e]
  {
    var n := |stack| - 1;
    var s' := stack[..n] + [stack[n] + [e]];
    if n > 0 {
      assert s'[..n] == stack[..n];
    }
  }

  lemma CollapseOpen(stack: seq<seq<Elem>>)
    requires stack != []
    ensures Collapse(stack + [[]]) == Collapse(stack) + [OPEN]
  {
    assert (stack + [[]])[..|stack|] == stack;
  }

  // Every list but the outermost is free of parentheses, the outermost of opening ones.
  ghost predicate StackOk(stack: seq<seq<Elem>>) {
    && stack != []
    && (forall e :: e in stack[0] ==> !IsOpen(e))
    && (forall k :: 0 < k < |stack| ==> Plain(stack[k]))
  }

  lemma FeedOk(stack: seq<seq<Elem>>, e: Elem)
    requires StackOk(stack)
    ensures StackOk(Feed(stack, e))
  {
  }

  lemma {:induction false} FeedsOk(stack: seq<seq<Elem>>, es: seq<Elem>)
    requires StackOk(stack)
    ensures StackOk(Feeds(stack, es))
  {
    if es != [] {
      FeedsOk(stack, es[..|es| - 1]);
      FeedOk(Feeds(stack, es[..|es| - 1]), es[|es| - 1]);
    }
  }

  // ------------------------------------- reducing a suffix changes nothing

  lemma FeedClose(r: seq<seq<Elem>>, c: seq<Elem>)
    requires r != []
    ensures Feed(r + [c], CLOSE) == Feed(r, Sub(c))
  {
    assert (r + [c])[..|r| - 1] == r[..|r| - 1];
  }

  // An opened list of plain elements, once closed, is one element of the list around it.
  lemma FeedsGroup(r: seq<seq<Elem>>, c: seq<Elem>)
    requires r != [] && Plain(c)
    ensures Feeds(r, [OPEN] + c) == r + [c]
    ensures Feed(r + [c], CLOSE) == Feed(r, Sub(c))
  {
    FeedClose(r, c);
    FeedsAppend(r, [OPEN], c);
    FeedsOne(r, OPEN);
    FeedsFlat(r + [[]], c);
    hide Feeds, Plain;
    assert Feeds(r, [OPEN]) == r + [[]];
    assert (r + [[]])[..|r|] == r && [] + c == c;
  }

  lemma CollapseTop(t: seq<seq<Elem>>)
    requires |t| > 1
    ensures Collapse(t) == Collapse(t[..|t| - 1]) + ([OPEN] + t[|t| - 1])
  {
  }

  // Closing the innermost list makes it one element after the lists around it.
  lemma CollapseClose(t: seq<seq<Elem>>)
    requires |t| > 1
    ensures var n := |t| - 1;
      && Collapse(Feed(t, CLOSE)) == Collapse(t[..n]) + [Sub(t[n])]
      && Collapse(t) == Collapse(t[..n]) + ([OPEN] + t[n])
  {
    hide Collapse;
    var n := |t| - 1;
    var rest := t[..n];
    CollapseTop(t);
    CollapseAppend(rest, Sub(t[n]));
    assert rest[..n - 1] == t[..n - 1] && rest[n - 1] == t[n - 1];
  }

  lemma CloseCollapsed(s: seq<seq<Elem>>, t: seq<seq<Elem>>)
    requires s != [] && StackOk(t) && |t| > 1
    ensures Feeds(s, Collapse(Feed(t, CLOSE))) == Feed(Feeds(s, Collapse(t)), CLOSE)
  {
    hide Feeds, Feed, Collapse, Plain;
    var n := |t| - 1;
    var outer := Collapse(t[..n]);
    CollapseClose(t);
    FeedsAppend(s, outer, [Sub(t[n])]);
    FeedsOne(Feeds(s, outer), Sub(t[n]));
    FeedsAppend(s, outer, [OPEN] + t[n]);
    FeedsGroup(Feeds(s, outer), t[n]);
  }

  // Reading one more token, then the open lists as elements, is the same as
  // reading the open lists as elements, then the token.
  lemma FeedCollapsed(s: seq<seq<Elem>>, t: seq<seq<Elem>>, e: Elem)
    requires s != [] && StackOk(t)
    ensures Feeds(s, Collapse(Feed(t, e))) == Feed(Feeds(s, Collapse(t)), e)
  {
    hide Feeds;
    if IsClose(e) && |t| > 1 {
      CloseCollapsed(s, t);
    } else {
      if IsOpen(e) { CollapseOpen(t); } else { CollapseAppend(t, e); }
      FeedsAppend(s, Collapse(t), [e]);
      FeedsOne(Feeds(s, Collapse(t)), e);
    }
  }

  lemma {:induction false} FeedsCollapsed(s: seq<seq<Elem>>, t: seq<seq<Elem>>, es: seq<Elem>)
    requires s != [] && StackOk(t)
    ensures Feeds(s, Collapse(Feeds(t, es))) == Feeds(Feeds(s, Collapse(t)), es)
  {
    if es != [] {
      var m := |es| - 1;
      FeedsCollapsed(s, t, es[..m]);
      FeedsOk(t, es[..m]);
      FeedCollapsed(s, Feeds(t, es[..m]), es[m]);
    }
  }

  /** A suffix may be nested first: what precedes it is read the same way. */
  lemma NestSuffix(a: seq<Elem>, b: seq<Elem>)
    ensures Nest(a + Nest(b)) == Nest(a + b)
  {
    var s := Feeds([[]], a);
    FeedsCollapsed(s, [[]], b);
    assert Feeds(s, Collapse([[]])) == s;
    FeedsAppend([[]], a, b);
    FeedsAppend([[]], a, Nest(b));
  }

  /** A parenthesised stretch without parentheses inside may be replaced by its list. */
  lemma NestGroup(a: seq<Elem>, c: seq<Elem>, b: seq<Elem>)
    requires Plain(c)
    ensures Nest(a + ([OPEN] + c + [CLOSE]) + b) == Nest(a + [Sub(c)] + b)
  {
    hide Feeds, Plain;
    var s := Feeds([[]], a);
    FeedsAppend([[]], a + ([OPEN] + c + [CLOSE]), b);
    FeedsAppend([[]], a, [OPEN] + c + [CLOSE]);
    FeedsAppend(s, [OPEN] + c, [CLOSE]);
    FeedsGroup(s, c);
    FeedsOne(s + [c], CLOSE);
    FeedsAppend([[]], a + [Sub(c)], b);
    FeedsAppend([[]], a, [Sub(c)]);
    FeedsOne(s, Sub(c));
  }

  // ------------------------------------------------------ the nested form

  lemma {:induction false} CollapseNormal(t: seq<seq<Elem>>)
    requires StackOk(t)
    ensures Normal(Collapse(t))
    ensures |t| == 1 ==> forall e :: e in Collapse(t) ==> !IsOpen(e)
  {
    var n := |t| - 1;
    if n > 0 {
      CollapseNormal(t[..n]);
      var outer, last := Collapse(t[..n]), t[n];
      var all := outer + [OPEN] + last;
      forall i, j | 0 <= i < j < |all| && IsOpen(all[i]) ensures !IsClose(all[j]) {
        if j > |outer| { assert all[j] in last; }
      }
    }
  }

  /** Only parentheses without a partner are left over. */
  lemma NestNormal(es: seq<Elem>)
    ensures Normal(Nest(es))
  {
    FeedsOk([[]], es);
    CollapseNormal(Feeds([[]], es));
  }

  // Reading the elements of a list in normal form only opens lists.
  lemma {:induction false} FeedsNormal(es: seq<Elem>)
    requires Normal(es)
    ensures Collapse(Feeds([[]], es)) == es
  {
    hide Collapse;
    if es == [] {
      assert Collapse([[]]) == [] by { CollapseFlat([]); }
    } else {
      var m := |es| - 1;
      FeedsNormal(es[..m]);
      var t := Feeds([[]], es[..m]);
      if IsOpen(es[m]) {
        CollapseOpen(t);
      } else {
        if IsClose(es[m]) { FeedsFlat([[]], es[..m]); }
        CollapseAppend(t, es[m]);
      }
      assert es == es[..m] + [es[m]];
    }
  }

  lemma CollapseFlat(es: seq<Elem>)
    ensures Collapse([es]) == es
  {
  }

  /** A list in normal form is its own nested form. */
  lemma NestOfNormal(es: seq<Elem>)
    requires Normal(es)
    ensures Nest(es) == es
  {
    FeedsNormal(es);
  }

  // The first list element of a reading that starts with an opening parenthesis.
  lemma {:induction false} FirstOfOpened(es: seq<Elem>)
    requires es != [] && IsOpen(es[0])
    ensures var t := Feeds([[]], es);
      (|t| > 1 && t[0] == []) || (t[0] != [] && t[0][0].Sub?)
  {
    var m := |es| - 1;
    if m == 0 {
      assert es == [OPEN];
      FeedsOne([[]], OPEN);
    } else {
      FirstOfOpened(es[..m]);
    }
  }

  lemma {:induction false} CollapseFirst(t: seq<seq<Elem>>)
    requires t != []
    ensures t[0] != [] ==> Collapse(t) != [] && Collapse(t)[0] == t[0][0]
    ensures t[0] == [] && |t| > 1 ==> Collapse(t) != [] && Collapse(t)[0] == OPEN
  {
    var n := |t| - 1;
    if n > 0 { CollapseFirst(t[..n]); }
  }

  // Nesting from an opening parenthesis on yields a list, or leaves the
  // parenthesis because no closing one is left at all.
  lemma NestOpened(es: seq<Elem>)
    requires es != [] && IsOpen(es[0])
    ensures Nest(es) != []
    ensures Nest(es)[0].Sub? || (IsOpen(Nest(es)[0]) && forall e :: e in Nest(es) ==> !IsClose(e))
  {
    FirstOfOpened(es);
    CollapseFirst(Feeds([[]], es));
    NestNormal(es);
  }

  lemma {:induction false} NestLength(es: seq<Elem>)
    ensures |Nest(es)| <= |es|
  {
    if es != [] {
      var m := |es| - 1;
      NestLength(es[..m]);
      var t := Feeds([[]], es[..m]);
      var n := |t| - 1;
      if IsOpen(es[m]) {
        CollapseOpen(t);
      } else if IsClose(es[m]) && n > 0 {
        CollapseClose(t);
      } else {
        CollapseAppend(t, es[m]);
      }
    }
  }

  // ----------------------------------------- writing the nested form again

  // The token list a nested list stands for.
  function Unparse(es: seq<Elem>): seq<Elem> {
    if es == [] then []
    else
      (match es[0]
       case Str(_) => [es[0]]
       case Sub(items) => [OPEN] + Unparse(items) + [CLOSE])
      + Unparse(es[1..])
  }

  predicate Tokens(es: seq<Elem>) {
    forall e :: e in es ==> e.Str?
  }

  // No sub-list holds a parenthesis, at any depth.
  predicate Proper(es: seq<Elem>) {
    forall e :: e in es && e.Sub? ==> Plain(e.items) && Proper(e.items)
  }

  lemma UnparseOne(e: Elem)
    ensures Unparse([e]) == match e case Str(_) => [e] case Sub(items) => [OPEN] + Unparse(items) + [CLOSE]
  {
    assert [e][1..] == [];
  }

  lemma UnparseCons(e: Elem, rest: seq<Elem>)
    ensures Unparse([e] + rest) == Unparse([e]) + Unparse(rest)
  {
    UnparseOne(e);
    assert ([e] + rest)[1..] == rest;
  }

  lemma Assoc<T>(a: seq<T>, b: seq<T>, c: seq<T>)
    ensures a + (b + c) == (a + b) + c
  {
  }

  lemma {:induction false} UnparseAppend(a: seq<Elem>, b: seq<Elem>)
    ensures Unparse(a + b) == Unparse(a) + Unparse(b)
  {
    if a == [] {
      assert a + b == b;
    } else {
      hide Unparse;
      var e, rest := a[0], a[1..];
      UnparseAppend(rest, b);
      UnparseCons(e, rest);
      UnparseCons(e, rest + b);
      assert a == [e] + rest;
      Assoc([e], rest, b);
      Assoc(Unparse([e]), Unparse(rest), Unparse(b));
    }
  }

  lemma UnparseFeed(t: seq<seq<Elem>>, e: Elem)
    requires t != [] && e.Str?
    ensures Unparse(Collapse(Feed(t, e))) == Unparse(Collapse(t)) + [e]
  {
    hide Collapse, Unparse;
    var n := |t| - 1;
    if IsClose(e) && n > 0 {
      var outer := Collapse(t[..n]);
      CollapseClose(t);
      UnparseAppend(outer, [Sub(t[n])]);
      UnparseOne(Sub(t[n]));
      UnparseAppend(outer, [OPEN] + t[n]);
      UnparseAppend([OPEN], t[n]);
      UnparseOne(OPEN);
    } else {
      if IsOpen(e) { CollapseOpen(t); } else { CollapseAppend(t, e); }
      UnparseAppend(Collapse(t), [e]);
      UnparseOne(e);
    }
  }

  /** Writing out the nested form gives the tokens back, whether balanced or not. */
  lemma {:induction false} UnparseNest(ts: seq<Elem>)
    requires Tokens(ts)
    ensures Unparse(Nest(ts)) == ts
  {
    if ts != [] {
      var m := |ts| - 1;
      UnparseNest(ts[..m]);
      NestStep(ts);
      hide Unparse, Collapse, Feed, Feeds;
      UnparseFeed(Feeds([[]], ts[..m]), ts[m]);
    }
  }

  lemma NestStep(ts: seq<Elem>)
    requires ts != []
    ensures Nest(ts) == Collapse(Feed(Feeds([[]], ts[..|ts| - 1]), ts[|ts| - 1]))
    ensures ts == ts[..|ts| - 1] + [ts[|ts| - 1]]
  {
  }

  lemma {:induction false} FeedsUnparse(s: seq<seq<Elem>>, es: seq<Elem>)
    requires s != [] && Proper(es)
    ensures Feeds(s, Unparse(es)) == Feeds(s, es)
    decreases es
  {
    hide Feed, Feeds;
    if es != [] {
      var e := es[0];
      if e.Sub? {
        var c := e.items;
        FeedsUnparse(s + [[]], c);
        FeedsFlat(s + [[]], c);
        assert (s + [[]])[..|s|] == s && [] + c == c;
        FeedsAppend(s, [OPEN], Unparse(c));
        FeedsOne(s, OPEN);
        FeedOpen(s);
        FeedsAppend(s, [OPEN] + Unparse(c), [CLOSE]);
        FeedsOne(s + [c], CLOSE);
        FeedClose(s, c);
      }
      FeedsOne(s, e);
      var one := if e.Sub? then [OPEN] + Unparse(e.items) + [CLOSE] else [e];
      assert Feeds(s, one) == Feed(s, e);
      FeedsUnparse(Feed(s, e), es[1..]);
      FeedsAppend(s, one, Unparse(es[1..]));
      assert es == [e] + es[1..];
      FeedsAppend(s, [e], es[1..]);
    }
  }

  lemma FeedOpen(s: seq<seq<Elem>>)
    requires s != []
    ensures Feed(s, OPEN) == s + [[]]
  {
  }

  ghost predicate ProperStack(t: seq<seq<Elem>>) {
    forall k :: 0 <= k < |t| ==> Proper(t[k])
  }

  lemma FeedProper(t: seq<seq<Elem>>, e: Elem)
    requires StackOk(t) && ProperStack(t) && e.Str?
    ensures ProperStack(Feed(t, e))
  {
    var n := |t| - 1;
    assert Proper(t[n]);
    if IsClose(e) && n > 0 { assert Plain(t[n]) && Proper(t[n - 1]); }
  }

  lemma {:induction false} FeedsProper(ts: seq<Elem>)
    requires Tokens(ts)
    ensures ProperStack(Feeds([[]], ts))
  {
    if ts != [] {
      var m := |ts| - 1;
      FeedsProper(ts[..m]);
      FeedsOk([[]], ts[..m]);
      FeedProper(Feeds([[]], ts[..m]), ts[m]);
    }
  }

  lemma {:induction false} CollapseProper(t: seq<seq<Elem>>)
    requires t != [] && ProperStack(t)
    ensures Proper(Collapse(t))
  {
    var n := |t| - 1;
    assert Proper(t[n]);
    if n > 0 { CollapseProper(t[..n]); }
  }

  /** Nesting and writing out are inverse to each other, between the token lists
      and the lists in normal form whose sub-lists hold no parenthesis. */
  lemma NestUnparse(ts: seq<Elem>, es: seq<Elem>)
    requires Tokens(ts)
    ensures Normal(Nest(ts)) && Proper(Nest(ts))
    ensures Normal(es) && Proper(es) ==> (Unparse(es) == ts <==> es == Nest(ts))
  {
    NestNormal(ts);
    FeedsProper(ts);
    CollapseProper(Feeds([[]], ts));
    UnparseNest(ts);
    if Normal(es) && Proper(es) {
      FeedsUnparse([[]], es);
      NestOfNormal(es);
    }
  }

  // -------------------------------------------------------------- flatten

  // flatten: the strings of a nested list, in order.
  function Flatten(es: seq<Elem>): seq<string> {
    if es == [] then []
    else
      (match es[0]
       case Str(s) => [s]
       case Sub(items) => Flatten(items))
      + Flatten(es[1..])
  }

  // The strings of a token list that are not parentheses.
  function Names(ts: seq<Elem>): seq<string> {
    if ts == [] then []
    else (if IsOpen(ts[0]) || IsClose(ts[0]) || ts[0].Sub? then [] else [ts[0].s]) + Names(ts[1..])
  }

  lemma NamesCons(e: Elem, rest: seq<Elem>)
    ensures Names([e] + rest) == Names([e]) + Names(rest)
    ensures Names([e]) == if IsOpen(e) || IsClose(e) || e.Sub? then [] else [e.s]
  {
    assert ([e] + rest)[1..] == rest && [e][1..] == [];
  }

  lemma {:induction false} NamesAppend(a: seq<Elem>, b: seq<Elem>)
    ensures Names(a + b) == Names(a) + Names(b)
  {
    if a == [] {
      assert a + b == b;
    } else {
      hide Names;
      var e, rest := a[0], a[1..];
      NamesAppend(rest, b);
      NamesCons(e, rest);
      NamesCons(e, rest + b);
      assert a == [e] + rest;
      Assoc([e], rest, b);
      Assoc(Names([e]), Names(rest), Names(b));
    }
  }

  lemma FlattenCons(e: Elem, rest: seq<Elem>)
    ensures Flatten([e] + rest) == (match e case Str(s) => [s] case Sub(items) => Flatten(items)) + Flatten(rest)
  {
    assert ([e] + rest)[1..] == rest;
  }

  lemma NamesOfGroup(c: seq<Elem>)
    ensures Names([OPEN] + c + [CLOSE]) == Names(c)
  {
    hide Names;
    NamesAppend([OPEN] + c, [CLOSE]);
    NamesCons(OPEN, c);
    NamesCons(CLOSE, []);
  }

  lemma {:induction false} FlattenNames(es: seq<Elem>)
    requires Plain(es) && Proper(es)
    ensures Flatten(es) == Names(Unparse(es))
  {
    if es != [] {
      var e, rest := es[0], es[1..];
      FlattenNames(rest);
      assert e in es && es == [e] + rest;
      if e.Sub? { FlattenNames(e.items); NamesOfGroup(Unparse(e.items)); }
      hide Names, Flatten, Unparse;
      FlattenCons(e, rest);
      UnparseCons(e, rest);
      UnparseOne(e);
      NamesAppend(Unparse([e]), Unparse(rest));
      NamesCons(e, []);
    }
  }

  // ---------------------------------------------------- balanced token lists

  function Level(ts: seq<Elem>): int {
    if ts == [] then 0
    else
      var e := ts[|ts| - 1];
      Level(ts[..|ts| - 1]) + (if IsOpen(e) then 1 else if IsClose(e) then -1 else 0)
  }

  ghost predicate NeverBelow(ts: seq<Elem>) {
    forall k :: 0 <= k <= |ts| ==> Level(ts[..k]) >= 0
  }

  /** Every closing parenthesis has an opening one before it, and none is left open. */
  ghost predicate Balanced(ts: seq<Elem>) {
    NeverBelow(ts) && Level(ts) == 0
  }

  lemma NeverBelowStep(ts: seq<Elem>, e: Elem)
    ensures NeverBelow(ts + [e]) <==> NeverBelow(ts) && Level(ts + [e]) >= 0
    ensures NeverBelow(ts) ==> Level(ts) >= 0
    ensures Level(ts + [e]) == Level(ts) + (if IsOpen(e) then 1 else if IsClose(e) then -1 else 0)
  {
    var all := ts + [e];
    assert all[..|ts|] == ts && all[..|all|] == all;
    forall k | 0 <= k <= |ts| ensures all[..k] == ts[..k] {}
    assert ts[..|ts|] == ts;
    if NeverBelow(all) {
      forall k | 0 <= k <= |ts| ensures Level(ts[..k]) >= 0 { assert Level(all[..k]) >= 0; }
      assert Level(all[..|all|]) >= 0;
    }
  }

  // The stack is as deep as the level says, until a closing parenthesis
  // without a partner is met, which stays in the outermost list for good.
  lemma {:induction false} StackDepth(ts: seq<Elem>)
    ensures var t := Feeds([[]], ts);
      && (NeverBelow(ts) ==> |t| == Level(ts) + 1 && CLOSE !in t[0])
      && (!NeverBelow(ts) ==> CLOSE in t[0])
  {
    if ts == [] {
      assert ts[..0] == [];
    } else {
      var m := |ts| - 1;
      StackDepth(ts[..m]);
      NeverBelowStep(ts[..m], ts[m]);
      assert ts == ts[..m] + [ts[m]];
    }
  }

  /** Nothing but names and lists is left over exactly when the tokens are balanced. */
  lemma NestPlainIffBalanced(ts: seq<Elem>)
    ensures Plain(Nest(ts)) <==> Balanced(ts)
  {
    StackDepth(ts);
    FeedsOk([[]], ts);
    var t := Feeds([[]], ts);
    if |t| > 1 {
      assert OPEN in Collapse(t);
    } else {
      assert Collapse(t) == t[0];
    }
  }

  /** Flattening the nested form of balanced tokens gives their names in order. */
  lemma FlattenNest(ts: seq<Elem>)
    requires Tokens(ts) && Balanced(ts)
    ensures Flatten(Nest(ts)) == Names(ts)
  {
    NestUnparse(ts, []);
    NestPlainIffBalanced(ts);
    UnparseNest(ts);
    FlattenNames(Nest(ts));
  }

  // ---------------------------------------------------------- dep_parenreduce

  // Within the loop over a parenthesised stretch that starts at `first`: no
  // closing parenthesis has been passed, and an opening one only if no closing
  // one is left at all.
  ghost predicate Scanning(es: seq<Elem>, first: nat, pos: nat) {
    && first < pos <= |es| && IsOpen(es[first])
    && (forall k :: first < k < pos ==> !IsClose(es[k]))
    && ((forall k :: first < k < pos ==> !IsOpen(es[k])) || (forall k :: first < k < |es| ==> !IsClose(es[k])))
  }

  ghost predicate NoOpen(es: seq<Elem>, lo: nat, hi: nat) {
    forall k :: lo <= k < hi && k < |es| ==> !IsOpen(es[k])
  }

  // The list has been rewritten from position lo on without changing its nested form.
  ghost predicate SameNest(before: seq<Elem>, es: seq<Elem>, lo: nat) {
    && lo <= |es| <= |before|
    && es[..lo] == before[..lo]
    && Nest(es[lo..]) == Nest(before[lo..])
  }

  // Replacing a closed stretch by its list.
  lemma GroupReplaced(before: seq<Elem>, es: seq<Elem>, lo: nat, first: nat, pos: nat)
    requires SameNest(before, es, lo) && lo <= first < pos < |es|
    requires Scanning(es, first, pos) && IsClose(es[pos])
    ensures SameNest(before, es[..first] + [Sub(es[first + 1..pos])] + es[pos + 1..], lo)
  {
    hide Nest;
    var a, c, b := es[lo..first], es[first + 1..pos], es[pos + 1..];
    assert es[lo..] == a + ([OPEN] + c + [CLOSE]) + b;
    NestGroup(a, c, b);
    var es' := es[..first] + [Sub(c)] + b;
    assert es'[lo..] == a + [Sub(c)] + b;
  }

  // Rewriting the rest of the list by its nested form.
  lemma SuffixReplaced(before: seq<Elem>, es: seq<Elem>, es': seq<Elem>, lo: nat, pos: nat)
    requires SameNest(before, es, lo) && lo <= pos < |es|
    requires es' == es[..pos] + Nest(es[pos..])
    ensures SameNest(before, es', lo) && |es'| <= |es|
  {
    hide Nest;
    var a, b := es[lo..pos], es[pos..];
    assert es[lo..] == a + b;
    NestSuffix(a, b);
    NestLength(b);
    assert es'[lo..] == a + Nest(b);
  }

  // The scan goes on behind an opening parenthesis once the rest is rewritten from it on.
  lemma ScanOn(es: seq<Elem>, es': seq<Elem>, first: nat, pos: nat)
    requires Scanning(es, first, pos) && pos < |es| && IsOpen(es[pos])
    requires es' == es[..pos] + Nest(es[pos..])
    ensures Scanning(es', first, pos + 1) && pos < |es'|
  {
    hide Nest;
    var tail := Nest(es[pos..]);
    NestOpened(es[pos..]);
    assert es'[pos] == tail[0];
    forall k | first < k < pos ensures es'[k] == es[k] {}
    forall k | pos <= k < |es'| ensures es'[k] in tail { assert es'[k] == tail[k - pos]; }
    if exists k :: first < k < pos && IsOpen(es[k]) {
      // No closing parenthesis is left, so the rest is already in normal form.
      assert Normal(es[pos..]);
      NestOfNormal(es[pos..]);
      assert es' == es;
    }
  }

  // At the end the list is its own nested form.
  lemma Finished(before: seq<Elem>, es: seq<Elem>, lo: nat)
    requires lo <= |before| && SameNest(before, es, lo) && Normal(es[lo..])
    ensures es == before[..lo] + Nest(before[lo..])
  {
    NestOfNormal(es[lo..]);
  }

  // The Python list object that dep_parenreduce rewrites.
  class TokenList {
    var mysplit: seq<Elem>

    constructor (tokens: seq<Elem>)
      ensures mysplit == tokens
    {
      mysplit := tokens;
    }

    /** dep_parenreduce: nest everything from position start on, in place. */
    method DepParenReduce(start: nat)
      modifies this
      ensures start <= |old(mysplit)| ==> mysplit == old(mysplit[..start]) + Nest(old(mysplit[start..]))
      ensures start > |old(mysplit)| ==> mysplit == old(mysplit)
      decreases |mysplit| - start, 1
    {
      hide Nest, Normal, Scanning;
      if start > |mysplit| { return; }
      ghost var before := mysplit;
      var mypos := start;
      while mypos < |mysplit|
        invariant start <= mypos && SameNest(before, mysplit, start)
        invariant mypos <= |mysplit| ==> NoOpen(mysplit, start, mypos)
        invariant mypos > |mysplit| ==> Normal(mysplit[start..])
        decreases |mysplit| - mypos
      {
        if mysplit[mypos] == OPEN {
          mypos := ScanGroup(mypos, before, start);
        }
        mypos := mypos + 1;
      }
      if mypos == |mysplit| { NoOpenNormal(mysplit, start); }
      Finished(before, mysplit, start);
    }

    // The inner loop of dep_parenreduce, from the opening parenthesis at
    // firstpos on. It stops where it put the list, or at the end.
    method ScanGroup(firstpos: nat, ghost before: seq<Elem>, ghost start: nat) returns (mypos: nat)
      requires start <= firstpos < |mysplit| && mysplit[firstpos] == OPEN
      requires SameNest(before, mysplit, start) && NoOpen(mysplit, start, firstpos)
      modifies this
      ensures firstpos <= mypos <= |mysplit| <= |old(mysplit)| && SameNest(before, mysplit, start)
      ensures mypos < |mysplit| ==> NoOpen(mysplit, start, mypos + 1)
      ensures mypos == |mysplit| ==> Normal(mysplit[start..])
      decreases |mysplit| - firstpos, 0
    {
      hide Nest, Normal, Scanning, SameNest;
      SameNestLength(before, mysplit, start);
      mypos := firstpos + 1;
      ScanStart(mysplit, firstpos);
      while mypos < |mysplit|
        invariant firstpos < mypos <= |mysplit| <= |old(mysplit)|
        invariant SameNest(before, mysplit, start) && NoOpen(mysplit, start, firstpos)
        invariant Scanning(mysplit, firstpos, mypos)
        decreases |mysplit| - mypos
      {
        ghost var es := mysplit;
        if mysplit[mypos] == CLOSE {
          GroupReplaced(before, es, start, firstpos, mypos);
          mysplit := mysplit[..firstpos] + [Sub(mysplit[firstpos + 1..mypos])] + mysplit[mypos + 1..];
          mypos := firstpos;
          return;
        } else if mysplit[mypos] == OPEN {
          DepParenReduce(mypos);
          NestLength(es[mypos..]);
          SuffixReplaced(before, es, mysplit, start, mypos);
          ScanOn(es, mysplit, firstpos, mypos);
        } else {
          ScanPast(mysplit, firstpos, mypos);
        }
        mypos := mypos + 1;
      }
      ScannedNormal(mysplit, start, firstpos);
    }
  }

  lemma SameNestLength(before: seq<Elem>, es: seq<Elem>, lo: nat)
    requires SameNest(before, es, lo)
    ensures lo <= |es| <= |before|
  {
  }

  lemma ScanStart(es: seq<Elem>, first: nat)
    requires first < |es| && IsOpen(es[first])
    ensures Scanning(es, first, first + 1)
  {
  }

  lemma ScanPast(es: seq<Elem>, first: nat, pos: nat)
    requires Scanning(es, first, pos) && pos < |es| && !IsOpen(es[pos]) && !IsClose(es[pos])
    ensures Scanning(es, first, pos + 1)
  {
  }

  lemma NoOpenNormal(es: seq<Elem>, lo: nat)
    requires lo <= |es| && NoOpen(es, lo, |es|)
    ensures Normal(es[lo..])
  {
  }

  lemma ScannedNormal(es: seq<Elem>, lo: nat, first: nat)
    requires lo <= first < |es| && NoOpen(es, lo, first) && Scanning(es, first, |es|)
    ensures Normal(es[lo..])
  {
  }

  // ------------------------------------------------------------------ tokenize

  predicate IsSpace(c: char) {
    c in {' ', '\t', '\n', '\r', '\U{0b}', '\U{0c}'}
  }

  // A word, if any characters have been collected.
  function Word(accum: string): seq<Elem> {
    if accum == "" then [] else [Str(accum)]
  }

  /** The tokens of a string, after the characters in accum: single parentheses,
      and maximal runs of other characters between white space and parentheses. */
  function Lex(accum: string, s: string): seq<Elem>
    decreases s
  {
    if s == "" then Word(accum)
    else if s[0] == '(' then Word(accum) + [OPEN] + Lex("", s[1..])
    else if s[0] == ')' then Word(accum) + [CLOSE] + Lex("", s[1..])
    else if IsSpace(s[0]) then Word(accum) + Lex("", s[1..])
    else Lex(accum + [s[0]], s[1..])
  }

  // White space: a blank, or one of the five control characters from tab on.
  predicate IsBlank(c: char) {
    c == ' ' || 9 <= c as int <= 13
  }

  predicate AllBlank(s: string) {
    forall i :: 0 <= i < |s| ==> IsBlank(s[i])
  }

  predicate IsWord(s: string) {
    s != "" && forall i :: 0 <= i < |s| ==> !IsBlank(s[i]) && s[i] != '(' && s[i] != ')'
  }

  /** Words and single parentheses with white space around them, of which there is
      some between two words. */
  predicate Spaced(parts: seq<string>, gaps: seq<string>) {
    && |gaps| == |parts| + 1
    && (forall i :: 0 <= i < |gaps| ==> AllBlank(gaps[i]))
    && (forall i :: 0 <= i < |parts| ==> IsWord(parts[i]) || parts[i] == "(" || parts[i] == ")")
    && (forall i {:trigger parts[i]} ::
          0 <= i < |parts| - 1 && IsWord(parts[i]) && IsWord(parts[i + 1]) ==> gaps[i + 1] != "")
  }

  function Text(parts: seq<string>, gaps: seq<string>): string
    requires |gaps| == |parts| + 1
  {
    if parts == [] then gaps[0] else gaps[0] + parts[0] + Text(parts[1..], gaps[1..])
  }

  function Strs(parts: seq<string>): (r: seq<Elem>)
    ensures |r| == |parts| && forall i :: 0 <= i < |r| ==> r[i] == Str(parts[i])
  {
    if parts == [] then [] else [Str(parts[0])] + Strs(parts[1..])
  }

  lemma BlankIs(c: char)
    ensures IsBlank(c) <==> IsSpace(c)
    ensures IsBlank(c) ==> c != '(' && c != ')'
  {
  }

  lemma {:induction false} LexBlank(accum: string, gap: string, s: string)
    requires AllBlank(gap) && gap != ""
    ensures Lex(accum, gap + s) == Word(accum) + Lex("", s)
    decreases |gap|
  {
    BlankIs(gap[0]);
    assert (gap + s)[1..] == gap[1..] + s;
    if gap[1..] == "" {
      assert gap[1..] + s == s;
    } else {
      hide IsSpace;
      LexBlank("", gap[1..], s);
      assert [] + Lex("", s) == Lex("", s);
    }
  }

  lemma {:induction false} LexLetters(accum: string, w: string, s: string)
    requires w == "" || IsWord(w)
    ensures Lex(accum, w + s) == Lex(accum + w, s)
    decreases |w|
  {
    if w == "" {
      assert "" + s == s && accum + "" == accum;
    } else {
      BlankIs(w[0]);
      assert (w + s)[1..] == w[1..] + s && (w + s)[0] == w[0];
      hide IsSpace;
      LexLetters(accum + [w[0]], w[1..], s);
      assert accum + [w[0]] + w[1..] == accum + w;
    }
  }

  // Where a word cannot go on, it ends.
  lemma LexEnds(accum: string, s: string)
    requires s == "" || IsBlank(s[0]) || s[0] == '(' || s[0] == ')'
    ensures Lex(accum, s) == Word(accum) + Lex("", s)
  {
    if s != "" {
      BlankIs(s[0]);
      hide IsSpace, Word;
      assert Word("") == [] by { NoWord(); }
      assert Word(accum) + [OPEN] + Lex("", s[1..]) == Word(accum) + ([] + [OPEN] + Lex("", s[1..]));
      assert Word(accum) + [CLOSE] + Lex("", s[1..]) == Word(accum) + ([] + [CLOSE] + Lex("", s[1..]));
      assert Word(accum) + Lex("", s[1..]) == Word(accum) + ([] + Lex("", s[1..]));
    } else {
      NoWord();
    }
  }

  lemma NoWord()
    ensures Word("") == []
  {
  }

  // What follows a word: nothing, white space, or a parenthesis.
  lemma TextAfterWord(parts: seq<string>, gaps: seq<string>)
    requires parts != [] && Spaced(parts, gaps) && IsWord(parts[0])
    ensures var s := Text(parts[1..], gaps[1..]);
      s == "" || IsBlank(s[0]) || s[0] == '(' || s[0] == ')'
  {
    if gaps[1] == "" && |parts| > 1 {
      assert !IsWord(parts[0 + 1]);
      assert parts[1..][0] == parts[1] && gaps[1..][0] == gaps[1];
    }
  }

  /** tokenize cuts a text into exactly its words and parentheses. */
  lemma {:induction false} LexText(parts: seq<string>, gaps: seq<string>)
    requires Spaced(parts, gaps)
    ensures Lex("", Text(parts, gaps)) == Strs(parts)
    decreases |parts|
  {
    hide Word, IsSpace, IsWord, IsBlank, Spaced;
    NoWord();
    if parts == [] {
      GapsBlank(parts, gaps);
      if gaps[0] != "" {
        assert gaps[0] + "" == gaps[0];
        LexBlank("", gaps[0], "");
      }
    } else {
      GapsBlank(parts, gaps);
      SpacedRest(parts, gaps);
      var rest := Text(parts[1..], gaps[1..]);
      LexText(parts[1..], gaps[1..]);
      FirstPart(parts, gaps);
      if gaps[0] != "" {
        assert gaps[0] + parts[0] + rest == gaps[0] + (parts[0] + rest);
        LexBlank("", gaps[0], parts[0] + rest);
      } else {
        assert gaps[0] + parts[0] + rest == parts[0] + rest;
      }
    }
  }

  lemma GapsBlank(parts: seq<string>, gaps: seq<string>)
    requires Spaced(parts, gaps)
    ensures |gaps| == |parts| + 1 && AllBlank(gaps[0])
  {
  }

  lemma SpacedRest(parts: seq<string>, gaps: seq<string>)
    requires parts != [] && Spaced(parts, gaps)
    ensures Spaced(parts[1..], gaps[1..])
  {
    hide IsWord, AllBlank;
    var ps, gs := parts[1..], gaps[1..];
    forall i {:trigger ps[i]} | 0 <= i < |ps| - 1 && IsWord(ps[i]) && IsWord(ps[i + 1])
      ensures gs[i + 1] != ""
    {
      assert ps[i] == parts[i + 1] && ps[i + 1] == parts[i + 1 + 1] && gs[i + 1] == gaps[i + 1 + 1];
    }
  }

  lemma FirstPart(parts: seq<string>, gaps: seq<string>)
    requires parts != [] && Spaced(parts, gaps)
    ensures var rest := Text(parts[1..], gaps[1..]);
      Lex("", parts[0] + rest) == [Str(parts[0])] + Lex("", rest)
  {
    var rest := Text(parts[1..], gaps[1..]);
    if IsWord(parts[0]) {
      TextAfterWord(parts, gaps);
      hide IsSpace;
      LexLetters("", parts[0], rest);
      assert "" + parts[0] == parts[0];
      LexEnds(parts[0], rest);
    } else {
      hide IsSpace;
      assert (parts[0] + rest)[1..] == rest;
      assert [] + [OPEN] + Lex("", rest) == [OPEN] + Lex("", rest);
      assert [] + [CLOSE] + Lex("", rest) == [CLOSE] + Lex("", rest);
    }
  }

  // The result of tokenize: the nested form, or nothing when the parentheses do not match.
  ghost function Parsed(s: string): Option<seq<Elem>> {
    if Balanced(Lex("", s)) then Some(Nest(Lex("", s))) else None
  }

  // ts is a beginning of the token list all: if it closes too much, so does all.
  lemma PrefixBelow(ts: seq<Elem>, all: seq<Elem>)
    requires ts <= all && !NeverBelow(ts)
    ensures !Balanced(all)
  {
    var k :| 0 <= k <= |ts| && Level(ts[..k]) < 0;
    assert all[..k] == ts[..k];
  }

  // Reading a word or a character that ends one.
  lemma FeedsWord(prevlists: seq<seq<Elem>>, curlist: seq<Elem>, ts: seq<Elem>, accum: string)
    requires prevlists + [curlist] == Feeds([[]], ts) && '(' !in accum && ')' !in accum
    ensures Feeds([[]], ts + Word(accum)) == prevlists + [curlist + Word(accum)]
    ensures NeverBelow(ts) ==> NeverBelow(ts + Word(accum))
  {
    hide Feeds;
    var stack := prevlists + [curlist];
    if accum == "" {
      assert ts + [] == ts && curlist + [] == curlist;
    } else {
      assert accum[0] in accum;
      FeedsAppend([[]], ts, [Str(accum)]);
      FeedsOne(stack, Str(accum));
      assert stack[..|stack| - 1] == prevlists;
      NeverBelowStep(ts, Str(accum));
    }
  }

  lemma FeedsParen(stack: seq<seq<Elem>>, ts: seq<Elem>, e: Elem)
    requires stack == Feeds([[]], ts) && NeverBelow(ts) && (e == OPEN || e == CLOSE)
    ensures Feeds([[]], ts + [e]) == Feed(stack, e)
    ensures NeverBelow(ts + [e]) <==> !(e == CLOSE && |stack| == 1)
  {
    hide Feeds, NeverBelow, Level;
    FeedsAppend([[]], ts, [e]);
    FeedsOne(stack, e);
    NeverBelowStep(ts, e);
    StackDepth(ts);
  }

  /** tokenize: the list stack is prevlists with curlist on top. */
  method Tokenize(mystring: string) returns (r: Option<seq<Elem>>)
    ensures r == Parsed(mystring)
  {
    hide Feeds, Feed, NeverBelow, Level, Nest;
    var curlist: seq<Elem> := [];
    var prevlists: seq<seq<Elem>> := [];
    var level := 0;
    var accum := "";
    var i := 0;
    ghost var ts: seq<Elem> := [];
    TokenizeStart(mystring);
    while i < |mystring|
      invariant i <= |mystring| && level == |prevlists|
      invariant '(' !in accum && ')' !in accum
      invariant Lex("", mystring) == ts + Lex(accum, mystring[i..])
      invariant prevlists + [curlist] == Feeds([[]], ts) && NeverBelow(ts)
    {
      var x := mystring[i];
      ghost var rest := mystring[i..];
      assert rest[0] == x && rest[1..] == mystring[i + 1..];
      FeedsWord(prevlists, curlist, ts, accum);
      ghost var before := curlist;
      if x == '(' {
        if accum != "" {
          curlist := curlist + [Str(accum)];
        }
        assert curlist == before + Word(accum);
        ts := ts + Word(accum);
        accum := "";
        assert prevlists + [curlist] == Feeds([[]], ts);
        FeedsParen(prevlists + [curlist], ts, OPEN);
        FeedOpen(prevlists + [curlist]);
        prevlists := prevlists + [curlist];
        curlist := [];
        level := level + 1;
        ts := ts + [OPEN];
      } else if x == ')' {
        if accum != "" {
          curlist := curlist + [Str(accum)];
        }
        assert curlist == before + Word(accum);
        ts := ts + Word(accum);
        accum := "";
        assert prevlists + [curlist] == Feeds([[]], ts);
        FeedsParen(prevlists + [curlist], ts, CLOSE);
        if level == 0 {
          PrefixBelow(ts + [CLOSE], Lex("", mystring));
          return None;
        }
        FeedPop(prevlists, curlist);
        var newlist := curlist;
        curlist := prevlists[|prevlists| - 1];
        prevlists := prevlists[..|prevlists| - 1];
        curlist := curlist + [Sub(newlist)];
        level := level - 1;
        ts := ts + [CLOSE];
      } else if IsSpace(x) {
        if accum != "" {
          curlist := curlist + [Str(accum)];
        }
        assert curlist == before + Word(accum);
        ts := ts + Word(accum);
        accum := "";
      } else {
        accum := accum + [x];
      }
      i := i + 1;
    }
    FeedsWord(prevlists, curlist, ts, accum);
    ghost var before := curlist;
    if accum != "" {
      curlist := curlist + [Str(accum)];
    }
    assert curlist == before + Word(accum);
    ts := ts + Word(accum);
    assert prevlists + [curlist] == Feeds([[]], ts);
    TokenizeEnd(prevlists, curlist, ts);
    if level != 0 {
      return None;
    }
    return Some(curlist);
  }

  lemma TokenizeStart(s: string)
    ensures [] + [[]] == Feeds([[]], []) && NeverBelow([])
    ensures Lex("", s) == [] + Lex("", s[0..])
  {
    var none: seq<Elem> := [];
    assert none[..0] == none && [] + [none] == [none] && s[0..] == s;
  }

  lemma FeedPop(prevlists: seq<seq<Elem>>, curlist: seq<Elem>)
    requires prevlists != []
    ensures var n := |prevlists| - 1;
      Feed(prevlists + [curlist], CLOSE) == prevlists[..n] + [prevlists[n] + [Sub(curlist)]]
  {
    assert (prevlists + [curlist])[..|prevlists| - 1] == prevlists[..|prevlists| - 1];
  }

  lemma TokenizeEnd(prevlists: seq<seq<Elem>>, curlist: seq<Elem>, ts: seq<Elem>)
    requires prevlists + [curlist] == Feeds([[]], ts) && NeverBelow(ts)
    ensures prevlists == [] <==> Balanced(ts)
    ensures prevlists == [] ==> Nest(ts) == curlist
  {
    StackDepth(ts);
  }

  /** On every string whose parentheses match, dep_parenreduce applied to its
      tokens leaves exactly the list that tokenize returns; on any other string
      tokenize returns nothing and a parenthesis stays in the other's result. */
  method ParsersAgree(s: string, tokens: TokenList) returns (r: Option<seq<Elem>>)
    requires tokens.mysplit == Lex("", s)
    modifies tokens
    ensures r.Some? <==> Balanced(Lex("", s))
    ensures r.Some? ==> tokens.mysplit == r.value
    ensures r.Some? <==> Plain(tokens.mysplit)
  {
    r := Tokenize(s);
    tokens.DepParenReduce(0);
    assert tokens.mysplit == Nest(Lex("", s)) by { assert Lex("", s)[0..] == Lex("", s); }
    NestPlainIffBalanced(Lex("", s));
  }
}

/** Version comparison of bb.py: relparse, vercmp with its cache, and pkgcmp.
    How a float is rounded is a parameter. */
module Version {
  import opened Wrappers

  // ------------------------------------------------------- Python's strings

  // str.split with a one-character separator.
  function Split(s: string, c: char): (r: seq<string>)
    ensures |r| >= 1
  {
    if s == "" then [""]
    else if s[0] == c then [""] + Split(s[1..], c)
    else
      var r := Split(s[1..], c);
      [[s[0]] + r[0]] + r[1..]
  }

  lemma {:induction false} SplitNone(s: string, c: char)
    requires c !in s
    ensures Split(s, c) == [s]
  {
    if s != "" {
      SplitNone(s[1..], c);
      assert [s[0]] + s[1..] == s;
    }
  }

  lemma {:induction false} SplitFirst(a: string, b: string, c: char)
    requires c !in a
    ensures Split(a + [c] + b, c) == [a] + Split(b, c)
  {
    var s := a + [c] + b;
    if a == "" {
      assert s[1..] == b;
    } else {
      assert s[1..] == a[1..] + [c] + b;
      SplitFirst(a[1..], b, c);
      assert [a[0]] + a[1..] == a;
      assert ([a[1..]] + Split(b, c))[1..] == Split(b, c);
    }
  }

  // The parts have no other characters than the whole, and between them all of
  // those except the separator.
  lemma {:induction false} SplitChars(s: string, c: char, d: char)
    requires d != c
    ensures d in s <==> exists i :: 0 <= i < |Split(s, c)| && d in Split(s, c)[i]
  {
    if s != "" {
      var r, all := Split(s[1..], c), Split(s, c);
      SplitChars(s[1..], c, d);
      assert s == [s[0]] + s[1..];
      if s[0] == c {
        assert forall i :: 0 <= i < |r| ==> all[i + 1] == r[i];
      } else {
        assert all[0] == [s[0]] + r[0];
        assert forall i :: 1 <= i < |r| ==> all[i] == r[i];
      }
    }
  }

  predicate IsDigit(c: char) {
    '0' <= c <= '9'
  }

  predicate AllDigits(s: string) {
    forall i :: 0 <= i < |s| ==> IsDigit(s[i])
  }

  predicate Digits(s: string) {
    s != "" && AllDigits(s)
  }

  // The number that digits stand for.
  function Decimal(s: string): (r: real)
    requires AllDigits(s)
    ensures r >= 0.0
  {
    if s == "" then 0.0
    else Decimal(s[..|s| - 1]) * 10.0 + (s[|s| - 1] as int - '0' as int) as real
  }

  function Power(n: nat): (r: real)
    ensures r > 0.0
  {
    if n == 0 then 1.0 else 10.0 * Power(n - 1)
  }

  function Sign(r: real): int {
    if r < 0.0 then -1 else if r > 0.0 then 1 else 0
  }

  // The machine's floats: how a real number is rounded to one, and how two are
  // subtracted.
  datatype FloatOps = FloatOps(round: real -> real, minus: (real, real) -> real)

  // Rounding keeps the order and 0; a difference has the right sign.
  ghost predicate Faithful(ops: FloatOps) {
    && ops.round(0.0) == 0.0
    && (forall x, y :: x <= y ==> ops.round(x) <= ops.round(y))
    && (forall x, y :: Sign(ops.minus(x, y)) == Sign(x - y))
  }

  const EXACT: FloatOps := FloatOps(x => x, (x, y) => x - y)

  type Floats = ops: FloatOps | Faithful(ops) witness EXACT

  // float() on digits, with or without a point in front; None is the exception.
  function Float(fl: Floats, s: string): (r: Option<real>)
    ensures r.Some? ==> r.value >= 0.0
  {
    if Digits(s) then Some(Rounded(fl, Decimal(s)))
    else if s != "" && s[0] == '.' && Digits(s[1..]) then Some(Rounded(fl, Decimal(s[1..]) / Power(|s| - 1)))
    else None
  }

  function Rounded(fl: Floats, x: real): (r: real)
    requires x >= 0.0
    ensures r >= 0.0 && (x == 0.0 ==> r == 0.0)
  {
    fl.round(x)
  }

  // ---------------------------------------------------------------- relparse

  // _package_ends_ and _package_weights_; the last three ends have no weight.
  const ENDS: seq<string> := ["pre", "p", "alpha", "beta", "rc", "cvs", "bk", "HEAD"]
  const WEIGHTS: seq<int> := [-2, 0, -4, -3, -1]

  predicate StartsWith(s: string, x: string) {
    |x| <= |s| && s[..|x|] == x
  }

  // The first end, from number i on, that the text starts with.
  function EndOf(s: string, i: nat): (r: nat)
    requires i <= |ENDS|
    ensures i <= r <= |ENDS| && (r < |ENDS| ==> StartsWith(s, ENDS[r]))
    decreases |ENDS| - i
  {
    if i == |ENDS| || StartsWith(s, ENDS[i]) then i else EndOf(s, i + 1)
  }

  datatype Triple = Triple(number: real, p1: int, p2: real)

  // A number, or a number with a letter at its end.
  function LastNumber(fl: Floats, s: string): Option<Triple> {
    if s == "" then None
    else
      var divider := |s| - 1;
      if !IsDigit(s[divider]) then
        match Float(fl, s[..divider])
        case None => None
        case Some(number) => Some(Triple(number, s[divider] as int, 0.0))
      else
        match Float(fl, s)
        case None => None
        case Some(number) => Some(Triple(number, 0, 0.0))
  }

  function OrZero(f: Option<real>): real {
    if f.Some? then f.value else 0.0
  }

  function Relparse(fl: Floats, s: string): Option<Triple> {
    var parts := Split(s, '_');
    if |parts| == 2 && EndOf(parts[1], 0) < |ENDS| then
      var e := EndOf(parts[1], 0);
      match Float(fl, parts[0])
      case None => None
      case Some(number) =>
        if e >= |WEIGHTS| then None
        else Some(Triple(number, WEIGHTS[e], OrZero(Float(fl, parts[1][|ENDS[e]|..]))))
    else LastNumber(fl, s)
  }

  // ---------------------------------------------------------- valid versions

  // What stands before the first '_', and what after it.
  function Body(s: string): (r: string)
    ensures '_' !in r
  {
    if s == "" || s[0] == '_' then "" else [s[0]] + Body(s[1..])
  }

  function Prepart(s: string): string {
    if s == "" then "" else if s[0] == '_' then s[1..] else Prepart(s[1..])
  }

  lemma {:induction false} BodyPrepart(s: string)
    ensures if '_' in s then s == Body(s) + "_" + Prepart(s) else s == Body(s) && Prepart(s) == ""
  {
    if s != "" && s[0] != '_' {
      BodyPrepart(s[1..]);
      assert s == [s[0]] + s[1..];
    }
  }

  predicate IsLower(c: char) {
    'a' <= c <= 'z'
  }

  // Digits, and a letter if there is no suffix.
  predicate LastOk(c: string, suffixed: bool) {
    Digits(c) || (!suffixed && |c| >= 2 && IsLower(c[|c| - 1]) && Digits(c[..|c| - 1]))
  }

  // One of the ends that have a weight, and a number or nothing.
  predicate SuffixOk(p: string) {
    EndOf(p, 0) < |WEIGHTS|
    && (p[|ENDS[EndOf(p, 0)]|..] == "" || Digits(p[|ENDS[EndOf(p, 0)]|..]))
  }

  function Components(s: string): (r: seq<string>)
    ensures |r| >= 1
  {
    Split(Body(s), '.')
  }

  predicate ValidVersion(s: string) {
    var cs := Components(s);
    && (forall i :: 0 <= i < |cs| - 1 ==> Digits(cs[i]))
    && LastOk(cs[|cs| - 1], '_' in s)
    && ('_' in s ==> SuffixOk(Prepart(s)))
  }

  // ------------------------------------------------------------ the comparison

  // A point in front of a component that starts with 0, except the first.
  function Pointed(c: string, i: nat): string {
    if i > 0 && c != "" && c[0] == '0' then "." + c else c
  }

  function Max(a: nat, b: nat): nat {
    if a < b then b else a
  }

  // The components extended to n, with the suffix behind the last.
  function Padded(s: string, n: nat): (r: seq<string>)
    requires n >= |Components(s)|
    ensures |r| == n
  {
    var cs := Components(s);
    var plain := seq(n, i requires 0 <= i < n => if i < |cs| then Pointed(cs[i], i) else "0");
    if Prepart(s) == "" then plain else plain[n - 1 := plain[n - 1] + "_" + Prepart(s)]
  }

  function Difference(fl: Floats, a: Triple, b: Triple): real {
    if a.number != b.number then fl.minus(a.number, b.number)
    else if a.p1 != b.p1 then (a.p1 - b.p1) as real
    else fl.minus(a.p2, b.p2)
  }

  // The first difference from index x on.
  function Differ(fl: Floats, l1: seq<string>, l2: seq<string>, x: nat): real
    requires |l1| == |l2| && x <= |l1|
    requires forall i :: 0 <= i < |l1| ==> Relparse(fl, l1[i]).Some? && Relparse(fl, l2[i]).Some?
    decreases |l1| - x
  {
    if x == |l1| then 0.0
    else
      var d := Difference(fl, Relparse(fl, l1[x]).value, Relparse(fl, l2[x]).value);
      if d != 0.0 then d else Differ(fl, l1, l2, x + 1)
  }

  // The number and the letter of a component, and the suffix of a version.
  datatype Pair = Pair(number: real, letter: int)

  const ZERO: Pair := Pair(0.0, 0)

  function PairOf(fl: Floats, c: string, i: nat): Pair {
    match LastNumber(fl, Pointed(c, i))
    case None => ZERO
    case Some(t) => Pair(t.number, t.p1)
  }

  function Pairs(fl: Floats, s: string): (r: seq<Pair>)
    ensures |r| == |Components(s)|
  {
    seq(|Components(s)|, i requires 0 <= i < |Components(s)| => PairOf(fl, Components(s)[i], i))
  }

  function Weight(s: string): int {
    if '_' in s && SuffixOk(Prepart(s)) then WEIGHTS[EndOf(Prepart(s), 0)] else 0
  }

  function SuffixNumber(fl: Floats, s: string): real {
    if '_' in s && SuffixOk(Prepart(s)) then OrZero(Float(fl, Prepart(s)[|ENDS[EndOf(Prepart(s), 0)]|..])) else 0.0
  }

  function PairAt(ps: seq<Pair>, i: nat): Pair {
    if i < |ps| then ps[i] else ZERO
  }

  // ----------------------------------------------- parsing padded components

  lemma FloatZero(fl: Floats)
    ensures Float(fl, "0") == Some(0.0)
  {
    assert Decimal("0") == Decimal("0"[..0]) * 10.0 + ('0' as int - '0' as int) as real;
  }

  // A component of a valid version, as vercmp passes it to relparse.
  predicate ComponentOk(c: string) {
    Digits(c) || (|c| >= 2 && IsLower(c[|c| - 1]) && Digits(c[..|c| - 1]))
  }

  lemma NoMark(c: string, i: nat)
    requires ComponentOk(c)
    ensures '_' !in Pointed(c, i)
  {
    var d := c[..|c| - 1];
    assert forall k :: 0 <= k < |c| - 1 ==> c[k] == d[k];
  }

  // Its number is defined and not negative; a letter is above every weight.
  lemma ComponentParsed(fl: Floats, c: string, i: nat)
    requires ComponentOk(c)
    ensures var p := PairOf(fl, c, i);
      && LastNumber(fl, Pointed(c, i)) == Some(Triple(p.number, p.letter, 0.0))
      && p.number >= 0.0 && (if Digits(c) then p.letter == 0 else p.letter > 0)
  {
    var s := Pointed(c, i);
    var n := |s| - 1;
    if Digits(c) {
      assert s[n] == c[|c| - 1];
      assert s != c ==> s[1..] == c;
      assert Float(fl, s).Some?;
    } else {
      assert s[n] == c[|c| - 1];
      var d := c[..|c| - 1];
      assert d[0] == c[0];
      assert s[..n] == if s == c then d else "." + d;
      assert s != c ==> ("." + d)[1..] == d;
      assert Float(fl, s[..n]).Some?;
    }
  }

  lemma PlainRelparse(fl: Floats, s: string)
    requires '_' !in s
    ensures Relparse(fl, s) == LastNumber(fl, s)
  {
    SplitNone(s, '_');
  }

  lemma NoMarkInSuffix(p: string)
    requires SuffixOk(p)
    ensures '_' !in p && ' ' !in p && p != ""
  {
    var e := EndOf(p, 0);
    var x := ENDS[e];
    assert p == x + p[|x|..];
    assert '_' !in x && ' ' !in x && x != "";
    assert '_' !in p[|x|..] && ' ' !in p[|x|..];
  }

  lemma SuffixedRelparse(fl: Floats, c: string, p: string)
    requires '_' !in c && SuffixOk(p) && Float(fl, c).Some?
    ensures Relparse(fl, c + "_" + p)
      == Some(Triple(Float(fl, c).value, WEIGHTS[EndOf(p, 0)], OrZero(Float(fl, p[|ENDS[EndOf(p, 0)]|..]))))
  {
    NoMarkInSuffix(p);
    SplitFirst(c, p, '_');
    SplitNone(p, '_');
  }

  // The suffix part of the last padded component.
  function SuffixWeight(s: string, last: bool): int {
    if last then Weight(s) else 0
  }

  function SuffixValue(fl: Floats, s: string, last: bool): real {
    if last then SuffixNumber(fl, s) else 0.0
  }

  /** What relparse makes of the x-th padded component: the number and the letter
      of the version's own component, or zeros, and the suffix in the last. */
  lemma PaddedParsed(fl: Floats, s: string, n: nat, x: nat)
    requires ValidVersion(s) && |Components(s)| <= n && x < n
    ensures var p := PairAt(Pairs(fl, s), x);
      && Relparse(fl, Padded(s, n)[x])
        == Some(Triple(p.number, p.letter + SuffixWeight(s, x == n - 1), SuffixValue(fl, s, x == n - 1)))
      && p.number >= 0.0 && p.letter >= 0
      && (x == n - 1 && '_' in s ==> p.letter == 0)
  {
    hide Relparse, Float, Split, EndOf, SuffixOk, Digits;
    var cs := Components(s);
    var c := if x < |cs| then cs[x] else "0";
    OneDigit();
    assert ComponentOk(c);
    assert Pointed("0", 0) == "0";
    var i := if x < |cs| then x else 0;
    NoMark(c, i);
    ComponentParsed(fl, c, i);
    BodyPrepart(s);
    var plain := Pointed(c, i);
    if x == n - 1 && '_' in s {
      assert Digits(c);
      NoMarkInSuffix(Prepart(s));
      DigitsFloat(fl, c, i);
      SuffixedRelparse(fl, plain, Prepart(s));
    } else {
      PlainRelparse(fl, plain);
    }
    if x >= |cs| { ZeroPair(fl); }
  }

  lemma OneDigit()
    ensures Digits("0")
  {
  }

  lemma ZeroPair(fl: Floats)
    ensures PairOf(fl, "0", 0) == ZERO
  {
    FloatZero(fl);
    assert Pointed("0", 0) == "0";
  }

  lemma DigitsFloat(fl: Floats, c: string, i: nat)
    requires Digits(c)
    ensures Float(fl, Pointed(c, i)) == Some(PairOf(fl, c, i).number)
  {
    var s := Pointed(c, i);
    assert s[|s| - 1] == c[|c| - 1];
    assert s != c ==> s[1..] == c;
  }

  // vercmp without its cache.
  function Compare(fl: Floats, a: string, b: string): real
    requires ValidVersion(a) && ValidVersion(b)
  {
    var n := Max(|Components(a)|, |Components(b)|);
    assert forall x :: 0 <= x < n ==> Relparse(fl, Padded(a, n)[x]).Some? && Relparse(fl, Padded(b, n)[x]).Some? by {
      forall x | 0 <= x < n
        ensures Relparse(fl, Padded(a, n)[x]).Some? && Relparse(fl, Padded(b, n)[x]).Some?
      {
        PaddedParsed(fl, a, n, x);
        PaddedParsed(fl, b, n, x);
      }
    }
    Differ(fl, Padded(a, n), Padded(b, n), 0)
  }

  // ---------------------------------------------------------- canonical keys

  // The pairs without zeros at the end, and the suffix.
  datatype Key = Key(pairs: seq<Pair>, weight: int, number: real)

  function Strip(ps: seq<Pair>): seq<Pair> {
    if ps == [] then []
    else
      var rest := Strip(ps[1..]);
      if rest == [] && ps[0] == ZERO then [] else [ps[0]] + rest
  }

  /** The key depends on no other version. */
  function KeyOf(fl: Floats, s: string): Key {
    Key(Strip(Pairs(fl, s)), Weight(s), SuffixNumber(fl, s))
  }

  function ComparePairs(p: Pair, q: Pair): int {
    if p.number != q.number then Sign(p.number - q.number) else Sign((p.letter - q.letter) as real)
  }

  function CompareSuffixes(w1: int, n1: real, w2: int, n2: real): int {
    if w1 != w2 then Sign((w1 - w2) as real) else Sign(n1 - n2)
  }

  // Lexicographic order; a prefix is smaller.
  function Lex(a: seq<Pair>, b: seq<Pair>): int {
    if a == [] && b == [] then 0
    else if a == [] then -1
    else if b == [] then 1
    else if a[0] != b[0] then ComparePairs(a[0], b[0])
    else Lex(a[1..], b[1..])
  }

  function CompareKeys(k1: Key, k2: Key): int {
    if Lex(k1.pairs, k2.pairs) != 0 then Lex(k1.pairs, k2.pairs)
    else CompareSuffixes(k1.weight, k1.number, k2.weight, k2.number)
  }

  function Drop(ps: seq<Pair>, x: nat): seq<Pair> {
    if x <= |ps| then ps[x..] else []
  }

  lemma StripStep(ps: seq<Pair>, x: nat)
    ensures var rest := Strip(Drop(ps, x + 1));
      Strip(Drop(ps, x)) == if rest == [] && PairAt(ps, x) == ZERO then [] else [PairAt(ps, x)] + rest
  {
    if x < |ps| {
      assert ps[x..][1..] == ps[x + 1..];
    }
  }

  // Zeros at the end do not matter for the order of pairs that are not negative.
  lemma LexStep(a: Pair, as': seq<Pair>, b: Pair, bs: seq<Pair>)
    requires a.number >= 0.0 && a.letter >= 0 && b.number >= 0.0 && b.letter >= 0
    ensures var l := if as' == [] && a == ZERO then [] else [a] + as';
      var r := if bs == [] && b == ZERO then [] else [b] + bs;
      Lex(l, r) == if a != b then ComparePairs(a, b) else Lex(as', bs)
  {
    assert ([a] + as')[1..] == as' && ([b] + bs)[1..] == bs;
  }

  // A letter and a suffix exclude each other, so their sum compares as they do.
  lemma TripleOrder(fl: Floats, p: Pair, w1: int, n1: real, q: Pair, w2: int, n2: real)
    requires p.letter >= 0 && q.letter >= 0
    requires p.letter > 0 ==> w1 == 0 && n1 == 0.0
    requires q.letter > 0 ==> w2 == 0 && n2 == 0.0
    requires w1 <= 0 && w2 <= 0
    ensures Sign(Difference(fl, Triple(p.number, p.letter + w1, n1), Triple(q.number, q.letter + w2, n2)))
      == if p != q then ComparePairs(p, q) else CompareSuffixes(w1, n1, w2, n2)
  {
  }

  lemma WeightSmall(fl: Floats, s: string)
    requires ValidVersion(s)
    ensures Weight(s) <= 0 && ('_' !in s ==> Weight(s) == 0 && SuffixNumber(fl, s) == 0.0)
  {
    hide EndOf, Split, Digits;
    assert forall i :: 0 <= i < |WEIGHTS| ==> WEIGHTS[i] <= 0;
  }

  // The loop of vercmp from component x on.
  lemma {:induction false} DifferIsKeyOrder(fl: Floats, a: string, b: string, n: nat, x: nat)
    requires ValidVersion(a) && ValidVersion(b) && |Components(a)| <= n && |Components(b)| <= n && x < n
    requires forall i :: 0 <= i < n ==> Relparse(fl, Padded(a, n)[i]).Some? && Relparse(fl, Padded(b, n)[i]).Some?
    ensures var c := Lex(Strip(Drop(Pairs(fl, a), x)), Strip(Drop(Pairs(fl, b), x)));
      Sign(Differ(fl, Padded(a, n), Padded(b, n), x))
        == if c != 0 then c else CompareSuffixes(Weight(a), SuffixNumber(fl, a), Weight(b), SuffixNumber(fl, b))
    decreases n - x
  {
    hide Relparse, Padded, Pairs, Weight, SuffixNumber, Strip, Drop, Lex, ValidVersion, Difference, ComparePairs,
         CompareSuffixes;
    var last := x == n - 1;
    var p, q := PairAt(Pairs(fl, a), x), PairAt(Pairs(fl, b), x);
    PaddedParsed(fl, a, n, x);
    PaddedParsed(fl, b, n, x);
    WeightSmall(fl, a);
    WeightSmall(fl, b);
    TripleOrder(fl, p, SuffixWeight(a, last), SuffixValue(fl, a, last), q, SuffixWeight(b, last),
                SuffixValue(fl, b, last));
    StripStep(Pairs(fl, a), x);
    StripStep(Pairs(fl, b), x);
    LexStep(p, Strip(Drop(Pairs(fl, a), x + 1)), q, Strip(Drop(Pairs(fl, b), x + 1)));
    SignOrder(p, q);
    NoSuffix();
    if last {
      NothingLeft(fl, a, n);
      NothingLeft(fl, b, n);
      assert Differ(fl, Padded(a, n), Padded(b, n), n) == 0.0;
    } else {
      DifferIsKeyOrder(fl, a, b, n, x + 1);
    }
  }

  lemma SignOrder(p: Pair, q: Pair)
    ensures ComparePairs(p, q) == 0 <==> p == q
  {
  }

  lemma NoSuffix()
    ensures CompareSuffixes(0, 0.0, 0, 0.0) == 0 && Lex([], []) == 0
  {
  }

  lemma NothingLeft(fl: Floats, s: string, n: nat)
    requires |Components(s)| <= n
    ensures Strip(Drop(Pairs(fl, s), n)) == []
  {
  }

  /** The sign of vercmp is the lexicographic order of the canonical keys. */
  lemma CompareIsKeyOrder(fl: Floats, a: string, b: string)
    requires ValidVersion(a) && ValidVersion(b)
    ensures Sign(Compare(fl, a, b)) == CompareKeys(KeyOf(fl, a), KeyOf(fl, b))
  {
    hide Relparse, Padded, Weight, SuffixNumber, ValidVersion, Differ;
    var n := Max(|Components(a)|, |Components(b)|);
    forall x | 0 <= x < n
      ensures Relparse(fl, Padded(a, n)[x]).Some? && Relparse(fl, Padded(b, n)[x]).Some?
    {
      PaddedParsed(fl, a, n, x);
      PaddedParsed(fl, b, n, x);
    }
    DifferIsKeyOrder(fl, a, b, n, 0);
    assert Drop(Pairs(fl, a), 0) == Pairs(fl, a) && Drop(Pairs(fl, b), 0) == Pairs(fl, b);
  }

  lemma {:induction false} LexOrder(a: seq<Pair>, b: seq<Pair>, c: seq<Pair>)
    ensures Lex(a, b) == 0 <==> a == b
    ensures Lex(a, b) == -Lex(b, a)
    ensures Lex(a, b) <= 0 && Lex(b, c) <= 0 ==> Lex(a, c) <= 0
    decreases |a|
  {
    if a != [] && b != [] && a[0] == b[0] {
      LexOrder(a[1..], b[1..], if c == [] then [] else c[1..]);
      assert a == [a[0]] + a[1..] && b == [b[0]] + b[1..];
    } else if a != [] && b != [] {
      SignOrder(a[0], b[0]);
    }
  }

  /** On valid versions vercmp is a total preorder: reflexive, antisymmetric in
      sign and transitive; it is 0 exactly on versions with the same key. */
  lemma TotalPreorder(fl: Floats, a: string, b: string, c: string)
    requires ValidVersion(a) && ValidVersion(b) && ValidVersion(c)
    ensures Compare(fl, a, a) == 0.0
    ensures Sign(Compare(fl, a, b)) == -Sign(Compare(fl, b, a))
    ensures Compare(fl, a, b) <= 0.0 && Compare(fl, b, c) <= 0.0 ==> Compare(fl, a, c) <= 0.0
    ensures Compare(fl, a, b) == 0.0 <==> KeyOf(fl, a) == KeyOf(fl, b)
  {
    hide Compare, KeyOf, ValidVersion;
    CompareIsKeyOrder(fl, a, a);
    CompareIsKeyOrder(fl, a, b);
    CompareIsKeyOrder(fl, b, a);
    CompareIsKeyOrder(fl, b, c);
    CompareIsKeyOrder(fl, a, c);
    KeyOrder(KeyOf(fl, a), KeyOf(fl, b), KeyOf(fl, c));
  }

  lemma KeyOrder(a: Key, b: Key, c: Key)
    ensures CompareKeys(a, a) == 0
    ensures CompareKeys(a, b) == -CompareKeys(b, a)
    ensures CompareKeys(a, b) <= 0 && CompareKeys(b, c) <= 0 ==> CompareKeys(a, c) <= 0
    ensures CompareKeys(a, b) == 0 <==> a == b
  {
    hide Lex;
    LexOrder(a.pairs, b.pairs, c.pairs);
    LexOrder(b.pairs, c.pairs, a.pairs);
    LexOrder(c.pairs, a.pairs, b.pairs);
    LexOrder(a.pairs, a.pairs, a.pairs);
  }

  // --------------------------------------------- what the order is about

  // Digits behind a point.
  function Fraction(s: string): real
    requires AllDigits(s)
  {
    Decimal(s) / Power(|s|)
  }

  function DigitAt(s: string, i: nat): int {
    if i < |s| then s[i] as int - '0' as int else 0
  }

  /** At the first place where the two differ, x has the greater digit; a missing
      digit is a 0. */
  ghost predicate FirstGreater(x: string, y: string) {
    exists i: nat :: GreaterAt(x, y, i)
  }

  ghost predicate GreaterAt(x: string, y: string, i: nat) {
    DigitAt(x, i) > DigitAt(y, i) && forall j: nat :: j < i ==> DigitAt(x, j) == DigitAt(y, j)
  }

  /** Numbers without a leading 0: the longer one is greater, and of two of the
      same length the one with the greater digit at the first difference. */
  ghost predicate Greater(x: string, y: string) {
    |x| > |y| || (|x| == |y| && FirstGreater(x, y))
  }

  function Tail(s: string): string {
    if s == "" then "" else s[1..]
  }

  // Products are named where a proof should not look into them.
  function Times(a: real, b: real): real {
    a * b
  }

  lemma {:induction false} DecimalFront(s: string)
    requires s != "" && AllDigits(s)
    ensures AllDigits(s[1..]) && Decimal(s) == Times(DigitAt(s, 0) as real, Power(|s| - 1)) + Decimal(s[1..])
  {
    var n := |s| - 1;
    if n == 0 {
      assert s[..0] == "" && s[1..] == "";
    } else {
      var front := s[..n];
      assert front[1..] == s[1..][..n - 1] && s[1..][n - 1] == s[n] && front[0] == s[0];
      DecimalFront(front);
      TimesTen(DigitAt(s, 0) as real, Power(n - 1), Decimal(front[1..]));
    }
  }

  lemma TimesTen(d: real, p: real, r: real)
    ensures (d * p + r) * 10.0 == d * (10.0 * p) + r * 10.0
  {
  }

  lemma FractionFront(s: string)
    requires AllDigits(s)
    ensures AllDigits(Tail(s)) && Fraction(s) == (DigitAt(s, 0) as real + Fraction(Tail(s))) / 10.0
  {
    if s != "" {
      DecimalFront(s);
      assert Power(|s|) == 10.0 * Power(|s| - 1);
      hide Decimal, Power, DigitAt, Times;
      Tenth(DigitAt(s, 0) as real, Power(|s| - 1), Decimal(s[1..]));
    }
  }

  lemma Tenth(d: real, p: real, r: real)
    requires p > 0.0
    ensures (Times(d, p) + r) / (10.0 * p) == (d + r / p) / 10.0
  {
    var q := r / p;
    assert r == q * p;
    Distribute(d, q, p);
    Cancel((d + q) / 10.0, 10.0 * p, d * p + r);
  }

  lemma Distribute(d: real, q: real, p: real)
    ensures (d + q) / 10.0 * (10.0 * p) == d * p + q * p
  {
  }

  lemma Cancel(x: real, p: real, y: real)
    requires p != 0.0 && x * p == y
    ensures y / p == x
  {
  }

  lemma {:induction false} FractionSmall(s: string)
    requires AllDigits(s)
    ensures 0.0 <= Fraction(s) < 1.0
  {
    hide Fraction;
    FractionFront(s);
    if s == "" {
      FractionNothing();
    } else {
      FractionSmall(s[1..]);
    }
  }

  lemma FractionNothing()
    ensures Fraction("") == 0.0
  {
  }

  lemma TailDigit(s: string, i: nat)
    ensures DigitAt(Tail(s), i) == DigitAt(s, i + 1)
  {
  }

  lemma GreaterAtStep(x: string, y: string, i: nat)
    ensures GreaterAt(x, y, i + 1) <==> DigitAt(x, 0) == DigitAt(y, 0) && GreaterAt(Tail(x), Tail(y), i)
  {
    hide DigitAt, Tail;
    forall j: nat
      ensures DigitAt(Tail(x), j) == DigitAt(x, j + 1) && DigitAt(Tail(y), j) == DigitAt(y, j + 1)
    {
      TailDigit(x, j);
      TailDigit(y, j);
    }
    if DigitAt(x, 0) == DigitAt(y, 0) && GreaterAt(Tail(x), Tail(y), i) {
      forall j: nat | j < i + 1
        ensures DigitAt(x, j) == DigitAt(y, j)
      {
        if j > 0 { assert DigitAt(Tail(x), j - 1) == DigitAt(Tail(y), j - 1); }
      }
    }
  }

  lemma FirstGreaterStep(x: string, y: string)
    ensures FirstGreater(x, y) <==>
      DigitAt(x, 0) > DigitAt(y, 0) || (DigitAt(x, 0) == DigitAt(y, 0) && FirstGreater(Tail(x), Tail(y)))
  {
    assert DigitAt(x, 0) > DigitAt(y, 0) <==> GreaterAt(x, y, 0);
    hide DigitAt, Tail, GreaterAt;
    if FirstGreater(x, y) {
      var i: nat :| GreaterAt(x, y, i);
      if i > 0 { GreaterAtStep(x, y, i - 1); }
    }
    if DigitAt(x, 0) == DigitAt(y, 0) && FirstGreater(Tail(x), Tail(y)) {
      var i: nat :| GreaterAt(Tail(x), Tail(y), i);
      GreaterAtStep(x, y, i);
    }
  }

  /** Digits behind a point are ordered by their first difference. */
  lemma {:induction false} FractionOrder(x: string, y: string)
    requires AllDigits(x) && AllDigits(y)
    ensures Fraction(x) > Fraction(y) <==> FirstGreater(x, y)
    decreases |x| + |y|
  {
    hide Fraction, FirstGreater;
    if x == "" && y == "" {
      NothingGreater();
    } else {
      FractionFront(x);
      FractionFront(y);
      FirstGreaterStep(x, y);
      FractionSmall(Tail(x));
      FractionSmall(Tail(y));
      FractionOrder(Tail(x), Tail(y));
    }
  }

  lemma NothingGreater()
    ensures !FirstGreater("", "")
  {
  }

  lemma {:induction false} PowerMono(m: nat, n: nat)
    requires m <= n
    ensures Power(m) <= Power(n)
    decreases n
  {
    if m < n { PowerMono(m, n - 1); }
  }

  lemma DecimalIs(x: string)
    requires AllDigits(x)
    ensures Decimal(x) == Times(Fraction(x), Power(|x|))
  {
    hide Decimal, Power;
    Multiplied(Decimal(x), Power(|x|));
  }

  lemma Multiplied(d: real, p: real)
    requires p != 0.0
    ensures d / p * p == d
  {
  }

  lemma DecimalBounds(x: string)
    requires Digits(x)
    ensures Decimal(x) < Power(|x|) && (x[0] != '0' ==> Decimal(x) >= Power(|x| - 1))
  {
    if x[0] != '0' { FirstDigit(x); }
    hide Decimal, Power, Fraction, DigitAt, Times;
    FractionSmall(x);
    DecimalIs(x);
    Shrinks(Fraction(x), Power(|x|), Decimal(x));
    DecimalFront(x);
    if x[0] != '0' { AtLeast(DigitAt(x, 0) as real, Power(|x| - 1), Decimal(x[1..]), Decimal(x)); }
  }

  lemma FirstDigit(x: string)
    requires Digits(x) && x[0] != '0'
    ensures DigitAt(x, 0) as real >= 1.0
  {
  }

  lemma Shrinks(f: real, p: real, d: real)
    requires f < 1.0 && p > 0.0 && d == Times(f, p)
    ensures d < p
  {
    if f < 0.0 { assert f * p < 0.0; }
  }

  lemma AtLeast(d: real, p: real, r: real, v: real)
    requires d >= 1.0 && p > 0.0 && r >= 0.0 && v == Times(d, p) + r
    ensures v >= p
  {
    assert d * p >= 1.0 * p;
  }

  lemma Scaled(f: real, g: real, p: real)
    requires p > 0.0
    ensures f > g <==> Times(f, p) > Times(g, p)
  {
  }

  /** Digits without a leading 0 are ordered as numbers are. */
  lemma DecimalOrder(x: string, y: string)
    requires Digits(x) && Digits(y) && x[0] != '0' && y[0] != '0'
    ensures Decimal(x) > Decimal(y) <==> Greater(x, y)
  {
    hide Decimal, Power, Fraction, FirstGreater, Times;
    DecimalBounds(x);
    DecimalBounds(y);
    if |x| == |y| {
      FractionOrder(x, y);
      DecimalIs(x);
      DecimalIs(y);
      Scaled(Fraction(x), Fraction(y), Power(|x|));
    } else if |x| > |y| {
      PowerMono(|y|, |x| - 1);
    } else {
      PowerMono(|x|, |y| - 1);
    }
  }

  // --------------------------------------------------- versions by components

  /** Components of digits between points, and no suffix. */
  predicate Plain(s: string) {
    '_' !in s && forall i :: 0 <= i < |Split(s, '.')| ==> Digits(Split(s, '.')[i])
  }

  lemma {:induction false} BodyOf(a: string, p: string)
    requires '_' !in a
    ensures Body(a) == a && Prepart(a) == "" && Body(a + "_" + p) == a && Prepart(a + "_" + p) == p
  {
    if a == "" {
      assert ("" + "_" + p)[1..] == p;
    } else {
      assert a == [a[0]] + a[1..] && (a + "_" + p)[1..] == a[1..] + "_" + p;
      BodyOf(a[1..], p);
    }
  }

  lemma {:induction false} SplitLast(a: string, b: string, c: char)
    requires c !in b
    ensures Split(a + [c] + b, c) == Split(a, c) + [b]
  {
    var s := a + [c] + b;
    if a == "" {
      assert s[1..] == b;
      SplitNone(b, c);
    } else {
      assert s[1..] == a[1..] + [c] + b;
      SplitLast(a[1..], b, c);
      assert (Split(a[1..], c) + [b])[1..] == Split(a[1..], c)[1..] + [b];
    }
  }

  lemma PlainValid(s: string)
    requires Plain(s)
    ensures ValidVersion(s) && Components(s) == Split(s, '.')
  {
    BodyOf(s, "");
  }

  lemma DigitsHave(x: string, c: char)
    requires Digits(x) && !IsDigit(c)
    ensures c !in x
  {
  }

  // One more component.
  lemma PlainMore(s: string, x: string)
    requires Plain(s) && Digits(x)
    ensures Plain(s + "." + x) && Components(s + "." + x) == Components(s) + [x]
  {
    DigitsHave(x, '.');
    DigitsHave(x, '_');
    SplitLast(s, x, '.');
    PlainValid(s);
    hide Split;
    assert Plain(s + "." + x);
    PlainValid(s + "." + x);
  }

  lemma PlainKey(fl: Floats, s: string)
    requires Plain(s)
    ensures KeyOf(fl, s) == Key(Strip(Pairs(fl, s)), 0, 0.0)
  {
    hide Pairs, Strip;
  }

  lemma PairsMore(fl: Floats, s: string, x: string)
    requires Plain(s) && Digits(x)
    ensures Plain(s + "." + x) && Pairs(fl, s + "." + x) == Pairs(fl, s) + [PairOf(fl, x, |Components(s)|)]
  {
    hide PairOf, Split, Digits;
    PlainMore(s, x);
  }

  // Nothing in the pairs is negative.
  predicate NotNegative(p: Pair) {
    p.number >= 0.0 && p.letter >= 0
  }

  lemma PairsNotNegative(fl: Floats, s: string)
    requires Plain(s)
    ensures forall i :: 0 <= i < |Pairs(fl, s)| ==> NotNegative(Pairs(fl, s)[i])
  {
    PlainValid(s);
    forall i | 0 <= i < |Pairs(fl, s)|
      ensures NotNegative(Pairs(fl, s)[i])
    {
      ComponentParsed(fl, Components(s)[i], i);
    }
  }

  // Behind the same pairs the order is that of the next one.
  lemma {:induction false} LexBehind(ps: seq<Pair>, p: Pair, q: Pair)
    requires forall i :: 0 <= i < |ps| ==> NotNegative(ps[i])
    requires NotNegative(p) && NotNegative(q)
    ensures Lex(Strip(ps + [p]), Strip(ps + [q])) == if p == q then 0 else ComparePairs(p, q)
  {
    hide ComparePairs;
    if ps == [] {
      assert ([] + [p])[1..] == [] && ([] + [q])[1..] == [];
      LexStep(p, [], q, []);
    } else {
      assert (ps + [p])[1..] == ps[1..] + [p] && (ps + [q])[1..] == ps[1..] + [q];
      LexBehind(ps[1..], p, q);
      LexStep(ps[0], Strip(ps[1..] + [p]), ps[0], Strip(ps[1..] + [q]));
    }
  }

  lemma {:induction false} StripZero(ps: seq<Pair>)
    ensures Strip(ps + [ZERO]) == Strip(ps)
  {
    if ps == [] {
      assert ([] + [ZERO])[1..] == [];
    } else {
      assert (ps + [ZERO])[1..] == ps[1..] + [ZERO];
      StripZero(ps[1..]);
    }
  }

  /** The number that the i-th component stands for: a fraction if it starts with
      0 and is not the first, otherwise the digits' own. */
  function Value(x: string, i: nat): real
    requires Digits(x)
  {
    if i > 0 && x[0] == '0' then Fraction(x) else Decimal(x)
  }

  lemma ValueParsed(fl: Floats, x: string, i: nat)
    requires Digits(x)
    ensures Value(x, i) >= 0.0 && PairOf(fl, x, i) == Pair(fl.round(Value(x, i)), 0)
  {
    FractionSmall(x);
    ComponentParsed(fl, x, i);
    DigitsFloat(fl, x, i);
    var s := Pointed(x, i);
    hide Decimal, Power;
    if s != x {
      assert s[1..] == x && s[0] == '.';
      assert !Digits(s);
    }
  }

  /** Versions that differ in one last component compare as its values, rounded. */
  lemma LastComponentDecides(fl: Floats, s: string, x: string, y: string)
    requires Plain(s) && Digits(x) && Digits(y)
    ensures ValidVersion(s + "." + x) && ValidVersion(s + "." + y)
    ensures var i := |Components(s)|;
      Sign(Compare(fl, s + "." + x, s + "." + y)) == Sign(fl.round(Value(x, i)) - fl.round(Value(y, i)))
  {
    hide Pairs, Strip, Compare, Split, Value, Components, Digits, Lex;
    PlainMore(s, x);
    PlainMore(s, y);
    PlainValid(s + "." + x);
    PlainValid(s + "." + y);
    CompareIsKeyOrder(fl, s + "." + x, s + "." + y);
    PairsMore(fl, s, x);
    PairsMore(fl, s, y);
    PlainKey(fl, s + "." + x);
    PlainKey(fl, s + "." + y);
    PairsNotNegative(fl, s);
    var i := |Components(s)|;
    ValueParsed(fl, x, i);
    ValueParsed(fl, y, i);
    NonnegativeRound(fl, Value(x, i));
    NonnegativeRound(fl, Value(y, i));
    hide PairOf, Plain, ValidVersion;
    LexBehind(Pairs(fl, s), PairOf(fl, x, i), PairOf(fl, y, i));
  }

  lemma NonnegativeRound(fl: Floats, v: real)
    requires v >= 0.0
    ensures fl.round(v) >= 0.0
  {
  }

  /** vercmp orders versions by the numbers in them: without leading 0s the longer
      component is the later one, and of two equally long ones that with the
      greater digit at the first difference. */
  lemma NumbersInOrder(s: string, x: string, y: string)
    requires Plain(s) && Digits(x) && Digits(y) && x[0] != '0' && y[0] != '0'
    ensures ValidVersion(s + "." + x) && ValidVersion(s + "." + y)
    ensures Compare(EXACT, s + "." + x, s + "." + y) > 0.0 <==> Greater(x, y)
    ensures forall fl: Floats :: Greater(x, y) ==> Compare(fl, s + "." + x, s + "." + y) >= 0.0
  {
    hide Compare, Decimal, Greater, Plain, ValidVersion, Components;
    LastComponentDecides(EXACT, s, x, y);
    DecimalOrder(x, y);
    forall fl: Floats | Greater(x, y)
      ensures Compare(fl, s + "." + x, s + "." + y) >= 0.0
    {
      LastComponentDecides(fl, s, x, y);
      RoundMono(fl, Decimal(y), Decimal(x));
    }
  }

  lemma RoundMono(fl: Floats, v: real, w: real)
    requires v <= w
    ensures fl.round(v) <= fl.round(w)
  {
  }

  /** A component with a leading 0 behind the first is a decimal fraction: it is
      below every one without, and two of them are ordered by the first difference
      of their digits. */
  lemma FractionsInOrder(s: string, x: string, y: string)
    requires Plain(s) && Digits(x) && Digits(y) && x[0] == '0'
    ensures ValidVersion(s + "." + x) && ValidVersion(s + "." + y)
    ensures y[0] != '0' ==> Compare(EXACT, s + "." + x, s + "." + y) < 0.0
    ensures y[0] == '0' ==> (Compare(EXACT, s + "." + x, s + "." + y) > 0.0 <==> FirstGreater(x, y))
    ensures forall fl: Floats :: y[0] != '0' || FirstGreater(y, x) ==> Compare(fl, s + "." + x, s + "." + y) <= 0.0
  {
    hide Compare, Decimal, Fraction, FirstGreater, Plain, ValidVersion, Components, Power;
    LastComponentDecides(EXACT, s, x, y);
    var i := |Components(s)|;
    FractionSmall(x);
    FractionOrder(x, y);
    FractionOrder(y, x);
    if y[0] != '0' {
      DecimalBounds(y);
      PowerMono(0, |y| - 1);
      PowerZero();
    }
    assert y[0] != '0' || FirstGreater(y, x) ==> Value(x, i) <= Value(y, i);
    forall fl: Floats | y[0] != '0' || FirstGreater(y, x)
      ensures Compare(fl, s + "." + x, s + "." + y) <= 0.0
    {
      LastComponentDecides(fl, s, x, y);
      RoundMono(fl, Value(x, i), Value(y, i));
    }
  }

  lemma PowerZero()
    ensures Power(0) == 1.0
  {
  }

  // Nothing, or a mark and one of the ends that have a weight.
  predicate IsSuffix(suffix: string) {
    suffix == "" || (suffix[0] == '_' && SuffixOk(suffix[1..]))
  }

  /** A last component of zeros changes nothing, and any other one makes the
      version later, whatever suffix the shorter one has. */
  lemma MoreIsLater(fl: Floats, s: string, x: string, suffix: string)
    requires Plain(s) && Digits(x) && IsSuffix(suffix)
    ensures ValidVersion(s + "." + x) && ValidVersion(s + suffix)
    ensures fl.round(Value(x, |Components(s)|)) > 0.0 ==> Compare(fl, s + "." + x, s + suffix) > 0.0
    ensures (forall i :: 0 <= i < |x| ==> x[i] == '0') && suffix == "" ==>
      Compare(fl, s + "." + x, s + suffix) == 0.0
  {
    hide Pairs, Strip, Compare, Split, Value, Digits, Lex, EndOf;
    PlainMore(s, x);
    PlainValid(s + "." + x);
    SuffixedKey(fl, s, suffix);
    CompareIsKeyOrder(fl, s + "." + x, s + suffix);
    PairsMore(fl, s, x);
    PlainKey(fl, s + "." + x);
    PairsNotNegative(fl, s);
    var i := |Components(s)|;
    ValueParsed(fl, x, i);
    NonnegativeRound(fl, Value(x, i));
    if forall i :: 0 <= i < |x| ==> x[i] == '0' { ZerosAreZero(fl, x, i); }
    hide PairOf, Plain, ValidVersion, Components;
    LexBehind(Pairs(fl, s), PairOf(fl, x, i), ZERO);
    StripZero(Pairs(fl, s));
    assert s + "" == s;
  }

  lemma {:induction false} DecimalOfZeros(x: string)
    requires forall i :: 0 <= i < |x| ==> x[i] == '0'
    ensures AllDigits(x) && Decimal(x) == 0.0
  {
    if x != "" { DecimalOfZeros(x[..|x| - 1]); }
  }

  lemma ZerosAreZero(fl: Floats, x: string, i: nat)
    requires Digits(x) && forall i :: 0 <= i < |x| ==> x[i] == '0'
    ensures fl.round(Value(x, i)) == 0.0
  {
    DecimalOfZeros(x);
    hide Decimal, Power;
    NoneOf(Power(|x|));
  }

  lemma NoneOf(p: real)
    requires p != 0.0
    ensures 0.0 / p == 0.0
  {
  }

  // The key of components with a suffix behind them.
  lemma SuffixedKey(fl: Floats, s: string, suffix: string)
    requires Plain(s) && IsSuffix(suffix)
    ensures ValidVersion(s + suffix) && KeyOf(fl, s + suffix).pairs == Strip(Pairs(fl, s))
    ensures suffix == "" ==> KeyOf(fl, s + suffix).weight == 0 && KeyOf(fl, s + suffix).number == 0.0
    ensures suffix != "" ==>
      && KeyOf(fl, s + suffix).weight == WEIGHTS[EndOf(suffix[1..], 0)]
      && KeyOf(fl, s + suffix).number == OrZero(Float(fl, suffix[1..][|ENDS[EndOf(suffix[1..], 0)]|..]))
  {
    hide Strip, EndOf, Float, Split, PairOf, Digits, OrZero;
    PlainValid(s);
    if suffix == "" {
      assert s + suffix == s;
      PlainKey(fl, s);
    } else {
      var p := suffix[1..];
      assert s + suffix == s + "_" + p;
      BodyOf(s, p);
      assert '_' in s + suffix;
    }
  }

  lemma {:induction false} LexAt(ps: seq<Pair>, qs: seq<Pair>, i: nat)
    requires i < |ps| && i < |qs| && ps[..i] == qs[..i] && ps[i] != qs[i]
    requires forall k :: 0 <= k < |ps| ==> NotNegative(ps[k])
    requires forall k :: 0 <= k < |qs| ==> NotNegative(qs[k])
    ensures Lex(Strip(ps), Strip(qs)) == ComparePairs(ps[i], qs[i])
  {
    hide ComparePairs;
    assert NotNegative(ps[0]) && NotNegative(qs[0]);
    LexStep(ps[0], Strip(ps[1..]), qs[0], Strip(qs[1..]));
    if i > 0 {
      assert ps[..i][0] == ps[0] && qs[..i][0] == qs[0];
      assert ps[..i][1..] == ps[1..][..i - 1] && qs[..i][1..] == qs[1..][..i - 1];
      LexAt(ps[1..], qs[1..], i - 1);
    }
  }

  /** The first component in which two versions differ decides, whatever follows
      it and whatever suffix they have. */
  lemma FirstDifferenceDecides(fl: Floats, a: string, sa: string, b: string, sb: string, i: nat)
    requires Plain(a) && Plain(b) && IsSuffix(sa) && IsSuffix(sb)
    requires i < |Components(a)| && i < |Components(b)| && Components(a)[..i] == Components(b)[..i]
    ensures Digits(Components(a)[i]) && Digits(Components(b)[i])
    ensures ValidVersion(a + sa) && ValidVersion(b + sb)
    ensures var v, w := fl.round(Value(Components(a)[i], i)), fl.round(Value(Components(b)[i], i));
      v != w ==> Sign(Compare(fl, a + sa, b + sb)) == Sign(v - w)
  {
    PlainValid(a);
    PlainValid(b);
    hide Strip, Compare, Split, Value, Digits, Lex, Plain, ValidVersion, IsSuffix, Components;
    SuffixedKey(fl, a, sa);
    SuffixedKey(fl, b, sb);
    CompareIsKeyOrder(fl, a + sa, b + sb);
    PairsNotNegative(fl, a);
    PairsNotNegative(fl, b);
    ValueParsed(fl, Components(a)[i], i);
    ValueParsed(fl, Components(b)[i], i);
    SamePairsBelow(fl, a, b, i);
    hide PairOf, Pairs, KeyOf;
    if Pairs(fl, a)[i] != Pairs(fl, b)[i] { LexAt(Pairs(fl, a), Pairs(fl, b), i); }
  }

  lemma SamePairsBelow(fl: Floats, a: string, b: string, i: nat)
    requires i <= |Components(a)| && i <= |Components(b)| && Components(a)[..i] == Components(b)[..i]
    ensures Pairs(fl, a)[..i] == Pairs(fl, b)[..i]
  {
    hide PairOf, Components;
    assert forall k :: 0 <= k < i ==> Components(a)[k] == Components(a)[..i][k] == Components(b)[k];
  }

  const BEFORE: seq<string> := ["alpha", "beta", "pre", "rc"]

  /** The suffixes alpha, beta, pre and rc come in this order, whatever numbers
      follow them. */
  lemma SuffixOrder(fl: Floats, s: string, i: nat, n: string, j: nat, m: string)
    requires Plain(s) && (n == "" || Digits(n)) && (m == "" || Digits(m)) && i < j < 4
    ensures ValidVersion(s + "_" + BEFORE[i] + n) && ValidVersion(s + "_" + BEFORE[j] + m)
    ensures Compare(fl, s + "_" + BEFORE[i] + n, s + "_" + BEFORE[j] + m) < 0.0
  {
    hide Compare, ValidVersion, Plain, SuffixOk, Digits, Strip, Pairs, KeyOf;
    SuffixedWeight(fl, s, BEFORE[i], n);
    SuffixedWeight(fl, s, BEFORE[j], m);
    SamePairs(fl, s + "_" + BEFORE[i] + n, s + "_" + BEFORE[j] + m);
  }

  /** They all come before the version without a suffix; p does not. */
  lemma SuffixOrNone(fl: Floats, s: string, i: nat, n: string)
    requires Plain(s) && (n == "" || Digits(n)) && i < 4
    ensures ValidVersion(s + "_" + BEFORE[i] + n) && ValidVersion(s + "_" + "p" + n) && ValidVersion(s)
    ensures Compare(fl, s + "_" + BEFORE[i] + n, s) < 0.0
    ensures Compare(fl, s + "_" + "p" + n, s) >= 0.0
  {
    hide Compare, ValidVersion, Plain, SuffixOk, Digits, CompareSuffixes, WeightOf;
    SuffixAndNone(fl, s, BEFORE[i], n);
    SuffixAndNone(fl, s, "p", n);
  }

  lemma WeightDecides(name: string, number: real)
    requires name in ["alpha", "beta", "pre", "rc", "p"] && number >= 0.0
    ensures if name == "p" then CompareSuffixes(WeightOf(name), number, 0, 0.0) >= 0
            else CompareSuffixes(WeightOf(name), number, 0, 0.0) < 0
  {
  }

  lemma SuffixAndNone(fl: Floats, s: string, name: string, n: string)
    requires Plain(s) && name in ["alpha", "beta", "pre", "rc", "p"] && (n == "" || Digits(n))
    ensures ValidVersion(s + "_" + name + n) && ValidVersion(s)
    ensures name == "p" ==> Compare(fl, s + "_" + name + n, s) >= 0.0
    ensures name != "p" ==> Compare(fl, s + "_" + name + n, s) < 0.0
  {
    hide Compare, ValidVersion, Plain, SuffixOk, Digits, Strip, Pairs, KeyOf, Components, Split;
    PlainValid(s);
    PlainKey(fl, s);
    SuffixedWeight(fl, s, name, n);
    hide CompareSuffixes, WeightOf;
    SamePairs(fl, s + "_" + name + n, s);
    WeightDecides(name, KeyOf(fl, s + "_" + name + n).number);
  }

  lemma SamePairs(fl: Floats, a: string, b: string)
    requires ValidVersion(a) && ValidVersion(b) && KeyOf(fl, a).pairs == KeyOf(fl, b).pairs
    ensures var k, l := KeyOf(fl, a), KeyOf(fl, b);
      Sign(Compare(fl, a, b)) == CompareSuffixes(k.weight, k.number, l.weight, l.number)
  {
    hide Compare, KeyOf, ValidVersion, Lex;
    CompareIsKeyOrder(fl, a, b);
    var ps := KeyOf(fl, a).pairs;
    LexOrder(ps, ps, ps);
  }

  // The weights of the five suffixes.
  function WeightOf(name: string): int {
    if name == "alpha" then -4 else if name == "beta" then -3 else if name == "pre" then -2
    else if name == "rc" then -1 else 0
  }

  lemma EndIs(name: string, n: string)
    requires name in ["alpha", "beta", "pre", "rc", "p"] && (n == "" || Digits(n))
    ensures var e := EndOf(name + n, 0);
      e < |WEIGHTS| && ENDS[e] == name && WEIGHTS[e] == WeightOf(name) && SuffixOk(name + n)
        && (name + n)[|name|..] == n
  {
    var t := name + n;
    assert t[|name|..] == n && t[..|name|] == name;
    assert n != "" ==> IsDigit(t[|name|]);
    forall x: string, i: nat | StartsWith(t, x) && i < |x|
      ensures i < |t| && t[i] == x[i]
    {
      assert t[..|x|][i] == x[i];
    }
    assert StartsWith(t, "pre") ==> t[0] == "pre"[0] && t[1] == "pre"[1];
    assert StartsWith(t, "p") ==> t[0] == "p"[0];
    assert StartsWith(t, "alpha") ==> t[0] == "alpha"[0];
    assert StartsWith(t, "beta") ==> t[0] == "beta"[0];
    assert StartsWith(t, "rc") ==> t[0] == "rc"[0];
    assert StartsWith(t, name);
    assert name == "pre" ==> t[..1] == "p";
    hide StartsWith;
    assert EndOf(name + n, 0) == if name == "pre" then 0 else EndOf(name + n, 1);
    assert EndOf(name + n, 1) == if StartsWith(name + n, "p") then 1 else EndOf(name + n, 2);
    assert EndOf(name + n, 2) == if name == "alpha" then 2 else EndOf(name + n, 3);
    assert EndOf(name + n, 3) == if name == "beta" then 3 else EndOf(name + n, 4);
    assert EndOf(name + n, 4) == if name == "rc" then 4 else EndOf(name + n, 5);
  }

  lemma SuffixedWeight(fl: Floats, s: string, name: string, n: string)
    requires Plain(s) && name in ["alpha", "beta", "pre", "rc", "p"] && (n == "" || Digits(n))
    ensures var v := s + "_" + name + n;
      && SuffixOk(name + n) && ValidVersion(v)
      && KeyOf(fl, v).pairs == Strip(Pairs(fl, s)) && KeyOf(fl, v).weight == WeightOf(name)
      && KeyOf(fl, v).number >= 0.0 && (n != "" ==> KeyOf(fl, v).number == fl.round(Decimal(n)))
  {
    EndIs(name, n);
    RoundZero(fl);
    var suffix := "_" + (name + n);
    assert suffix[1..] == name + n;
    assert s + suffix == s + "_" + name + n;
    hide KeyOf, Strip, Pairs, ValidVersion, EndOf, SuffixOk, Plain;
    SuffixedKey(fl, s, suffix);
  }

  lemma RoundZero(fl: Floats)
    ensures fl.round(0.0) == 0.0
  {
  }

  /** Behind the same suffix the number decides. */
  lemma SuffixNumbersInOrder(s: string, name: string, n: string, m: string)
    requires Plain(s) && name in ["alpha", "beta", "pre", "rc", "p"]
    requires Digits(n) && Digits(m) && n[0] != '0' && m[0] != '0'
    ensures ValidVersion(s + "_" + name + n) && ValidVersion(s + "_" + name + m)
    ensures Compare(EXACT, s + "_" + name + n, s + "_" + name + m) > 0.0 <==> Greater(n, m)
  {
    hide Compare, ValidVersion, Plain, SuffixOk, Strip, Pairs, KeyOf, Decimal, Greater;
    SuffixedWeight(EXACT, s, name, n);
    SuffixedWeight(EXACT, s, name, m);
    SamePairs(EXACT, s + "_" + name + n, s + "_" + name + m);
    DecimalOrder(n, m);
  }

  /** Letters behind the last component make the version later, in their order. */
  lemma LettersInOrder(fl: Floats, s: string, c: char, d: char)
    requires Plain(s) && IsLower(c) && IsLower(d)
    ensures ValidVersion(s + [c]) && ValidVersion(s + [d]) && ValidVersion(s)
    ensures Compare(fl, s + [c], s) > 0.0
    ensures Compare(fl, s + [c], s + [d]) > 0.0 <==> c > d
  {
    hide Compare, Strip, Lex, ValidVersion;
    LetteredKey(fl, s, c);
    LetteredKey(fl, s, d);
    UnletteredKey(fl, s);
    CompareIsKeyOrder(fl, s + [c], s);
    CompareIsKeyOrder(fl, s + [c], s + [d]);
    var n := |Components(s)| - 1;
    var ps, last := Pairs(fl, s)[..n], Pairs(fl, s)[n];
    PairsNotNegative(fl, s);
    hide Pairs, KeyOf, Components, Plain;
    LexBehind(ps, Pair(last.number, c as int), last);
    LexBehind(ps, Pair(last.number, c as int), Pair(last.number, d as int));
  }

  lemma SplitStep(s: string, d: char)
    requires s != ""
    ensures var r := Split(s[1..], d);
      Split(s, d) == if s[0] == d then [""] + r else [[s[0]] + r[0]] + r[1..]
  {
  }

  // The last of some words gets a letter.
  function Lettered(cs: seq<string>, c: char): (r: seq<string>)
    requires cs != []
    ensures |r| == |cs|
  {
    cs[..|cs| - 1] + [cs[|cs| - 1] + [c]]
  }

  lemma LetteredStep(a: string, r: seq<string>, c: char)
    requires r != []
    ensures Lettered([a] + r, c) == [a] + Lettered(r, c)
    ensures var l := Lettered(r, c);
      Lettered([a + r[0]] + r[1..], c) == [a + l[0]] + l[1..]
  {
    var k := |r| - 1;
    assert ([a] + r)[..k + 1] == [a] + r[..k];
    if k == 0 {
      assert r[..0] == [] && r[1..] == [];
      assert a + (r[0] + [c]) == a + r[0] + [c];
    } else {
      assert ([a + r[0]] + r[1..])[..k] == [a + r[0]] + r[1..k];
      assert Lettered(r, c)[1..] == r[1..k] + [r[k] + [c]];
    }
  }

  lemma {:induction false} SplitLetter(s: string, c: char, d: char)
    requires c != d
    ensures Split(s + [c], d) == Lettered(Split(s, d), c)
  {
    hide Split, Lettered;
    if s == "" {
      assert "" + [c] == [c];
      SplitNone([c], d);
      SplitNone("", d);
      LetteredOne(c);
    } else {
      assert (s + [c])[1..] == s[1..] + [c];
      SplitLetter(s[1..], c, d);
      SplitStep(s, d);
      SplitStep(s + [c], d);
      LetteredStep(if s[0] == d then "" else [s[0]], Split(s[1..], d), c);
    }
  }

  lemma LetteredOne(c: char)
    ensures Lettered([""], c) == [[c]]
  {
    assert [""][..0] == [] && "" + [c] == [c];
  }

  lemma LetteredComponents(s: string, c: char)
    requires Plain(s) && IsLower(c)
    ensures '_' !in s + [c] && ValidVersion(s + [c]) && Components(s + [c]) == Lettered(Components(s), c)
  {
    BodyOf(s, "");
    BodyOf(s + [c], "");
    SplitLetter(s, c, '.');
    var cs := Split(s, '.');
    var x := cs[|cs| - 1];
    assert (x + [c])[..|x|] == x;
    hide Split, Digits;
    assert forall i :: 0 <= i < |cs| - 1 ==> Lettered(cs, c)[i] == cs[i];
  }

  lemma LetteredKey(fl: Floats, s: string, c: char)
    requires Plain(s) && IsLower(c)
    ensures ValidVersion(s + [c])
    ensures var n := |Components(s)| - 1;
      KeyOf(fl, s + [c]) == Key(Strip(Pairs(fl, s)[..n] + [Pair(Pairs(fl, s)[n].number, c as int)]), 0, 0.0)
  {
    PlainValid(s);
    LetteredComponents(s, c);
    hide Components, Strip, ValidVersion, Digits, Split;
    var cs := Components(s);
    var n := |cs| - 1;
    LetteredPair(fl, cs[n], c, n);
    hide PairOf;
    assert Pairs(fl, s + [c]) == Pairs(fl, s)[..n] + [Pair(Pairs(fl, s)[n].number, c as int)];
  }

  lemma UnletteredKey(fl: Floats, s: string)
    requires Plain(s)
    ensures ValidVersion(s)
    ensures var n := |Components(s)| - 1;
      && KeyOf(fl, s) == Key(Strip(Pairs(fl, s)[..n] + [Pairs(fl, s)[n]]), 0, 0.0)
      && Pairs(fl, s)[n].letter == 0
  {
    PlainValid(s);
    PlainKey(fl, s);
    var n := |Components(s)| - 1;
    assert Pairs(fl, s)[..n] + [Pairs(fl, s)[n]] == Pairs(fl, s);
    ComponentParsed(fl, Components(s)[n], n);
  }

  lemma LetteredPair(fl: Floats, x: string, c: char, i: nat)
    requires Digits(x) && IsLower(c)
    ensures PairOf(fl, x + [c], i) == Pair(PairOf(fl, x, i).number, c as int)
  {
    DigitsFloat(fl, x, i);
    var s := Pointed(x + [c], i);
    assert s == Pointed(x, i) + [c];
    assert s[..|s| - 1] == Pointed(x, i);
  }

  // ------------------------------------------------------------- the cache

  function CacheKey(a: string, b: string): string {
    a + " " + b
  }

  lemma NoCharInBody(s: string, d: char)
    requires ValidVersion(s) && (d == ' ' || d == '-')
    ensures d !in Body(s)
  {
    hide Split;
    SplitChars(Body(s), '.', d);
    var cs := Components(s);
    forall i | 0 <= i < |cs|
      ensures d !in cs[i]
    {
      var c := cs[i];
      var front := c[..|c| - 1];
      assert forall k :: 0 <= k < |c| - 1 ==> c[k] == front[k];
    }
  }

  lemma NoSpace(s: string)
    requires ValidVersion(s)
    ensures ' ' !in s
  {
    NoCharInBody(s, ' ');
    BodyPrepart(s);
    if '_' in s { NoMarkInSuffix(Prepart(s)); }
  }

  // A pair of versions can be read off its key.
  lemma KeyInjective(a: string, b: string, c: string, d: string)
    requires ValidVersion(a) && ValidVersion(b) && ValidVersion(c) && ValidVersion(d)
    requires CacheKey(a, b) == CacheKey(c, d)
    ensures a == c && b == d
  {
    hide ValidVersion, Split;
    NoSpace(a);
    NoSpace(b);
    NoSpace(c);
    NoSpace(d);
    SplitFirst(a, b, ' ');
    SplitFirst(c, d, ' ');
    SplitNone(b, ' ');
    SplitNone(d, ' ');
    assert [a] + [b] == [c] + [d];
    assert ([a] + [b])[0] == a && ([a] + [b])[1] == b;
  }

  // ------------------------------------------------------------ the program

  // The parts of a version without '_' joined across one '-'.
  function Undashed(val: string): string {
    var parts := Split(val, '-');
    if |parts| == 2 then parts[0] + "." + parts[1] else parts[0]
  }

  // The loop that adds the points, in place.
  method AddPoints(val: seq<string>) returns (r: seq<string>)
    requires forall i :: 0 < i < |val| ==> val[i] != ""
    ensures |r| == |val| && forall i :: 0 <= i < |val| ==> r[i] == Pointed(val[i], i)
  {
    r := val;
    var x := 1;
    while x < |r|
      invariant 1 <= x && |r| == |val|
      invariant forall i :: 0 <= i < |val| ==> r[i] == if i < x then Pointed(val[i], i) else val[i]
    {
      if r[x][0] == '0' {
        r := r[x := "." + r[x]];
      }
      x := x + 1;
    }
  }

  function Repeat(x: string, n: nat): (r: seq<string>)
    ensures |r| == n && forall i :: 0 <= i < n ==> r[i] == x
  {
    seq(n, _ => x)
  }

  // The two lists of components that vercmp compares.
  method Prepare(val1: string, val2: string) returns (l1: seq<string>, l2: seq<string>)
    requires ValidVersion(val1) && ValidVersion(val2)
    ensures var n := Max(|Components(val1)|, |Components(val2)|);
      l1 == Padded(val1, n) && l2 == Padded(val2, n)
  {
    hide Split, Body, Prepart, ValidVersion, Pointed, Padded;
    PlainBody(val1);
    PlainBody(val2);
    l1 := Split(Undashed(Body(val1)), '.');
    l2 := Split(Undashed(Body(val2)), '.');
    assert l1 == Components(val1) && l2 == Components(val2);
    l1 := AddPoints(l1);
    l2 := AddPoints(l2);
    if |l2| < |l1| {
      l2 := l2 + Repeat("0", |l1| - |l2|);
    } else if |l1| < |l2| {
      l1 := l1 + Repeat("0", |l2| - |l1|);
    }
    l1 := AddTail(l1, val1);
    l2 := AddTail(l2, val2);
  }

  // The suffix goes behind the last component.
  method AddTail(l: seq<string>, val: string) returns (r: seq<string>)
    requires |Components(val)| <= |l|
    requires forall i :: 0 <= i < |l| ==> l[i] == if i < |Components(val)| then Pointed(Components(val)[i], i) else "0"
    ensures r == Padded(val, |l|)
  {
    hide Split, Body, Prepart, Pointed;
    var prepart := Prepart(val);
    r := l;
    if prepart != "" {
      r := r[|r| - 1 := r[|r| - 1] + "_" + prepart];
    }
  }

  lemma PlainBody(s: string)
    requires ValidVersion(s)
    ensures Undashed(Body(s)) == Body(s)
    ensures forall i :: 0 <= i < |Components(s)| ==> Components(s)[i] != ""
  {
    NoCharInBody(s, '-');
    SplitNone(Body(s), '-');
  }

  // The difference of the y-th entries: the middle ones are integers.
  function Minus(fl: Floats, cmp1: Triple, cmp2: Triple, y: nat): real {
    if y == 0 then fl.minus(cmp1.number, cmp2.number)
    else if y == 1 then (cmp1.p1 - cmp2.p1) as real
    else fl.minus(cmp1.p2, cmp2.p2)
  }

  // The inner loop: the first difference of two parsed components.
  method FirstDifference(fl: Floats, cmp1: Triple, cmp2: Triple) returns (myret: real)
    ensures myret == Difference(fl, cmp1, cmp2)
  {
    var y := 0;
    while y < 3
      invariant y <= 3
      invariant y > 0 ==> cmp1.number == cmp2.number
      invariant y > 1 ==> cmp1.p1 == cmp2.p1
      invariant y > 2 ==> cmp1.p2 == cmp2.p2
    {
      myret := Minus(fl, cmp1, cmp2, y);
      if myret != 0.0 {
        return;
      }
      y := y + 1;
    }
    return 0.0;
  }

  // The comparison itself.
  method Compute(fl: Floats, val1: string, val2: string) returns (r: real)
    requires ValidVersion(val1) && ValidVersion(val2)
    ensures r == Compare(fl, val1, val2)
  {
    hide Relparse, ValidVersion, Padded, Difference;
    var l1, l2 := Prepare(val1, val2);
    ghost var n := Max(|Components(val1)|, |Components(val2)|);
    var x := 0;
    PaddedParsedAll(fl, val1, val2, n);
    while x < |l1|
      invariant x <= |l1| && Compare(fl, val1, val2) == Differ(fl, l1, l2, x)
    {
      r := FirstDifference(fl, Relparse(fl, l1[x]).value, Relparse(fl, l2[x]).value);
      if r != 0.0 {
        return;
      }
      x := x + 1;
    }
    assert Differ(fl, l1, l2, |l1|) == 0.0;
    return 0.0;
  }

  lemma PaddedParsedAll(fl: Floats, a: string, b: string, n: nat)
    requires ValidVersion(a) && ValidVersion(b) && n == Max(|Components(a)|, |Components(b)|)
    ensures forall x :: 0 <= x < n ==> Relparse(fl, Padded(a, n)[x]).Some? && Relparse(fl, Padded(b, n)[x]).Some?
  {
    hide Relparse, Padded, ValidVersion;
    forall x | 0 <= x < n
      ensures Relparse(fl, Padded(a, n)[x]).Some? && Relparse(fl, Padded(b, n)[x]).Some?
    {
      PaddedParsed(fl, a, n, x);
      PaddedParsed(fl, b, n, x);
    }
  }

  // What pkgsplit gives: a name, a version, and a revision 'r' and digits.
  datatype Package = Package(name: string, version: string, revision: string)

  predicate ValidPackage(p: Package) {
    ValidVersion(p.version) && p.revision != "" && Digits(p.revision[1..])
  }

  /** Packages in the order of their versions, and then of their revisions. */
  function ComparePackages(fl: Floats, p: Package, q: Package): int
    requires ValidPackage(p) && ValidPackage(q)
  {
    var c := CompareKeys(KeyOf(fl, p.version), KeyOf(fl, q.version));
    if c != 0 then c else Sign(Decimal(p.revision[1..]) - Decimal(q.revision[1..]))
  }

  lemma PackagePreorder(fl: Floats, p: Package, q: Package, r: Package)
    requires ValidPackage(p) && ValidPackage(q) && ValidPackage(r)
    ensures ComparePackages(fl, p, p) == 0
    ensures ComparePackages(fl, p, q) == -ComparePackages(fl, q, p)
    ensures ComparePackages(fl, p, q) <= 0 && ComparePackages(fl, q, r) <= 0 ==> ComparePackages(fl, p, r) <= 0
  {
    hide KeyOf, CompareKeys, ValidVersion, Decimal;
    KeyOrder(KeyOf(fl, p.version), KeyOf(fl, q.version), KeyOf(fl, r.version));
    KeyOrder(KeyOf(fl, q.version), KeyOf(fl, r.version), KeyOf(fl, p.version));
    KeyOrder(KeyOf(fl, r.version), KeyOf(fl, p.version), KeyOf(fl, q.version));
  }

  /** The version decides first, and of two packages with versions that compare
      equal the one with the greater revision is the later one. */
  lemma RevisionsInOrder(fl: Floats, p: Package, q: Package)
    requires ValidPackage(p) && ValidPackage(q)
    ensures Compare(fl, p.version, q.version) != 0.0 ==>
      ComparePackages(fl, p, q) == Sign(Compare(fl, p.version, q.version))
    ensures Compare(fl, p.version, q.version) == 0.0 && p.revision[1] != '0' && q.revision[1] != '0' ==>
      (ComparePackages(fl, p, q) == 1 <==> Greater(p.revision[1..], q.revision[1..]))
  {
    hide Compare, CompareKeys, KeyOf, Decimal, Greater, ValidVersion;
    CompareIsKeyOrder(fl, p.version, q.version);
    var x, y := p.revision[1..], q.revision[1..];
    if x[0] != '0' && y[0] != '0' { DecimalOrder(x, y); }
  }

  class VersionCache {
    const fl: Floats
    var entries: map<string, real>

    // Every entry is what a fresh computation gives.
    ghost predicate Valid()
      reads this
    {
      forall a, b :: ValidVersion(a) && ValidVersion(b) && CacheKey(a, b) in entries ==>
        entries[CacheKey(a, b)] == Compare(fl, a, b)
    }

    constructor (fl: Floats)
      ensures Valid() && entries == map[] && this.fl == fl
    {
      this.fl := fl;
      entries := map[];
    }

    method Store(val1: string, val2: string, r: real)
      requires Valid() && ValidVersion(val1) && ValidVersion(val2) && r == Compare(fl, val1, val2)
      modifies this
      ensures Valid() && entries == old(entries)[CacheKey(val1, val2) := r]
    {
      hide ValidVersion, Compare, CacheKey;
      ghost var before := entries;
      entries := entries[CacheKey(val1, val2) := r];
      forall a, b | ValidVersion(a) && ValidVersion(b) && CacheKey(a, b) in entries
        ensures entries[CacheKey(a, b)] == Compare(fl, a, b)
      {
        if CacheKey(a, b) == CacheKey(val1, val2) {
          KeyInjective(a, b, val1, val2);
        }
      }
    }

    /** vercmp: with or without a cached entry, the result of the comparison. */
    method Vercmp(val1: string, val2: string) returns (r: real)
      requires Valid() && ValidVersion(val1) && ValidVersion(val2)
      modifies this
      ensures Valid() && r == Compare(fl, val1, val2)
      ensures forall k :: k in old(entries) ==> k in entries && entries[k] == old(entries)[k]
    {
      hide ValidVersion, Compare, CacheKey;
      if val1 == val2 {
        TotalPreorder(fl, val1, val1, val1);
        return 0.0;
      }
      var valkey := CacheKey(val1, val2);
      if valkey in entries {
        return entries[valkey];
      }
      r := Compute(fl, val1, val2);
      Store(val1, val2, r);
    }

    /** pkgcmp: -1, 0 or 1 in the order of packages. */
    method Pkgcmp(pkg1: Package, pkg2: Package) returns (r: int)
      requires Valid() && ValidPackage(pkg1) && ValidPackage(pkg2)
      modifies this
      ensures Valid() && r == ComparePackages(fl, pkg1, pkg2)
    {
      hide ValidVersion, Compare, CompareKeys, KeyOf, Decimal, Valid;
      CompareIsKeyOrder(fl, pkg1.version, pkg2.version);
      var mycmp := Vercmp(pkg1.version, pkg2.version);
      if mycmp > 0.0 {
        return 1;
      }
      if mycmp < 0.0 {
        return -1;
      }
      var r1, r2 := Decimal(pkg1.revision[1..]), Decimal(pkg2.revision[1..]);
      if r1 > r2 {
        return 1;
      }
      if r2 > r1 {
        return -1;
      }
      return 0;
    }
  }
}

/**
 * What the memoised counts of the package tree add up to: the sums over a
 * node's children, how an insertion changes them, and when a memo may be
 * trusted.
 */
module PackageTreeCounts {
  import opened Wrappers
  import opened JavaStrings
  import opened PackageTrees
  import opened PackageTreeFacts

  /* ---------------------------------------------------------------------
   * Sums over lists of child names
   * --------------------------------------------------------------------- */

  predicate Distinct(xs: seq<string>) {
    forall i, j | 0 <= i < j < |xs| :: xs[i] != xs[j]
  }

  predicate AllChildren(n: Node, xs: seq<string>) {
    forall i | 0 <= i < |xs| :: xs[i] in n.children
  }

  lemma IncreasingDistinct(xs: seq<string>)
    requires Increasing(xs)
    ensures Distinct(xs)
  {
    forall i, j | 0 <= i < j < |xs|
      ensures xs[i] != xs[j]
    {
      if xs[i] == xs[j] {
        StrLessIrreflexive(xs[i]);
      }
    }
  }

  /** A node's names in iteration order: each child once. */
  lemma NamesSpec(n: Node)
    ensures Distinct(Names(n)) && |Names(n)| == |n.children|
    ensures forall y :: y in Names(n) <==> y in n.children
  {
    SortedKeysSpec(n.children.Keys);
    IncreasingDistinct(Names(n));
  }

  /** The true counts summed over the names xs only see the children under xs. */
  lemma {:induction false} TrueSumAgree(a: Node, b: Node, xs: seq<string>, k: Measure, t: Dim)
    requires AllChildren(a, xs) && AllChildren(b, xs)
    requires forall i | 0 <= i < |xs| :: a.children[xs[i]] == b.children[xs[i]]
    ensures TrueSum(a, xs, k, t) == TrueSum(b, xs, k, t)
    decreases |xs|
  {
    if xs != [] {
      TrueSumAgree(a, b, xs[1..], k, t);
    }
  }

  /** Any one name can be taken out of the sum first. */
  lemma {:induction false} TrueSumRemove(n: Node, xs: seq<string>, j: nat, k: Measure, t: Dim)
    requires AllChildren(n, xs) && j < |xs|
    ensures AllChildren(n, xs[..j] + xs[j + 1..])
    ensures TrueSum(n, xs, k, t) == TrueCount(n.children[xs[j]], k, t) + TrueSum(n, xs[..j] + xs[j + 1..], k, t)
    decreases j
  {
    RemoveShape(xs, j, xs[..j] + xs[j + 1..]);
    if j > 0 {
      TrueSumRemove(n, xs[1..], j - 1, k, t);
    }
  }

  /** The list without its j-th name: names of xs, and for j > 0 the first name
      followed by the tail without its (j-1)-th. */
  lemma RemoveShape(xs: seq<string>, j: nat, rest: seq<string>)
    requires j < |xs| && rest == xs[..j] + xs[j + 1..]
    ensures forall i | 0 <= i < |rest| :: rest[i] in xs
    ensures j == 0 ==> rest == xs[1..]
    ensures j > 0 ==> rest[0] == xs[0] && rest[1..] == xs[1..][..j - 1] + xs[1..][j..]
  {
    assert forall i | 0 <= i < |rest| :: rest[i] == if i < j then xs[i] else xs[i + 1];
    if j > 0 {
      assert rest[1..] == xs[1..][..j - 1] + xs[1..][j..];
    }
  }

  lemma DistinctRemove(xs: seq<string>, j: nat)
    requires Distinct(xs) && j < |xs|
    ensures Distinct(xs[..j] + xs[j + 1..])
    ensures forall y :: y in xs[..j] + xs[j + 1..] <==> y in xs && y != xs[j]
  {
    var rest := xs[..j] + xs[j + 1..];
    assert forall i | 0 <= i < |rest| :: rest[i] == if i < j then xs[i] else xs[i + 1];
    forall y
      ensures y in rest <==> y in xs && y != xs[j]
    {
      if y in xs && y != xs[j] {
        var i :| 0 <= i < |xs| && xs[i] == y;
        assert rest[if i < j then i else i - 1] == y;
      }
    }
  }

  /** Taking the same name out of two lists that hold the same names once each
      leaves two such lists. */
  lemma SameNamesRest(xs: seq<string>, ys: seq<string>, j: nat)
    requires Distinct(xs) && Distinct(ys) && xs != [] && j < |ys| && ys[j] == xs[0]
    requires |xs| == |ys| && forall y :: y in xs <==> y in ys
    ensures Distinct(xs[1..]) && Distinct(ys[..j] + ys[j + 1..]) && |xs[1..]| == |ys[..j] + ys[j + 1..]|
    ensures forall y :: y in xs[1..] <==> y in ys[..j] + ys[j + 1..]
  {
    DistinctRemove(ys, j);
    DistinctRemove(xs, 0);
    assert xs[..0] + xs[1..] == xs[1..];
    forall y
      ensures y in xs[1..] <==> y in ys[..j] + ys[j + 1..]
    {
      assert y in xs[..0] + xs[1..] <==> y in xs && y != xs[0];
      assert y in ys[..j] + ys[j + 1..] <==> y in ys && y != ys[j];
    }
  }

  /** The sum is the same over any two lists naming the same children once each. */
  lemma {:induction false} TrueSumSameNames(n: Node, xs: seq<string>, ys: seq<string>, k: Measure, t: Dim)
    requires AllChildren(n, xs) && AllChildren(n, ys) && Distinct(xs) && Distinct(ys)
    requires |xs| == |ys| && forall y :: y in xs <==> y in ys
    ensures TrueSum(n, xs, k, t) == TrueSum(n, ys, k, t)
    decreases |xs|
  {
    if xs != [] {
      assert xs[0] in ys;
      var j :| 0 <= j < |ys| && ys[j] == xs[0];
      TrueSumRemove(n, ys, j, k, t);
      SameNamesRest(xs, ys, j);
      TrueSumSameNames(n, xs[1..], ys[..j] + ys[j + 1..], k, t);
    }
  }

  /** Replacing the child under one name changes the sum by the difference of
      the two counts; a name that was missing counts as a fresh node. */
  lemma TrueSumPut(n: Node, n': Node, segment: string, c: Node, k: Measure, t: Dim)
    requires k != Classes && n'.children == n.children[segment := c]
    ensures TrueSum(n', Names(n'), k, t) + TrueCount(ChildFor(n, segment), k, t)
         == TrueSum(n, Names(n), k, t) + TrueCount(c, k, t)
  {
    if segment in n.children {
      TrueSumPutPresent(n, n', segment, c, k, t);
    } else {
      TrueSumPutAbsent(n, n', segment, c, k, t);
    }
  }

  lemma TrueSumPutPresent(n: Node, n': Node, segment: string, c: Node, k: Measure, t: Dim)
    requires n'.children == n.children[segment := c] && segment in n.children
    ensures TrueSum(n', Names(n'), k, t) + TrueCount(n.children[segment], k, t)
         == TrueSum(n, Names(n), k, t) + TrueCount(c, k, t)
  {
    NamesSpec(n);
    assert n'.children.Keys == n.children.Keys;
    TrueSumReplace(n, n', segment, c, k, t);
  }

  lemma TrueSumPutAbsent(n: Node, n': Node, segment: string, c: Node, k: Measure, t: Dim)
    requires k != Classes && n'.children == n.children[segment := c] && segment !in n.children
    ensures TrueSum(n', Names(n'), k, t) + TrueCount(NewChild(segment), k, t)
         == TrueSum(n, Names(n), k, t) + TrueCount(c, k, t)
  {
    NamesSpec(n);
    NamesSpec(n');
    assert |n'.children| == |n.children| + 1;
    TrueSumInsert(n, n', segment, c, Names(n), Names(n'), k, t);
    TrueCountNew(segment, k, t);
  }

  /** A fresh node counts nothing. */
  lemma TrueCountNew(segment: string, k: Measure, t: Dim)
    requires k != Classes
    ensures TrueCount(NewChild(segment), k, t) == 0
  {
    assert Names(NewChild(segment)) == [];
  }

  lemma TrueSumReplace(n: Node, n': Node, segment: string, c: Node, k: Measure, t: Dim)
    requires n'.children == n.children[segment := c] && segment in n.children
    requires Names(n') == Names(n) && Distinct(Names(n)) && segment in Names(n)
    ensures TrueSum(n', Names(n'), k, t) + TrueCount(n.children[segment], k, t)
         == TrueSum(n, Names(n), k, t) + TrueCount(c, k, t)
  {
    var xs := Names(n);
    var j :| 0 <= j < |xs| && xs[j] == segment;
    TrueSumRemove(n, xs, j, k, t);
    TrueSumRemove(n', xs, j, k, t);
    DistinctRemove(xs, j);
    TrueSumAgree(n, n', xs[..j] + xs[j + 1..], k, t);
  }

  lemma DistinctCons(x: string, xs: seq<string>)
    requires Distinct(xs) && x !in xs
    ensures Distinct([x] + xs)
  {
    var ys := [x] + xs;
    forall i, j | 0 <= i < j < |ys|
      ensures ys[i] != ys[j]
    {
      assert ys[j] == xs[j - 1];
      if i > 0 {
        assert ys[i] == xs[i - 1];
      }
    }
  }

  /** A name new to the node adds its child's count to the sum. */
  lemma TrueSumInsert(n: Node, n': Node, segment: string, c: Node, xs: seq<string>, zs: seq<string>, k: Measure, t: Dim)
    requires n'.children == n.children[segment := c] && segment !in n.children
    requires AllChildren(n, xs) && AllChildren(n', zs) && Distinct(xs) && Distinct(zs)
    requires |zs| == |xs| + 1 && forall y :: y in zs <==> y == segment || y in xs
    ensures TrueSum(n', zs, k, t) == TrueSum(n, xs, k, t) + TrueCount(c, k, t)
  {
    var ys := [segment] + xs;
    assert ys[1..] == xs;
    DistinctCons(segment, xs);
    assert AllChildren(n', ys);
    TrueSumSameNames(n', zs, ys, k, t);
    TrueSumAgree(n, n', xs, k, t);
  }

  /* ---------------------------------------------------------------------
   * How an insertion changes the true counts
   * --------------------------------------------------------------------- */

  /** One more element makes a set one larger exactly when it is new. */
  lemma CardAddOne<T>(a: set<T>, x: T)
    ensures |a + {x}| == |a| + if x in a then 0 else 1
  {
    if x in a {
      assert a + {x} == a;
    } else {
      assert a * {x} == {};
    }
  }

  /** Adding to a node's own set raises its own count by one exactly when the
      reference is new there. */
  lemma OwnAdded(c: Node, t: Dim, r: Ref, k: Measure, u: Dim)
    ensures Own(Added(c, t, r), k, u)
         == Own(c, k, u) + if k == MeasureOf(r) && u == t && !Holds(c, [], t, r) then 1 else 0
  {
    match r
    case MethodItem(m) =>
      if k == Methods && u == t {
        CardAddOne(c.methods.Get(t), m);
      }
    case FieldItem(f) =>
      if k == Fields && u == t {
        CardAddOne(c.fields.Get(t), f);
      }
  }

  /** And the node's whole count by the same. */
  lemma AddedTrueCount(c: Node, t: Dim, r: Ref, k: Measure, u: Dim)
    requires k != Classes
    ensures TrueCount(Added(c, t, r), k, u)
         == TrueCount(c, k, u) + if k == MeasureOf(r) && u == t && !Holds(c, [], t, r) then 1 else 0
  {
    var c' := Added(c, t, r);
    assert Names(c') == Names(c);
    TrueSumAgree(c, c', Names(c), k, u);
    OwnAdded(c, t, r, k, u);
  }

  /** An insertion raises the true method (field) count of its dimension by one
      when the reference is not already filed at its path, and changes no other
      method or field count. */
  lemma {:induction false} AddPathTrueCount(n: Node, segs: seq<string>, t: Dim, r: Ref, k: Measure, u: Dim)
    requires segs != [] && k != Classes
    ensures TrueCount(AddPath(n, segs, t, r), k, u)
         == TrueCount(n, k, u) + if k == MeasureOf(r) && u == t && !Holds(n, segs, t, r) then 1 else 0
    decreases |segs|
  {
    var child := ChildFor(n, segs[0]);
    var n' := AddPath(n, segs, t, r);
    TrueSumPut(n, n', segs[0], NewChildFor(n, segs, t, r), k, u);
    TrueCountUnfold(n, k, u);
    TrueCountUnfold(n', k, u);
    assert Own(n', k, u) == Own(n, k, u);
    ChildForView(n, segs, t, Classes);
    assert Holds(n, segs, t, r) == Holds(child, segs[1..], t, r);
    if |segs| == 1 {
      AddedTrueCount(child, t, r, k, u);
    } else {
      AddPathTrueCount(child, segs[1..], t, r, k, u);
    }
  }

  /* ---------------------------------------------------------------------
   * When the memos can be trusted
   * --------------------------------------------------------------------- */

  /** Where every memo is right, every count is the true count. */
  lemma {:induction false} ConsistentCount(n: Node, k: Measure, t: Dim)
    requires Consistent(n)
    ensures Count(n, k, t) == TrueCount(n, k, t)
    decreases n, 1
  {
    if t !in Counter(n, k) && !(k == Classes && n.isClass) {
      ConsistentSum(n, Names(n), k, t);
    }
  }

  lemma {:induction false} ConsistentSum(n: Node, xs: seq<string>, k: Measure, t: Dim)
    requires Consistent(n) && AllChildren(n, xs)
    ensures CountSum(n, xs, k, t) == TrueSum(n, xs, k, t)
    decreases n, 0, |xs|
  {
    if xs != [] {
      ConsistentCount(n.children[xs[0]], k, t);
      ConsistentSum(n, xs[1..], k, t);
    }
  }

  /** A tree with no memos is consistent. */
  lemma {:induction false} NoCountersConsistent(n: Node)
    requires NoCounters(n)
    ensures Consistent(n)
    decreases n
  {
    forall s | s in n.children
      ensures Consistent(n.children[s])
    {
      NoCountersConsistent(n.children[s]);
    }
  }

  /** A tree built by insertions alone, with no query in between, reports the
      true counts. */
  lemma BuiltTreeCounts(n: Node, segs: seq<string>, t: Dim, r: Ref, k: Measure, u: Dim)
    requires segs != [] && NoCounters(n)
    ensures Count(AddPath(n, segs, t, r), k, u) == TrueCount(AddPath(n, segs, t, r), k, u)
  {
    AddPathNoCounters(n, segs, t, r);
    NoCountersConsistent(AddPath(n, segs, t, r));
    ConsistentCount(AddPath(n, segs, t, r), k, u);
  }

  /** The last segment's parent keeps its method (field) memo through an
      insertion below it, while the count its contents determine may rise: a
      count queried between insertions can go stale. */
  lemma ParentMemoSurvives(n: Node, p: seq<string>, leaf: string, t: Dim, r: Ref)
    ensures CounterAt(AddPath(n, p + [leaf], t, r), p, MeasureOf(r), t) == CounterAt(n, p, MeasureOf(r), t)
  {
    AddPathCounters(n, p + [leaf], t, r, p, MeasureOf(r), t);
  }

  /** The class count of a tree does not depend on the dimension. */
  lemma {:induction false} ClassCountDims(n: Node)
    ensures TrueCount(n, Classes, DECLARED) == TrueCount(n, Classes, REFERENCED)
    decreases n, 1
  {
    if !n.isClass {
      ClassSumDims(n, Names(n));
    }
  }

  lemma {:induction false} ClassSumDims(n: Node, xs: seq<string>)
    requires AllChildren(n, xs)
    ensures TrueSum(n, xs, Classes, DECLARED) == TrueSum(n, xs, Classes, REFERENCED)
    decreases n, 0, |xs|
  {
    if xs != [] {
      ClassCountDims(n.children[xs[0]]);
      ClassSumDims(n, xs[1..]);
    }
  }

  /* ---------------------------------------------------------------------
   * A query stores what it returns and changes nothing else
   * --------------------------------------------------------------------- */

  /** The children's counts only depend on the children. */
  lemma {:induction false} CountSumSameChildren(a: Node, b: Node, xs: seq<string>, k: Measure, t: Dim)
    requires a.children == b.children && AllChildren(a, xs)
    ensures CountSum(a, xs, k, t) == CountSum(b, xs, k, t)
    decreases |xs|
  {
    if xs != [] {
      CountSumSameChildren(a, b, xs[1..], k, t);
    }
  }

  /** A count that is neither memoised nor a class node's class count adds up
      the node's own set and its children. */
  lemma CountUnfold(n: Node, k: Measure, t: Dim)
    requires t !in Counter(n, k) && !(k == Classes && n.isClass)
    ensures Count(n, k, t) == Own(n, k, t) + CountSum(n, Names(n), k, t)
  {
  }

  /** What a query leaves at a node it evaluates: the value it returns stored in
      the memo, the children queried in turn, and nothing else changed. */
  lemma FillShape(n: Node, k: Measure, t: Dim, j: Measure)
    requires t !in Counter(n, k)
    ensures Fill(n, k, t).name == n.name && Fill(n, k, t).isClass == n.isClass
    ensures Fill(n, k, t).methods == n.methods && Fill(n, k, t).fields == n.fields
    ensures Fill(n, k, t).children.Keys == n.children.Keys
    ensures k == Classes && n.isClass ==> Fill(n, k, t).children == n.children
    ensures !(k == Classes && n.isClass) ==> Fill(n, k, t).children == FillAll(n, k, t)
    ensures Counter(Fill(n, k, t), j) == if j == k then Counter(n, k)[t := Count(n, k, t)] else Counter(n, j)
  {
    var v := if k == Classes && n.isClass then 1 else Count(n, k, t);
    assert v == Count(n, k, t);
    var base := if k == Classes && n.isClass then n else n.(children := FillAll(n, k, t));
    assert Fill(n, k, t) == SetCounter(base, k, t, v);
    SetCounterEffect(base, k, t, v, j);
  }

  lemma SetCounterEffect(n: Node, k: Measure, t: Dim, v: int, j: Measure)
    ensures Counter(SetCounter(n, k, t, v), j) == if j == k then Counter(n, k)[t := v] else Counter(n, j)
  {
  }

  /** A child of a node a query evaluates is the query's result on that child. */
  lemma FillChild(n: Node, k: Measure, t: Dim, s: string)
    requires t !in Counter(n, k) && !(k == Classes && n.isClass) && s in n.children
    ensures s in Fill(n, k, t).children && Fill(n, k, t).children[s] == Fill(n.children[s], k, t)
  {
    FillShape(n, k, t, k);
  }

  lemma TrueCountUnfold(n: Node, k: Measure, t: Dim)
    requires !(k == Classes && n.isClass)
    ensures TrueCount(n, k, t) == Own(n, k, t) + TrueSum(n, Names(n), k, t)
  {
  }

  /** After a query every count, of every measure and dimension, is what it was
      before: the memo entries it stores hold the values it computed. */
  lemma {:induction false} FillKeepsCount(n: Node, k: Measure, t: Dim, j: Measure, u: Dim)
    ensures Count(Fill(n, k, t), j, u) == Count(n, j, u)
    decreases n, 1
  {
    if t !in Counter(n, k) {
      var f := Fill(n, k, t);
      FillShape(n, k, t, j);
      if u !in Counter(f, j) && !(j == Classes && n.isClass) {
        FillCountOwn(n, k, t, j, u);
        if k == Classes && n.isClass {
          CountSumSameChildren(f, n, Names(n), j, u);
        } else {
          FillKeepsSum(n, Names(n), k, t, j, u);
        }
      }
    }
  }

  /** The part of `FillKeepsCount` about the node itself, when the count asked
      for is not stored in it after the query. */
  lemma FillCountOwn(n: Node, k: Measure, t: Dim, j: Measure, u: Dim)
    requires t !in Counter(n, k) && u !in Counter(Fill(n, k, t), j) && !(j == Classes && n.isClass)
    ensures Names(Fill(n, k, t)) == Names(n)
    ensures Count(Fill(n, k, t), j, u) - CountSum(Fill(n, k, t), Names(n), j, u)
         == Count(n, j, u) - CountSum(n, Names(n), j, u)
  {
    var f := Fill(n, k, t);
    FillShape(n, k, t, j);
    CountUnfold(f, j, u);
    CountUnfold(n, j, u);
    assert Names(f) == Names(n);
  }

  lemma {:induction false} FillKeepsSum(n: Node, xs: seq<string>, k: Measure, t: Dim, j: Measure, u: Dim)
    requires AllChildren(n, xs) && t !in Counter(n, k) && !(k == Classes && n.isClass)
    requires AllChildren(Fill(n, k, t), xs)
    ensures CountSum(Fill(n, k, t), xs, j, u) == CountSum(n, xs, j, u)
    decreases n, 0, |xs|
  {
    if xs != [] {
      FillChild(n, k, t, xs[0]);
      FillKeepsCount(n.children[xs[0]], k, t, j, u);
      FillKeepsSum(n, xs[1..], k, t, j, u);
    }
  }

  /** After a query every node is where it was and reports the counts it
      reported before, so later queries, and the renderers, see the same values. */
  lemma {:induction false} FillKeepsCountAt(n: Node, k: Measure, t: Dim, p: seq<string>, j: Measure, u: Dim)
    ensures At(Fill(n, k, t), p).Some? <==> At(n, p).Some?
    ensures At(n, p).Some? ==> Count(At(Fill(n, k, t), p).value, j, u) == Count(At(n, p).value, j, u)
    decreases |p|
  {
    if p == [] {
      FillKeepsCount(n, k, t, j, u);
    } else if t !in Counter(n, k) {
      FillShape(n, k, t, k);
      if p[0] in n.children && !(k == Classes && n.isClass) {
        FillChild(n, k, t, p[0]);
        FillKeepsCountAt(n.children[p[0]], k, t, p[1..], j, u);
      }
    }
  }

  lemma TreeEqualsIntro(a: Node, b: Node)
    requires a.name == b.name && a.isClass == b.isClass && a.methods == b.methods && a.fields == b.fields
    requires a.children.Keys == b.children.Keys
    requires forall s | s in a.children :: TreeEquals(a.children[s], b.children[s])
    ensures TreeEquals(a, b)
  {
  }

  /** A query changes nothing `equals` compares: the tree equals itself after it. */
  lemma {:induction false} FillEquals(n: Node, k: Measure, t: Dim)
    ensures TreeEquals(Fill(n, k, t), n)
    decreases n
  {
    var f := Fill(n, k, t);
    if t !in Counter(n, k) {
      FillShape(n, k, t, k);
      forall s | s in f.children
        ensures TreeEquals(f.children[s], n.children[s])
      {
        if k == Classes && n.isClass {
          TreeEqualsReflexive(n.children[s]);
        } else {
          FillChild(n, k, t, s);
          FillEquals(n.children[s], k, t);
        }
      }
      TreeEqualsIntro(f, n);
    } else {
      TreeEqualsReflexive(n);
    }
  }

  lemma {:induction false} TreeEqualsReflexive(a: Node)
    ensures TreeEquals(a, a)
    decreases a
  {
    forall s | s in a.children
      ensures TreeEquals(a.children[s], a.children[s])
    {
      TreeEqualsReflexive(a.children[s]);
    }
    TreeEqualsIntro(a, a);
  }

  lemma {:induction false} TreeEqualsSymmetric(a: Node, b: Node)
    requires TreeEquals(a, b)
    ensures TreeEquals(b, a)
    decreases a
  {
    forall s | s in b.children
      ensures TreeEquals(b.children[s], a.children[s])
    {
      TreeEqualsSymmetric(a.children[s], b.children[s]);
    }
    TreeEqualsIntro(b, a);
  }

  /** Equal children maps, from equal keys and equal children. */
  lemma ChildrenEqual(a: Node, b: Node)
    requires a.children.Keys == b.children.Keys
    requires forall s | s in a.children :: a.children[s] == b.children[s]
    ensures a.children == b.children
  {
  }

  /** Where no node memoises anything, `equals` is equality. */
  lemma {:induction false} TreeEqualsWithoutMemos(a: Node, b: Node)
    requires NoCounters(a) && NoCounters(b)
    ensures TreeEquals(a, b) <==> a == b
    decreases a
  {
    if TreeEquals(a, b) {
      forall s | s in a.children
        ensures a.children[s] == b.children[s]
      {
        TreeEqualsWithoutMemos(a.children[s], b.children[s]);
      }
      ChildrenEqual(a, b);
    }
    if a == b {
      TreeEqualsReflexive(a);
    }
  }

  /** And a consistent tree stays consistent: what a query stores is right. */
  lemma {:induction false} FillKeepsTrueCount(n: Node, k: Measure, t: Dim, j: Measure, u: Dim)
    ensures TrueCount(Fill(n, k, t), j, u) == TrueCount(n, j, u)
    decreases n, 1
  {
    if t !in Counter(n, k) && !(j == Classes && n.isClass) {
      var f := Fill(n, k, t);
      FillShape(n, k, t, j);
      FillTrueCountOwn(n, k, t, j, u);
      if k == Classes && n.isClass {
        TrueSumAgree(f, n, Names(n), j, u);
      } else {
        FillKeepsTrueSum(n, Names(n), k, t, j, u);
      }
    }
  }

  /** The part of `FillKeepsTrueCount` about the node itself: its own count and
      its children's names are unchanged. */
  lemma FillTrueCountOwn(n: Node, k: Measure, t: Dim, j: Measure, u: Dim)
    requires t !in Counter(n, k) && !(j == Classes && n.isClass)
    ensures Names(Fill(n, k, t)) == Names(n)
    ensures TrueCount(Fill(n, k, t), j, u) - TrueSum(Fill(n, k, t), Names(n), j, u)
         == TrueCount(n, j, u) - TrueSum(n, Names(n), j, u)
  {
    var f := Fill(n, k, t);
    FillShape(n, k, t, j);
    TrueCountUnfold(f, j, u);
    TrueCountUnfold(n, j, u);
    assert Names(f) == Names(n);
  }

  lemma {:induction false} FillKeepsTrueSum(n: Node, xs: seq<string>, k: Measure, t: Dim, j: Measure, u: Dim)
    requires AllChildren(n, xs) && t !in Counter(n, k) && !(k == Classes && n.isClass)
    requires AllChildren(Fill(n, k, t), xs)
    ensures TrueSum(Fill(n, k, t), xs, j, u) == TrueSum(n, xs, j, u)
    decreases n, 0, |xs|
  {
    if xs != [] {
      FillChild(n, k, t, xs[0]);
      FillKeepsTrueCount(n.children[xs[0]], k, t, j, u);
      FillKeepsTrueSum(n, xs[1..], k, t, j, u);
    }
  }

  lemma ConsistentIntro(n: Node)
    requires forall j: Measure, u: Dim | u in Counter(n, j) :: Counter(n, j)[u] == TrueCount(n, j, u)
    requires forall s | s in n.children :: Consistent(n.children[s])
    ensures Consistent(n)
  {
  }

  /** The memo entries a query stores at one node are right. */
  lemma FillMemosRight(n: Node, k: Measure, t: Dim, j: Measure, u: Dim)
    requires Consistent(n) && t !in Counter(n, k) && u in Counter(Fill(n, k, t), j)
    ensures Counter(Fill(n, k, t), j)[u] == TrueCount(Fill(n, k, t), j, u)
  {
    FillShape(n, k, t, j);
    FillKeepsTrueCount(n, k, t, j, u);
    if j == k && u == t {
      ConsistentCount(n, k, t);
    }
  }

  lemma {:induction false} FillConsistent(n: Node, k: Measure, t: Dim)
    requires Consistent(n)
    ensures Consistent(Fill(n, k, t))
    decreases n
  {
    if t !in Counter(n, k) {
      var f := Fill(n, k, t);
      forall j: Measure, u: Dim | u in Counter(f, j)
        ensures Counter(f, j)[u] == TrueCount(f, j, u)
      {
        FillMemosRight(n, k, t, j, u);
      }
      FillShape(n, k, t, k);
      forall s | s in f.children
        ensures Consistent(f.children[s])
      {
        if !(k == Classes && n.isClass) {
          FillChild(n, k, t, s);
          FillConsistent(n.children[s], k, t);
        }
      }
      ConsistentIntro(f);
    }
  }
}

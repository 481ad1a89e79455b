/**
 * `getChildren` and `isPrintable`: the children a renderer visits, and their
 * order.  A child is identified by the name it is filed under; the renderers
 * look the node up by that name.  `children.values` iterates a `TreeMap`, so in
 * ascending name order; `sortedBy` is a stable sort, so with `orderByMethodCount`
 * the children come in ascending method-count order and, among equal counts, in
 * ascending name order.
 */
module ChildOrder {
  import opened JavaStrings
  import opened PackageTrees
  import opened PrintOptionsModel
  import PackageTreeCounts

  /** `isPrintable`: a class node is printed only when `includeClasses` is set. */
  predicate IsPrintable(n: Node, opts: PrintOptions) {
    opts.includeClasses || !n.isClass
  }

  /** The sort key of `getChildren`: the child's `getMethodCount()`, that is its
      referenced method count. */
  function Key(n: Node, s: string): int {
    if s in n.children then Count(n.children[s], Methods, REFERENCED) else 0
  }

  /** `children.values.filter { it.isPrintable(opts) }` over the names ks. */
  function PrintableNames(n: Node, ks: seq<string>, opts: PrintOptions): (r: seq<string>)
    requires forall i | 0 <= i < |ks| :: ks[i] in n.children
    ensures forall i | 0 <= i < |r| :: r[i] in n.children
    decreases |ks|
  {
    if ks == [] then []
    else (if IsPrintable(n.children[ks[0]], opts) then [ks[0]] else []) + PrintableNames(n, ks[1..], opts)
  }

  /** One insertion step of the stable sort: x goes before the first name whose
      key is at least its own. */
  function InsertByKey(n: Node, x: string, s: seq<string>): (r: seq<string>)
    ensures multiset(r) == multiset(s) + multiset{x}
    decreases |s|
  {
    if s == [] || Key(n, x) <= Key(n, s[0]) then [x] + s
    else
      assert s == [s[0]] + s[1..];
      [s[0]] + InsertByKey(n, x, s[1..])
  }

  /** `sortedBy { it.getMethodCount() }`: a stable insertion sort by key. */
  function SortByKey(n: Node, s: seq<string>): (r: seq<string>)
    ensures multiset(r) == multiset(s)
    decreases |s|
  {
    if s == [] then []
    else
      assert s == [s[0]] + s[1..];
      InsertByKey(n, s[0], SortByKey(n, s[1..]))
  }

  /** `getChildren(opts)`. */
  function GetChildren(n: Node, opts: PrintOptions): (r: seq<string>)
    ensures forall i | 0 <= i < |r| :: r[i] in n.children
  {
    var p := PrintableNames(n, Names(n), opts);
    if opts.orderByMethodCount then
      var r := SortByKey(n, p);
      assert forall i | 0 <= i < |r| :: r[i] in p by {
        forall i | 0 <= i < |r| ensures r[i] in p {
          assert r[i] in multiset(r);
        }
      }
      r
    else p
  }

  /* ---------------------------------------------------------------------
   * What `getChildren` returns
   * --------------------------------------------------------------------- */

  /** The filter keeps exactly the printable children among ks. */
  lemma {:induction false} PrintableNamesMembers(n: Node, ks: seq<string>, opts: PrintOptions, y: string)
    requires forall i | 0 <= i < |ks| :: ks[i] in n.children
    ensures y in PrintableNames(n, ks, opts) <==> y in ks && IsPrintable(n.children[y], opts)
    decreases |ks|
  {
    if ks != [] {
      PrintableNamesMembers(n, ks[1..], opts, y);
      assert ks == [ks[0]] + ks[1..];
    }
  }

  /** The filter keeps the order of ks: a subsequence of ascending names ascends. */
  lemma {:induction false} PrintableNamesIncreasing(n: Node, ks: seq<string>, opts: PrintOptions)
    requires forall i | 0 <= i < |ks| :: ks[i] in n.children
    requires Increasing(ks)
    ensures Increasing(PrintableNames(n, ks, opts))
    decreases |ks|
  {
    if ks != [] {
      var rest := PrintableNames(n, ks[1..], opts);
      assert Increasing(ks[1..]) by {
        forall i, j | 0 <= i < j < |ks[1..]| ensures StrLess(ks[1..][i], ks[1..][j]) {
          assert ks[1..][i] == ks[i + 1] && ks[1..][j] == ks[j + 1];
        }
      }
      PrintableNamesIncreasing(n, ks[1..], opts);
      forall y | y in rest ensures StrLess(ks[0], y) {
        PrintableNamesMembers(n, ks[1..], opts, y);
        var j :| 0 <= j < |ks[1..]| && ks[1..][j] == y;
        assert ks[j + 1] == y;
      }
    }
  }

  /** A child is returned exactly when it is printable. */
  lemma ChildrenMembers(n: Node, opts: PrintOptions, y: string)
    ensures y in GetChildren(n, opts) <==> y in n.children && IsPrintable(n.children[y], opts)
  {
    var p := PrintableNames(n, Names(n), opts);
    PrintableNamesMembers(n, Names(n), opts, y);
    PackageTreeCounts.NamesSpec(n);
    if opts.orderByMethodCount {
      assert y in SortByKey(n, p) <==> y in multiset(SortByKey(n, p));
    }
  }

  /** Without `orderByMethodCount` the children come in ascending name order. */
  lemma ChildrenByName(n: Node, opts: PrintOptions)
    requires !opts.orderByMethodCount
    ensures Increasing(GetChildren(n, opts))
  {
    SortedKeysSpec(n.children.Keys);
    PrintableNamesIncreasing(n, Names(n), opts);
  }

  /** a goes before b: a smaller key, or an equal key and a smaller name. */
  predicate Before(n: Node, a: string, b: string) {
    Key(n, a) < Key(n, b) || (Key(n, a) == Key(n, b) && StrLess(a, b))
  }

  /** Ascending by key, and by name among equal keys. */
  predicate ByKeyThenName(n: Node, s: seq<string>) {
    forall i, j | 0 <= i < j < |s| :: Before(n, s[i], s[j])
  }

  lemma ByKeyThenNameTail(n: Node, s: seq<string>)
    requires s != [] && ByKeyThenName(n, s)
    ensures ByKeyThenName(n, s[1..])
  {
    forall i, j | 0 <= i < j < |s[1..]| ensures Before(n, s[1..][i], s[1..][j]) {
      assert s[1..][i] == s[i + 1] && s[1..][j] == s[j + 1];
    }
  }

  lemma ByKeyThenNameCons(n: Node, x: string, t: seq<string>)
    requires ByKeyThenName(n, t)
    requires forall j | 0 <= j < |t| :: Before(n, x, t[j])
    ensures ByKeyThenName(n, [x] + t)
  {
    var r := [x] + t;
    forall i, j | 0 <= i < j < |r| ensures Before(n, r[i], r[j]) {
      assert r[j] == t[j - 1];
      if i > 0 {
        assert r[i] == t[i - 1];
      }
    }
  }

  /** Inserting a name that precedes every other keeps the order by key, then name. */
  lemma {:induction false} InsertKeepsOrder(n: Node, x: string, s: seq<string>)
    requires ByKeyThenName(n, s)
    requires forall i | 0 <= i < |s| :: StrLess(x, s[i])
    ensures ByKeyThenName(n, InsertByKey(n, x, s))
    decreases |s|
  {
    if s == [] || Key(n, x) <= Key(n, s[0]) {
      forall j | 0 <= j < |s| ensures Before(n, x, s[j]) {
        if j > 0 {
          assert Before(n, s[0], s[j]);
        }
      }
      ByKeyThenNameCons(n, x, s);
    } else {
      var t := InsertByKey(n, x, s[1..]);
      ByKeyThenNameTail(n, s);
      InsertKeepsOrder(n, x, s[1..]);
      forall j | 0 <= j < |t| ensures Before(n, s[0], t[j]) {
        assert t[j] in multiset(t);
        if t[j] != x {
          StepBefore(n, s, t[j]);
        }
      }
      ByKeyThenNameCons(n, s[0], t);
    }
  }

  /** The head of an ordered sequence goes before every later element. */
  lemma StepBefore(n: Node, s: seq<string>, y: string)
    requires s != [] && ByKeyThenName(n, s) && y in s[1..]
    ensures Before(n, s[0], y)
  {
    var m :| 0 <= m < |s[1..]| && s[1..][m] == y;
    assert s[m + 1] == y;
  }

  /** The stable sort of ascending names orders them by key, then by name. */
  lemma {:induction false} SortByKeyOrder(n: Node, s: seq<string>)
    requires Increasing(s)
    ensures ByKeyThenName(n, SortByKey(n, s))
    decreases |s|
  {
    if s != [] {
      var t := SortByKey(n, s[1..]);
      assert Increasing(s[1..]) by {
        forall i, j | 0 <= i < j < |s[1..]| ensures StrLess(s[1..][i], s[1..][j]) {
          assert s[1..][i] == s[i + 1] && s[1..][j] == s[j + 1];
        }
      }
      SortByKeyOrder(n, s[1..]);
      forall i | 0 <= i < |t| ensures StrLess(s[0], t[i]) {
        assert t[i] in multiset(t);
        var m :| 0 <= m < |s[1..]| && s[1..][m] == t[i];
        assert s[m + 1] == t[i];
      }
      InsertKeepsOrder(n, s[0], t);
    }
  }

  /** With `orderByMethodCount` the children are the same printable children in
      ascending method-count order, equal counts keeping their name order. */
  lemma ChildrenByMethodCount(n: Node, opts: PrintOptions)
    requires opts.orderByMethodCount
    ensures multiset(GetChildren(n, opts)) == multiset(PrintableNames(n, Names(n), opts))
    ensures ByKeyThenName(n, GetChildren(n, opts))
  {
    SortedKeysSpec(n.children.Keys);
    PrintableNamesIncreasing(n, Names(n), opts);
    SortByKeyOrder(n, PrintableNames(n, Names(n), opts));
  }
}

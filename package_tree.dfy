/**
 * `PackageTree`: a trie keyed by the dot-separated segments of class names.
 * Each node keeps, per dimension (DECLARED or REFERENCED), a deduplicating set of
 * the method references and of the field references filed under it, and three
 * memo tables caching its class, method and field counts.
 *
 * A node is a value here: the children (a `TreeMap` from segment to node) are a
 * map iterated in ascending name order, and an operation that changes a node in
 * place is a function from the old node to the new one.  The object that holds
 * the root and replaces it is `PackageTreeObject.PackageTree`.
 */
module PackageTrees {
  import opened Wrappers
  import opened JavaStrings
  import opened MethodRefs
  import opened Deobfuscation

  /** `Type`: which of a node's two sets, and which entry of a memo table. */
  datatype Dim = DECLARED | REFERENCED

  /** The three counters a node memoises. */
  datatype Measure = Classes | Methods | Fields

  /** A node's `methods` (or `fields`) table: one set per dimension. */
  datatype RefSets<T> = RefSets(declared: set<T>, referenced: set<T>) {
    function Get(t: Dim): set<T> {
      if t == DECLARED then declared else referenced
    }

    /** `methods[type]?.add(ref)`: only the set of dimension t gains the element. */
    function Add(t: Dim, x: T): (r: RefSets<T>)
      ensures r.Get(t) == Get(t) + {x}
      ensures forall u: Dim | u != t :: r.Get(u) == Get(u)
    {
      if t == DECLARED then this.(declared := declared + {x}) else this.(referenced := referenced + {x})
    }
  }

  /** `HasDeclaringClass`: what is filed into the tree, a method or a field reference. */
  datatype Ref = MethodItem(m: MethodRef) | FieldItem(f: FieldRef)

  function DeclaringClassName(r: Ref): string {
    match r
    case MethodItem(m) => DeclaredClassName(m)
    case FieldItem(f) => f.declaredClass
  }

  datatype Node = Node(
    name: string,
    isClass: bool,
    children: map<string, Node>,
    methods: RefSets<MethodRef>,
    fields: RefSets<FieldRef>,
    classCounter: map<Dim, int>,
    methodCounter: map<Dim, int>,
    fieldCounter: map<Dim, int>)

  /** `isClassName`: a non-empty name starting with an upper-case letter, or any
      name containing "[]". */
  predicate IsClassName(name: string) {
    (|name| > 0 && 'A' <= name[0] <= 'Z') || ContainsPair(name, '[', ']')
  }

  lemma ClassNameExamples()
    ensures !IsClassName("") && !IsClassName("java") && !IsClassName("<unnamed>")
    ensures IsClassName("String") && IsClassName("int[]") && IsClassName("a[]b")
  {
    ContainsPairWithout("java", '[', ']');
    ContainsPairWithout("<unnamed>", '[', ']');
    ContainsPairAt("int[]", '[', ']', 3);
    ContainsPairAt("a[]b", '[', ']', 1);
  }

  /** A fresh node: every set empty, nothing memoised. */
  function NewNode(name: string, isClass: bool): Node {
    Node(name, isClass, map[], RefSets({}, {}), RefSets({}, {}), map[], map[], map[])
  }

  /** The node `PackageTree(segment, deobfuscator = ...)` creates for a new segment. */
  function NewChild(segment: string): Node {
    NewNode(segment, IsClassName(segment))
  }

  /* ---------------------------------------------------------------------
   * The children `TreeMap`: a map from segment to node, iterated in
   * ascending name order
   * --------------------------------------------------------------------- */

  /** m is the least name of ks. */
  predicate IsLeast(m: string, ks: set<string>) {
    m in ks && forall y | y in ks :: y == m || StrLess(m, y)
  }

  lemma {:induction false} LeastExists(ks: set<string>)
    requires ks != {}
    ensures exists m :: IsLeast(m, ks)
    decreases |ks|
  {
    var x :| x in ks;
    if ks != {x} {
      LeastExists(ks - {x});
      var m :| IsLeast(m, ks - {x});
      StrLessTotal(x, m);
      if StrLess(x, m) {
        forall y | y in ks
          ensures y == x || StrLess(x, y)
        {
          if y != x && y != m {
            StrLessTransitive(x, m, y);
          }
        }
        assert IsLeast(x, ks);
      } else {
        assert IsLeast(m, ks);
      }
    } else {
      assert IsLeast(x, ks);
    }
  }

  lemma LeastUnique(ks: set<string>, a: string, b: string)
    requires IsLeast(a, ks) && IsLeast(b, ks)
    ensures a == b
  {
    if a != b {
      StrLessAsymmetric(a, b);
    }
  }

  function Least(ks: set<string>): (m: string)
    requires ks != {}
    ensures IsLeast(m, ks)
  {
    LeastExists(ks);
    assert forall a, b | IsLeast(a, ks) && IsLeast(b, ks) :: a == b by {
      forall a, b | IsLeast(a, ks) && IsLeast(b, ks)
        ensures a == b
      {
        LeastUnique(ks, a, b);
      }
    }
    var m :| IsLeast(m, ks);
    m
  }

  /** Strictly ascending names. */
  predicate Increasing(ks: seq<string>) {
    forall i, j | 0 <= i < j < |ks| :: StrLess(ks[i], ks[j])
  }

  /** The keys of a `TreeMap` in iteration order: every key once, ascending. */
  function SortedKeys(ks: set<string>): (r: seq<string>)
    decreases |ks|
  {
    if ks == {} then [] else [Least(ks)] + SortedKeys(ks - {Least(ks)})
  }

  lemma {:induction false} SortedKeysSpec(ks: set<string>)
    ensures var r := SortedKeys(ks);
      && |r| == |ks|
      && (forall i | 0 <= i < |r| :: r[i] in ks)
      && (forall x | x in ks :: x in r)
      && Increasing(r)
    decreases |ks|
  {
    if ks != {} {
      var m := Least(ks);
      SortedKeysSpec(ks - {m});
      var rest := SortedKeys(ks - {m});
      assert SortedKeys(ks) == [m] + rest;
      assert forall i | 0 <= i < |rest| :: StrLess(m, rest[i]);
      IncreasingCons(m, rest);
    }
  }

  /** A name below every name of an ascending sequence extends it at the front. */
  lemma IncreasingCons(m: string, rest: seq<string>)
    requires Increasing(rest) && forall i | 0 <= i < |rest| :: StrLess(m, rest[i])
    ensures Increasing([m] + rest)
  {
    var r := [m] + rest;
    forall i, j | 0 <= i < j < |r|
      ensures StrLess(r[i], r[j])
    {
      assert r[j] == rest[j - 1];
      if i > 0 {
        assert r[i] == rest[i - 1];
      }
    }
  }

  /** `children.keys` in iteration order. */
  function Names(n: Node): (r: seq<string>)
    ensures forall i | 0 <= i < |r| :: r[i] in n.children
  {
    SortedKeysSpec(n.children.Keys);
    SortedKeys(n.children.Keys)
  }

  /** Every node is well formed: each child is filed under its own name, and its
      class flag is given by that name. */
  predicate WellFormed(n: Node) {
    forall s | s in n.children ::
      && n.children[s].name == s && n.children[s].isClass == IsClassName(s)
      && WellFormed(n.children[s])
  }

  /* ---------------------------------------------------------------------
   * addInternal
   * --------------------------------------------------------------------- */

  /** The segments `addInternal` walks from `start`: up to the next '.', then on
      from just after it. */
  function Segments(name: string, start: nat): (segs: seq<string>)
    requires start <= |name|
    ensures |segs| >= 1
    decreases |name| - start
  {
    var idx := IndexOfFrom(name, '.', start);
    if idx == -1 then [name[start..]] else [name[start..idx]] + Segments(name, idx + 1)
  }

  /** The counter an insertion of r invalidates. */
  function MeasureOf(r: Ref): Measure {
    if r.MethodItem? then Methods else Fields
  }

  function Counter(n: Node, k: Measure): map<Dim, int> {
    match k
    case Classes => n.classCounter
    case Methods => n.methodCounter
    case Fields => n.fieldCounter
  }

  /** `counter.remove(type)` on the counter of measure k. */
  function ForgetCount(n: Node, k: Measure, t: Dim): (r: Node)
    ensures r.name == n.name && r.isClass == n.isClass && r.children == n.children
    ensures r.methods == n.methods && r.fields == n.fields
  {
    match k
    case Classes => n.(classCounter := n.classCounter - {t})
    case Methods => n.(methodCounter := n.methodCounter - {t})
    case Fields => n.(fieldCounter := n.fieldCounter - {t})
  }

  /** The ref added to the node's own set of dimension t. */
  function Added(n: Node, t: Dim, r: Ref): (r': Node)
    ensures r'.name == n.name && r'.isClass == n.isClass && r'.children == n.children
    ensures r'.classCounter == n.classCounter && r'.methodCounter == n.methodCounter && r'.fieldCounter == n.fieldCounter
  {
    match r
    case MethodItem(m) => n.(methods := n.methods.Add(t, m))
    case FieldItem(f) => n.(fields := n.fields.Add(t, f))
  }

  /** A step down into the child for segment: this node forgets its count for
      dimension t of measure k, and `below` replaces the child. */
  function Descended(n: Node, segment: string, k: Measure, t: Dim, below: Node): Node {
    ForgetCount(n, k, t).(children := n.children[segment := below])
  }

  /** The child `addInternal` descends into or fills: the existing one, or a new
      one for the segment. */
  function ChildFor(n: Node, segment: string): Node {
    if segment in n.children then n.children[segment] else NewChild(segment)
  }

  /** The last segment: the ref goes into the child's own set. */
  function Filled(n: Node, segment: string, t: Dim, r: Ref): Node {
    n.(children := n.children[segment := Added(ChildFor(n, segment), t, r)])
  }

  /** `addInternal(name, startIndex, isMethod, type, ref)`: find or create the child
      for the next segment; at the last segment add the ref to that child's set,
      otherwise forget this node's method (or field) count for the dimension and
      go on into the child. */
  function AddInternal(n: Node, name: string, start: nat, t: Dim, r: Ref): Node
    requires start <= |name|
    decreases |name| - start
  {
    var idx := IndexOfFrom(name, '.', start);
    if idx == -1 then
      Filled(n, name[start..], t, r)
    else
      var segment := name[start..idx];
      Descended(n, segment, MeasureOf(r), t, AddInternal(ChildFor(n, segment), name, idx + 1, t, r))
  }

  /** `descriptorToDot`: the declaring class in dotted form (`toDot` stands for
      `Printer.descriptorToDot`), deobfuscated, and put under "<unnamed>" when it
      has no package. */
  function DescriptorToDot(toDot: string -> string, d: Deobfuscator, r: Ref): (s: string)
    ensures '.' in s
    ensures var dd := Deobfuscate(d, toDot(DeclaringClassName(r)));
      ('.' in dd ==> s == dd) && ('.' !in dd ==> s == "<unnamed>." + dd)
  {
    var deobfuscated := Deobfuscate(d, toDot(DeclaringClassName(r)));
    if IndexOf(deobfuscated, '.') == -1 then "<unnamed>." + deobfuscated else deobfuscated
  }

  /** `addMethodRef`, `addFieldRef`, `addDeclaredMethodRef`, `addDeclaredFieldRef`. */
  function AddRef(n: Node, toDot: string -> string, d: Deobfuscator, t: Dim, r: Ref): Node {
    AddInternal(n, DescriptorToDot(toDot, d, r), 0, t, r)
  }

  /** The node reached from n by following the path of segments, if any. */
  function At(n: Node, path: seq<string>): Option<Node>
    decreases |path|
  {
    if path == [] then Some(n)
    else if path[0] in n.children then At(n.children[path[0]], path[1..])
    else None
  }

  /** The method set of dimension t of the node at path; empty where there is no node. */
  function MethodsAt(n: Node, path: seq<string>, t: Dim): set<MethodRef> {
    match At(n, path)
    case None => {}
    case Some(x) => x.methods.Get(t)
  }

  function FieldsAt(n: Node, path: seq<string>, t: Dim): set<FieldRef> {
    match At(n, path)
    case None => {}
    case Some(x) => x.fields.Get(t)
  }

  /** The memoised count of measure k and dimension t at the node at path, if any. */
  function CounterAt(n: Node, path: seq<string>, k: Measure, t: Dim): Option<int> {
    match At(n, path)
    case None => None
    case Some(x) => if t in Counter(x, k) then Some(Counter(x, k)[t]) else None
  }

  /* ---------------------------------------------------------------------
   * Counting
   * --------------------------------------------------------------------- */

  /** The size of the node's own set for measure k (classes have no set). */
  function Own(n: Node, k: Measure, t: Dim): nat {
    match k
    case Classes => 0
    case Methods => |n.methods.Get(t)|
    case Fields => |n.fields.Get(t)|
  }

  /** `getClassCount(type)`, `getMethodCount(type)`, `getFieldCount(type)`: a
      memoised value if there is one; otherwise 1 for a class node's class count,
      and else the node's own set size plus the children's counts. */
  function Count(n: Node, k: Measure, t: Dim): int
    decreases n, 1, 0
  {
    if t in Counter(n, k) then Counter(n, k)[t]
    else if k == Classes && n.isClass then 1
    else Own(n, k, t) + CountSum(n, Names(n), k, t)
  }

  /** The sum of the counts of the children filed under the names ks. */
  function CountSum(n: Node, ks: seq<string>, k: Measure, t: Dim): int
    requires forall i | 0 <= i < |ks| :: ks[i] in n.children
    decreases n, 0, |ks|
  {
    if ks == [] then 0 else Count(n.children[ks[0]], k, t) + CountSum(n, ks[1..], k, t)
  }

  /** The count the tree's contents determine, ignoring every memo. */
  function TrueCount(n: Node, k: Measure, t: Dim): nat
    decreases n, 1, 0
  {
    if k == Classes && n.isClass then 1
    else Own(n, k, t) + TrueSum(n, Names(n), k, t)
  }

  function TrueSum(n: Node, ks: seq<string>, k: Measure, t: Dim): nat
    requires forall i | 0 <= i < |ks| :: ks[i] in n.children
    decreases n, 0, |ks|
  {
    if ks == [] then 0 else TrueCount(n.children[ks[0]], k, t) + TrueSum(n, ks[1..], k, t)
  }

  function SetCounter(n: Node, k: Measure, t: Dim, v: int): (r: Node)
    ensures r.name == n.name && r.isClass == n.isClass && r.children == n.children
    ensures r.methods == n.methods && r.fields == n.fields
  {
    match k
    case Classes => n.(classCounter := n.classCounter[t := v])
    case Methods => n.(methodCounter := n.methodCounter[t := v])
    case Fields => n.(fieldCounter := n.fieldCounter[t := v])
  }

  /** The tree after a count query: every node the query evaluates stores the
      count it returns (`counter[type] = ...`). */
  function Fill(n: Node, k: Measure, t: Dim): Node
    decreases n, 1
  {
    if t in Counter(n, k) then n
    else if k == Classes && n.isClass then SetCounter(n, k, t, 1)
    else SetCounter(n.(children := FillAll(n, k, t)), k, t, Count(n, k, t))
  }

  function FillAll(n: Node, k: Measure, t: Dim): (r: map<string, Node>)
    ensures r.Keys == n.children.Keys
    decreases n, 0
  {
    map s | s in n.children :: Fill(n.children[s], k, t)
  }

  /** No node memoises anything. */
  predicate NoCounters(n: Node) {
    && n.classCounter == n.methodCounter == n.fieldCounter == map[]
    && forall s | s in n.children :: NoCounters(n.children[s])
  }

  /** Every memoised count equals the count the contents determine. */
  predicate Consistent(n: Node) {
    && (forall k: Measure, t: Dim | t in Counter(n, k) :: Counter(n, k)[t] == TrueCount(n, k, t))
    && forall s | s in n.children :: Consistent(n.children[s])
  }

  /* ---------------------------------------------------------------------
   * equals
   * --------------------------------------------------------------------- */

  /** `equals`: name, class flag, children (the same names, and equal nodes under
      each), and both tables of sets agree; the memo tables are not compared. */
  predicate TreeEquals(a: Node, b: Node)
    decreases a
  {
    && a.name == b.name && a.isClass == b.isClass
    && a.children.Keys == b.children.Keys
    && (forall s | s in a.children :: TreeEquals(a.children[s], b.children[s]))
    && a.methods == b.methods && a.fields == b.fields
  }
}

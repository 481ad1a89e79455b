/**
 * What the package tree promises: insertion files a reference at exactly one
 * node and forgets exactly the memos it should, and the memoised counts agree
 * with the tree's contents as long as the memos are not stale.
 */
module PackageTreeFacts {
  import opened Wrappers
  import opened JavaStrings
  import opened PackageTrees
  import opened Deobfuscation

  /* ---------------------------------------------------------------------
   * Segments
   * --------------------------------------------------------------------- */

  /** A class without a package is filed under the top-level "<unnamed>" node:
      the inserted name has exactly the two segments "<unnamed>" and the class. */
  lemma DefaultPackageUnderUnnamed(toDot: string -> string, d: Deobfuscator, r: Ref)
    requires '.' !in Deobfuscate(d, toDot(DeclaringClassName(r)))
    ensures Segments(DescriptorToDot(toDot, d, r), 0) == ["<unnamed>", Deobfuscate(d, toDot(DeclaringClassName(r)))]
  {
    var dd := Deobfuscate(d, toDot(DeclaringClassName(r)));
    var s := DescriptorToDot(toDot, d, r);
    assert JoinWith(["<unnamed>", dd], '.') == s;
    SplitOfJoin(["<unnamed>", dd], '.');
    SegmentsAreSplit(s, 0);
    assert s[0..] == s;
  }

  /** Searching from `start` finds the dot that searching the rest of the name
      finds, shifted by `start`. */
  lemma IndexOfShift(name: string, start: nat)
    requires start <= |name|
    ensures var idx := IndexOfFrom(name, '.', start);
      IndexOf(name[start..], '.') == if idx == -1 then -1 else idx - start
  {
    var s := name[start..];
    var idx := IndexOfFrom(name, '.', start);
    IndexOfFromFirst(name, '.', start);
    if idx == -1 {
      assert forall i | 0 <= i < |s| :: s[i] == name[start + i];
    } else {
      assert s[idx - start] == '.';
      assert forall i | 0 <= i < idx - start :: s[i] == name[start + i];
      assert '.' !in s[..idx - start];
    }
  }

  /** One step of `split`: the piece before the first delimiter, then the rest. */
  lemma SplitStep(s: string, d: char, k: int)
    requires k == IndexOf(s, d) && k != -1
    ensures SplitOn(s, d) == [s[..k]] + SplitOn(s[k + 1..], d)
  {
  }

  /** The segments `addInternal` walks are the pieces of Kotlin's `split(".")`. */
  lemma {:induction false} SegmentsAreSplit(name: string, start: nat)
    requires start <= |name|
    ensures Segments(name, start) == SplitOn(name[start..], '.')
    decreases |name| - start
  {
    var idx := IndexOfFrom(name, '.', start);
    IndexOfShift(name, start);
    if idx == -1 {
      assert Segments(name, start) == [name[start..]];
    } else {
      SegmentsAreSplit(name, idx + 1);
      SegmentsSplitStep(name, start, idx);
    }
  }

  /** The inductive step: a dot at idx, and the rest already split. */
  lemma SegmentsSplitStep(name: string, start: nat, idx: int)
    requires start <= |name| && idx == IndexOfFrom(name, '.', start) && idx != -1
    requires IndexOf(name[start..], '.') == idx - start
    requires Segments(name, idx + 1) == SplitOn(name[idx + 1..], '.')
    ensures Segments(name, start) == SplitOn(name[start..], '.')
  {
    var s := name[start..];
    var k := idx - start;
    SegmentsStep(name, start, idx);
    SplitStep(s, '.', k);
    assert s[..k] == name[start..idx];
    assert s[k + 1..] == name[idx + 1..];
  }

  /* ---------------------------------------------------------------------
   * addInternal
   * --------------------------------------------------------------------- */

  /** `addInternal` over its segments worked out in advance: the same steps, one
      segment at a time. */
  function AddPath(n: Node, segs: seq<string>, t: Dim, r: Ref): (n': Node)
    requires segs != []
    ensures n'.name == n.name && n'.isClass == n.isClass && n'.methods == n.methods && n'.fields == n.fields
    ensures n'.children == n.children[segs[0] := NewChildFor(n, segs, t, r)]
    decreases |segs|, 1
  {
    var child := ChildFor(n, segs[0]);
    if |segs| == 1 then Filled(n, segs[0], t, r)
    else Descended(n, segs[0], MeasureOf(r), t, AddPath(child, segs[1..], t, r))
  }

  /** The child the walk files under its first segment. */
  function NewChildFor(n: Node, segs: seq<string>, t: Dim, r: Ref): (c: Node)
    requires segs != []
    ensures c.name == ChildFor(n, segs[0]).name && c.isClass == ChildFor(n, segs[0]).isClass
    decreases |segs|, 0
  {
    var child := ChildFor(n, segs[0]);
    if |segs| == 1 then Added(child, t, r) else AddPath(child, segs[1..], t, r)
  }

  /** One step of `addInternal` before the last segment. */
  lemma AddInternalStep(n: Node, name: string, start: nat, t: Dim, r: Ref, idx: int, segment: string)
    requires start <= |name| && idx == IndexOfFrom(name, '.', start) && idx != -1 && segment == name[start..idx]
    ensures AddInternal(n, name, start, t, r)
         == Descended(n, segment, MeasureOf(r), t, AddInternal(ChildFor(n, segment), name, idx + 1, t, r))
  {
    var a := AddInternal(n, name, start, t, r);
    var b := Descended(n, segment, MeasureOf(r), t, AddInternal(ChildFor(n, segment), name, idx + 1, t, r));
    assert a.children == b.children;
    assert a.classCounter == b.classCounter && a.methodCounter == b.methodCounter && a.fieldCounter == b.fieldCounter;
    assert a.name == b.name && a.isClass == b.isClass && a.methods == b.methods && a.fields == b.fields;
  }

  /** The segments from a dot on: the piece before it, then the rest. */
  lemma SegmentsStep(name: string, start: nat, idx: int)
    requires start <= |name| && idx == IndexOfFrom(name, '.', start) && idx != -1
    ensures Segments(name, start) == [name[start..idx]] + Segments(name, idx + 1)
  {
  }

  /** `addInternal` is that walk over the segments it finds. */
  lemma {:induction false} AddInternalIsAddPath(n: Node, name: string, start: nat, t: Dim, r: Ref)
    requires start <= |name|
    ensures AddInternal(n, name, start, t, r) == AddPath(n, Segments(name, start), t, r)
    decreases |name| - start
  {
    var idx := IndexOfFrom(name, '.', start);
    if idx != -1 {
      var segs := Segments(name, start);
      var segment := name[start..idx];
      SegmentsStep(name, start, idx);
      AddInternalStep(n, name, start, t, r, idx, segment);
      AddInternalIsAddPath(ChildFor(n, segment), name, idx + 1, t, r);
      assert segs[1..] == Segments(name, idx + 1);
    }
  }

  /** Seen from one segment down, a child holds what its parent's path holds. */
  lemma ViewDown(n: Node, q: seq<string>, t: Dim, k: Measure)
    requires q != [] && q[0] in n.children
    ensures MethodsAt(n, q, t) == MethodsAt(n.children[q[0]], q[1..], t)
    ensures FieldsAt(n, q, t) == FieldsAt(n.children[q[0]], q[1..], t)
    ensures CounterAt(n, q, k, t) == CounterAt(n.children[q[0]], q[1..], k, t)
  {
  }

  /** A fresh node holds nothing anywhere. */
  lemma ViewNew(segment: string, p: seq<string>, t: Dim, k: Measure)
    ensures MethodsAt(NewChild(segment), p, t) == {} && FieldsAt(NewChild(segment), p, t) == {}
    ensures CounterAt(NewChild(segment), p, k, t) == None
  {
    if p != [] {
      assert At(NewChild(segment), p) == None;
    }
  }

  /** Nor does a path through a missing child. */
  lemma ViewAbsent(n: Node, q: seq<string>, t: Dim, k: Measure)
    requires q != [] && q[0] !in n.children
    ensures MethodsAt(n, q, t) == {} && FieldsAt(n, q, t) == {} && CounterAt(n, q, k, t) == None
  {
  }

  /** So the child for a segment, existing or new, holds what the parent's path
      through that segment holds. */
  lemma ChildForView(n: Node, q: seq<string>, t: Dim, k: Measure)
    requires q != []
    ensures MethodsAt(n, q, t) == MethodsAt(ChildFor(n, q[0]), q[1..], t)
    ensures FieldsAt(n, q, t) == FieldsAt(ChildFor(n, q[0]), q[1..], t)
    ensures CounterAt(n, q, k, t) == CounterAt(ChildFor(n, q[0]), q[1..], k, t)
  {
    if q[0] in n.children {
      ViewDown(n, q, t, k);
    } else {
      ViewAbsent(n, q, t, k);
      ViewNew(q[0], q[1..], t, k);
    }
  }

  /** Paths that leave the inserted segment at the top see the old tree. */
  lemma AddPathElsewhere(n: Node, segs: seq<string>, t: Dim, r: Ref, q: seq<string>, u: Dim, k: Measure)
    requires segs != [] && q != [] && q[0] != segs[0]
    ensures MethodsAt(AddPath(n, segs, t, r), q, u) == MethodsAt(n, q, u)
    ensures FieldsAt(AddPath(n, segs, t, r), q, u) == FieldsAt(n, q, u)
    ensures CounterAt(AddPath(n, segs, t, r), q, k, u) == CounterAt(n, q, k, u)
  {
    var n' := AddPath(n, segs, t, r);
    assert q[0] in n'.children <==> q[0] in n.children;
    if q[0] in n.children {
      assert n'.children[q[0]] == n.children[q[0]];
      ViewDown(n, q, u, k);
      ViewDown(n', q, u, k);
    }
  }

  /** Paths through the inserted segment see the new child. */
  lemma AddPathThrough(n: Node, segs: seq<string>, t: Dim, r: Ref, q: seq<string>, u: Dim, k: Measure)
    requires segs != [] && q != [] && q[0] == segs[0]
    ensures MethodsAt(AddPath(n, segs, t, r), q, u) == MethodsAt(NewChildFor(n, segs, t, r), q[1..], u)
    ensures FieldsAt(AddPath(n, segs, t, r), q, u) == FieldsAt(NewChildFor(n, segs, t, r), q[1..], u)
    ensures CounterAt(AddPath(n, segs, t, r), q, k, u) == CounterAt(NewChildFor(n, segs, t, r), q[1..], k, u)
  {
    ViewDown(AddPath(n, segs, t, r), q, u, k);
  }

  /** Adding to a node's own set changes no set below it, and no memo. */
  lemma AddedView(c: Node, t: Dim, r: Ref, p: seq<string>, u: Dim, k: Measure)
    ensures MethodsAt(Added(c, t, r), p, u)
         == if p == [] && u == t && r.MethodItem? then MethodsAt(c, p, u) + {r.m} else MethodsAt(c, p, u)
    ensures FieldsAt(Added(c, t, r), p, u)
         == if p == [] && u == t && r.FieldItem? then FieldsAt(c, p, u) + {r.f} else FieldsAt(c, p, u)
    ensures CounterAt(Added(c, t, r), p, k, u) == CounterAt(c, p, k, u)
  {
    if p != [] && p[0] in c.children {
      ViewDown(c, p, u, k);
      ViewDown(Added(c, t, r), p, u, k);
    }
  }

  /** Whether the reference is already in the set of dimension t at the path. */
  predicate Holds(n: Node, path: seq<string>, t: Dim, r: Ref) {
    match r
    case MethodItem(m) => m in MethodsAt(n, path, t)
    case FieldItem(f) => f in FieldsAt(n, path, t)
  }

  /** The reference lands in the method set of dimension t of the node at the
      path of its segments, and in no other method set of any node. */
  lemma {:induction false} AddPathMethods(n: Node, segs: seq<string>, t: Dim, r: Ref, q: seq<string>, u: Dim)
    requires segs != []
    ensures MethodsAt(AddPath(n, segs, t, r), q, u)
         == if q == segs && u == t && r.MethodItem? then MethodsAt(n, q, u) + {r.m} else MethodsAt(n, q, u)
    decreases |segs|
  {
    if q != [] && q[0] == segs[0] {
      AddPathThrough(n, segs, t, r, q, u, Classes);
      ChildForView(n, q, u, Classes);
      if |segs| == 1 {
        AddedView(ChildFor(n, segs[0]), t, r, q[1..], u, Classes);
      } else {
        AddPathMethods(ChildFor(n, segs[0]), segs[1..], t, r, q[1..], u);
      }
      assert q == segs <==> q[1..] == segs[1..];
    } else if q != [] {
      AddPathElsewhere(n, segs, t, r, q, u, Classes);
    }
  }

  /** Likewise the field sets. */
  lemma {:induction false} AddPathFields(n: Node, segs: seq<string>, t: Dim, r: Ref, q: seq<string>, u: Dim)
    requires segs != []
    ensures FieldsAt(AddPath(n, segs, t, r), q, u)
         == if q == segs && u == t && r.FieldItem? then FieldsAt(n, q, u) + {r.f} else FieldsAt(n, q, u)
    decreases |segs|
  {
    if q != [] && q[0] == segs[0] {
      AddPathThrough(n, segs, t, r, q, u, Classes);
      ChildForView(n, q, u, Classes);
      if |segs| == 1 {
        AddedView(ChildFor(n, segs[0]), t, r, q[1..], u, Classes);
      } else {
        AddPathFields(ChildFor(n, segs[0]), segs[1..], t, r, q[1..], u);
      }
      assert q == segs <==> q[1..] == segs[1..];
    } else if q != [] {
      AddPathElsewhere(n, segs, t, r, q, u, Classes);
    }
  }

  /** The path of the segments exists once the reference is added. */
  lemma {:induction false} AddPathCreatesPath(n: Node, segs: seq<string>, t: Dim, r: Ref)
    requires segs != []
    ensures At(AddPath(n, segs, t, r), segs).Some?
    decreases |segs|
  {
    if |segs| > 1 {
      AddPathCreatesPath(ChildFor(n, segs[0]), segs[1..], t, r);
    }
  }

  /** Memos forgotten: the method (field) count of dimension t on the nodes that
      pass the reference further down, that is, the nodes on the path above the
      last segment's parent.  The last segment's parent and the leaf keep
      theirs, and so does every class count. */
  lemma {:induction false} AddPathCounters(n: Node, segs: seq<string>, t: Dim, r: Ref, q: seq<string>, k: Measure, u: Dim)
    requires segs != []
    ensures CounterAt(AddPath(n, segs, t, r), q, k, u)
      == if k == MeasureOf(r) && u == t && |q| < |segs| - 1 && q == segs[..|q|] then None else CounterAt(n, q, k, u)
    decreases |segs|
  {
    if q == [] {
      AddPathTopCounter(n, segs, t, r, k, u);
    } else if q[0] == segs[0] {
      AddPathThrough(n, segs, t, r, q, u, k);
      ChildForView(n, q, u, k);
      if |segs| == 1 {
        AddedView(ChildFor(n, segs[0]), t, r, q[1..], u, k);
      } else {
        AddPathCounters(ChildFor(n, segs[0]), segs[1..], t, r, q[1..], k, u);
        PrefixStep(q, segs);
      }
    } else {
      AddPathElsewhere(n, segs, t, r, q, u, k);
      if |q| < |segs| - 1 {
        assert segs[..|q|][0] == segs[0];
      }
    }
  }

  /** The top node forgets its count when the reference goes further down. */
  lemma AddPathTopCounter(n: Node, segs: seq<string>, t: Dim, r: Ref, k: Measure, u: Dim)
    requires segs != []
    ensures CounterAt(AddPath(n, segs, t, r), [], k, u)
      == if k == MeasureOf(r) && u == t && |segs| > 1 then None else CounterAt(n, [], k, u)
  {
    if |segs| > 1 {
      ForgetCounter(n, MeasureOf(r), t, k);
    }
  }

  lemma ForgetCounter(n: Node, k: Measure, t: Dim, j: Measure)
    ensures Counter(ForgetCount(n, k, t), j) == if j == k then Counter(n, k) - {t} else Counter(n, j)
  {
  }

  lemma PrefixStep(q: seq<string>, segs: seq<string>)
    requires q != [] && |segs| > 1 && q[0] == segs[0]
    ensures (|q| < |segs| - 1 && q == segs[..|q|]) <==> (|q[1..]| < |segs[1..]| - 1 && q[1..] == segs[1..][..|q[1..]|])
  {
    if |q| < |segs| - 1 && q[1..] == segs[1..][..|q| - 1] {
      assert q == [q[0]] + q[1..];
      assert segs[..|q|] == [segs[0]] + segs[1..][..|q| - 1];
    }
  }

  /** Replacing one child by a well-formed node of the right name keeps a node
      well formed. */
  lemma WellFormedPut(n: Node, n': Node, segment: string, c: Node)
    requires WellFormed(n) && n'.children == n.children[segment := c]
    requires c.name == segment && c.isClass == IsClassName(segment) && WellFormed(c)
    ensures WellFormed(n')
  {
  }

  /** The child for a segment is well formed and named after it. */
  lemma ChildForWellFormed(n: Node, segment: string)
    requires WellFormed(n)
    ensures var c := ChildFor(n, segment);
      c.name == segment && c.isClass == IsClassName(segment) && WellFormed(c)
  {
  }

  /** Inserting keeps every node well formed. */
  lemma {:induction false} AddPathWellFormed(n: Node, segs: seq<string>, t: Dim, r: Ref)
    requires segs != [] && WellFormed(n)
    ensures WellFormed(AddPath(n, segs, t, r))
    decreases |segs|
  {
    var child := ChildFor(n, segs[0]);
    ChildForWellFormed(n, segs[0]);
    if |segs| > 1 {
      AddPathWellFormed(child, segs[1..], t, r);
    } else {
      assert Added(child, t, r).children == child.children;
    }
    WellFormedPut(n, AddPath(n, segs, t, r), segs[0], NewChildFor(n, segs, t, r));
  }

  /** Replacing one child by a node free of memos keeps a node free of them. */
  lemma NoCountersPut(n: Node, n': Node, segment: string, c: Node)
    requires NoCounters(n) && n'.children == n.children[segment := c] && NoCounters(c)
    requires n'.classCounter == n'.methodCounter == n'.fieldCounter == map[]
    ensures NoCounters(n')
  {
  }

  /** Inserting never creates a memo entry. */
  lemma {:induction false} AddPathNoCounters(n: Node, segs: seq<string>, t: Dim, r: Ref)
    requires segs != [] && NoCounters(n)
    ensures NoCounters(AddPath(n, segs, t, r))
    decreases |segs|
  {
    var child := ChildFor(n, segs[0]);
    assert NoCounters(child);
    if |segs| > 1 {
      AddPathNoCounters(child, segs[1..], t, r);
      ForgetCounter(n, MeasureOf(r), t, Classes);
      ForgetCounter(n, MeasureOf(r), t, Methods);
      ForgetCounter(n, MeasureOf(r), t, Fields);
    } else {
      assert NoCounters(Added(child, t, r));
    }
    AddPathUnfold(n, segs, t, r);
    NoCountersPut(n, AddPath(n, segs, t, r), segs[0], NewChildFor(n, segs, t, r));
  }

  /** `AddPath` as one update of the top node. */
  lemma AddPathUnfold(n: Node, segs: seq<string>, t: Dim, r: Ref)
    requires segs != []
    ensures AddPath(n, segs, t, r)
         == (if |segs| == 1 then n else ForgetCount(n, MeasureOf(r), t)).(children := n.children[segs[0] := NewChildFor(n, segs, t, r)])
  {
  }

  lemma AddedTwice(c: Node, t: Dim, r: Ref)
    ensures Added(Added(c, t, r), t, r) == Added(c, t, r)
  {
    match r
    case MethodItem(m) =>
      assert c.methods.Add(t, m).Add(t, m) == c.methods.Add(t, m);
    case FieldItem(f) =>
      assert c.fields.Add(t, f).Add(t, f) == c.fields.Add(t, f);
  }

  /** Forgetting a count that is not there changes nothing. */
  lemma ForgetAbsent(n: Node, k: Measure, t: Dim)
    requires t !in Counter(n, k)
    ensures ForgetCount(n, k, t) == n
  {
  }

  /** A node whose child and memo already look as the walk would leave them
      is left as it is. */
  lemma AddPathFixed(n: Node, segs: seq<string>, t: Dim, r: Ref)
    requires segs != [] && segs[0] in n.children
    requires NewChildFor(n, segs, t, r) == n.children[segs[0]]
    requires |segs| > 1 ==> t !in Counter(n, MeasureOf(r))
    ensures AddPath(n, segs, t, r) == n
  {
    AddPathUnfold(n, segs, t, r);
    if |segs| > 1 {
      ForgetAbsent(n, MeasureOf(r), t);
    }
    assert n.children[segs[0] := n.children[segs[0]]] == n.children;
  }

  /** Filing the same reference twice leaves the tree as filing it once. */
  lemma {:induction false} AddPathIdempotent(n: Node, segs: seq<string>, t: Dim, r: Ref)
    requires segs != []
    ensures AddPath(AddPath(n, segs, t, r), segs, t, r) == AddPath(n, segs, t, r)
    decreases |segs|
  {
    var n1 := AddPath(n, segs, t, r);
    assert n1.children[segs[0]] == NewChildFor(n, segs, t, r);
    if |segs| == 1 {
      AddedTwice(ChildFor(n, segs[0]), t, r);
    } else {
      AddPathIdempotent(ChildFor(n, segs[0]), segs[1..], t, r);
      AddPathTopCounter(n, segs, t, r, MeasureOf(r), t);
    }
    AddPathFixed(n1, segs, t, r);
  }

}

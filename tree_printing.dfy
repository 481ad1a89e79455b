/**
 * The four renderers of `PackageTree` and `print`, which picks one by format.
 * The list, tree and YAML renderers produce text; the JSON renderer is modelled
 * by the structure it writes through the JSON writer.  Counts are read with
 * `Count`, which honours whatever memo the tree holds; the memo entries a
 * query stores change no count (`PackageTreeCounts.FillKeepsCount`), so the
 * order in which the renderers query the nodes does not affect what they print.
 */
module TreePrinting {
  import opened Wrappers
  import opened JavaStrings
  import opened PackageTrees
  import opened PrintOptionsModel
  import opened OutputFormats
  import opened ChildOrder

  /* ---------------------------------------------------------------------
   * The counts a renderer prints and their wording
   * --------------------------------------------------------------------- */

  /** `getClassCount()`, `getMethodCount()`, `getFieldCount()`: referenced. */
  function ClassCount(n: Node): int { Count(n, Classes, REFERENCED) }
  function MethodCount(n: Node): int { Count(n, Methods, REFERENCED) }
  function FieldCount(n: Node): int { Count(n, Fields, REFERENCED) }

  /** `getMethodCountDeclared()`, `getFieldCountDeclared()`. */
  function MethodCountDeclared(n: Node): int { Count(n, Methods, DECLARED) }
  function FieldCountDeclared(n: Node): int { Count(n, Fields, DECLARED) }

  /** `pluralizedClasses`: the singular for exactly one. */
  function PluralizedClasses(c: int): (s: string)
    ensures s == "class" <==> c == 1
    ensures c != 1 ==> s == "class" + "es"
  {
    if c == 1 then "class" else "classes"
  }

  function PluralizedMethods(c: int): (s: string)
    ensures s == "method" <==> c == 1
    ensures c != 1 ==> s == "method" + "s"
  {
    if c == 1 then "method" else "methods"
  }

  function PluralizedFields(c: int): (s: string)
    ensures s == "field" <==> c == 1
    ensures c != 1 ==> s == "field" + "s"
  {
    if c == 1 then "field" else "fields"
  }

  /** `"%-Ns ".format(s)`. */
  function Label(s: string, w: nat): string {
    PadRight(s, w) + " "
  }

  /** `String.format("%-Nd ", c)`. */
  function Column(c: int, w: nat): string {
    PadRight(IntToString(c), w) + " "
  }

  /** `k` copies of two spaces. */
  function Spaces(k: int): (s: string)
    ensures |s| == if k <= 0 then 0 else 2 * k
    ensures forall i | 0 <= i < |s| :: s[i] == ' '
    decreases k
  {
    if k <= 0 then "" else "  " + Spaces(k - 1)
  }

  /* ---------------------------------------------------------------------
   * The walk every renderer follows
   * --------------------------------------------------------------------- */

  /** A node a renderer prints: the node, its dotted path from the top and its depth. */
  datatype Visit = Visit(node: Node, path: string, depth: int)

  /** The builder contents after appending a child's name: a '.' separates it from
      a non-empty prefix. */
  function ChildPath(prefix: string, name: string): (p: string)
    ensures |prefix| > 0 ==> p == prefix + "." + name
    ensures |prefix| == 0 ==> p == name
  {
    if |prefix| > 0 then prefix + "." + name else name
  }

  /** The nodes printed from n at the given depth, in order: n itself, then the
      walk of each printable child in `getChildren` order, a level deeper; nothing
      at or beyond the depth limit. */
  function Walk(n: Node, prefix: string, depth: int, opts: PrintOptions): seq<Visit>
    decreases n, 1
  {
    if depth >= opts.maxTreeDepth then []
    else
      var path := ChildPath(prefix, n.name);
      [Visit(n, path, depth)] + WalkChildren(n, GetChildren(n, opts), path, depth + 1, opts)
  }

  function WalkChildren(n: Node, ks: seq<string>, prefix: string, depth: int, opts: PrintOptions): seq<Visit>
    requires forall i | 0 <= i < |ks| :: ks[i] in n.children
    decreases n, 0, |ks|
  {
    if ks == [] then []
    else Walk(n.children[ks[0]], prefix, depth, opts) + WalkChildren(n, ks[1..], prefix, depth, opts)
  }

  /** The walk stays within the depth limit and starts at the given depth; every
      node it reaches below the top is printable. */
  lemma {:induction false} WalkBounds(n: Node, prefix: string, depth: int, opts: PrintOptions)
    ensures Walk(n, prefix, depth, opts) == [] <==> depth >= opts.maxTreeDepth
    ensures forall i | 0 <= i < |Walk(n, prefix, depth, opts)| ::
      depth <= Walk(n, prefix, depth, opts)[i].depth < opts.maxTreeDepth
    ensures forall i | 1 <= i < |Walk(n, prefix, depth, opts)| ::
      IsPrintable(Walk(n, prefix, depth, opts)[i].node, opts)
    decreases n, 1
  {
    if depth < opts.maxTreeDepth {
      var path := ChildPath(prefix, n.name);
      var ks := GetChildren(n, opts);
      forall y | y in ks ensures IsPrintable(n.children[y], opts) {
        ChildrenMembers(n, opts, y);
      }
      WalkChildrenBounds(n, ks, path, depth + 1, opts);
    }
  }

  lemma {:induction false} WalkChildrenBounds(n: Node, ks: seq<string>, prefix: string, depth: int, opts: PrintOptions)
    requires forall i | 0 <= i < |ks| :: ks[i] in n.children && IsPrintable(n.children[ks[i]], opts)
    ensures forall i | 0 <= i < |WalkChildren(n, ks, prefix, depth, opts)| ::
      var v := WalkChildren(n, ks, prefix, depth, opts)[i];
      depth <= v.depth < opts.maxTreeDepth && IsPrintable(v.node, opts)
    decreases n, 0, |ks|
  {
    if ks != [] {
      var c := n.children[ks[0]];
      var a := Walk(c, prefix, depth, opts);
      var b := WalkChildren(n, ks[1..], prefix, depth, opts);
      WalkBounds(c, prefix, depth, opts);
      WalkChildrenBounds(n, ks[1..], prefix, depth, opts);
      assert a != [] ==> a[0].node == c;
      var w := a + b;
      forall i | 0 <= i < |w| ensures depth <= w[i].depth < opts.maxTreeDepth && IsPrintable(w[i].node, opts) {
        if i >= |a| {
          assert w[i] == b[i - |a|];
        }
      }
    }
  }

  /** The three texts a visit prints as. */
  datatype Style = ListStyle | TreeStyle | YamlStyle

  function Chunk(style: Style, v: Visit, opts: PrintOptions): string {
    match style
    case ListStyle => ListLine(v.node, v.path, opts)
    case TreeStyle => TreeLine(v.node, v.depth, opts)
    case YamlStyle => YamlChunk(v.node, v.depth, opts)
  }

  /** The visits' texts one after another. */
  function Lines(style: Style, vs: seq<Visit>, opts: PrintOptions): string
    decreases |vs|
  {
    if vs == [] then "" else Chunk(style, vs[0], opts) + Lines(style, vs[1..], opts)
  }

  lemma {:induction false} LinesAppend(style: Style, a: seq<Visit>, b: seq<Visit>, opts: PrintOptions)
    ensures Lines(style, a + b, opts) == Lines(style, a, opts) + Lines(style, b, opts)
    decreases |a|
  {
    if a != [] {
      assert (a + b)[0] == a[0];
      assert (a + b)[1..] == a[1..] + b;
      LinesAppend(style, a[1..], b, opts);
    } else {
      assert a + b == b;
    }
  }

  lemma LinesCons(style: Style, v: Visit, rest: seq<Visit>, opts: PrintOptions)
    ensures Lines(style, [v] + rest, opts) == Chunk(style, v, opts) + Lines(style, rest, opts)
  {
    assert ([v] + rest)[1..] == rest;
  }

  /* ---------------------------------------------------------------------
   * LIST
   * --------------------------------------------------------------------- */

  /** `printPackageListHeader`. */
  function ListHeader(opts: PrintOptions): string {
    (if opts.includeClassCount then Label("classes", 8) else "")
    + (if opts.androidProject then
         (if opts.includeMethodCount then Label("methods", 8) else "")
         + (if opts.includeFieldCount then Label("fields", 8) else "")
       else "")
    + (if opts.printDeclarations then Label("declared methods", 16) + Label("declared fields", 16) else "")
    + "package/class name\n"
  }

  /** The count columns of one line; the declared columns are 16 wide under a
      header and 8 wide without. */
  function ListColumns(n: Node, opts: PrintOptions): string {
    var w := if opts.printHeader then 16 else 8;
    (if opts.includeClassCount then Column(ClassCount(n), 8) else "")
    + (if opts.androidProject then
         (if opts.includeMethodCount then Column(MethodCount(n), 8) else "")
         + (if opts.includeFieldCount then Column(FieldCount(n), 8) else "")
       else "")
    + (if opts.printDeclarations then Column(MethodCountDeclared(n), w) + Column(FieldCountDeclared(n), w) else "")
  }

  function ListLine(n: Node, path: string, opts: PrintOptions): string {
    ListColumns(n, opts) + path + "\n"
  }

  /** `printPackageListRecursively`: the builder holds the dotted path so far. */
  function ListNode(n: Node, prefix: string, depth: int, opts: PrintOptions): string
    decreases n, 1
  {
    if depth >= opts.maxTreeDepth then ""
    else
      var path := ChildPath(prefix, n.name);
      ListLine(n, path, opts) + ListChildren(n, GetChildren(n, opts), path, depth + 1, opts)
  }

  function ListChildren(n: Node, ks: seq<string>, prefix: string, depth: int, opts: PrintOptions): string
    requires forall i | 0 <= i < |ks| :: ks[i] in n.children
    decreases n, 0, |ks|
  {
    if ks == [] then ""
    else ListNode(n.children[ks[0]], prefix, depth, opts) + ListChildren(n, ks[1..], prefix, depth, opts)
  }

  /** The totals `printPackageList` starts with; the "declared methods" total is
      the declared class count. */
  function ListTotals(root: Node, opts: PrintOptions): string {
    if opts.includeTotalMethodCount then
      (if opts.androidProject then "Total methods: " + IntToString(MethodCount(root)) + "\n" else "")
      + (if opts.printDeclarations then "Total declared methods: " + IntToString(Count(root, Classes, DECLARED)) + "\n" else "")
    else ""
  }

  /** `printPackageList`: the totals, the header, then the top-level children's
      lines (the root itself has no line). */
  function PrintPackageList(root: Node, opts: PrintOptions): string {
    ListTotals(root, opts)
    + (if opts.printHeader then ListHeader(opts) else "")
    + ListChildren(root, GetChildren(root, opts), "", 0, opts)
  }

  /** The list is one line per visit of the walk, in walk order. */
  lemma {:induction false} ListIsWalk(n: Node, prefix: string, depth: int, opts: PrintOptions)
    ensures ListNode(n, prefix, depth, opts) == Lines(ListStyle, Walk(n, prefix, depth, opts), opts)
    decreases n, 1
  {
    if depth < opts.maxTreeDepth {
      var path := ChildPath(prefix, n.name);
      ListChildrenIsWalk(n, GetChildren(n, opts), path, depth + 1, opts);
      ListStep(n, prefix, depth, opts, WalkChildren(n, GetChildren(n, opts), path, depth + 1, opts));
    }
  }

  /** One level of `ListIsWalk`, given the children's part. */
  lemma ListStep(n: Node, prefix: string, depth: int, opts: PrintOptions, rest: seq<Visit>)
    requires depth < opts.maxTreeDepth
    requires rest == WalkChildren(n, GetChildren(n, opts), ChildPath(prefix, n.name), depth + 1, opts)
    requires ListChildren(n, GetChildren(n, opts), ChildPath(prefix, n.name), depth + 1, opts) == Lines(ListStyle, rest, opts)
    ensures ListNode(n, prefix, depth, opts) == Lines(ListStyle, Walk(n, prefix, depth, opts), opts)
  {
    LinesCons(ListStyle, Visit(n, ChildPath(prefix, n.name), depth), rest, opts);
  }

  lemma {:induction false} ListChildrenIsWalk(n: Node, ks: seq<string>, prefix: string, depth: int, opts: PrintOptions)
    requires forall i | 0 <= i < |ks| :: ks[i] in n.children
    ensures ListChildren(n, ks, prefix, depth, opts) == Lines(ListStyle, WalkChildren(n, ks, prefix, depth, opts), opts)
    decreases n, 0, |ks|
  {
    if ks != [] {
      var c := n.children[ks[0]];
      ListIsWalk(c, prefix, depth, opts);
      ListChildrenIsWalk(n, ks[1..], prefix, depth, opts);
      LinesAppend(ListStyle, Walk(c, prefix, depth, opts), WalkChildren(n, ks[1..], prefix, depth, opts), opts);
    }
  }

  /** The totals line for declarations shows the declared class count, not a
      method count. */
  lemma DeclaredTotalIsClassCount(root: Node, opts: PrintOptions)
    requires opts.includeTotalMethodCount && opts.printDeclarations && !opts.androidProject
    ensures ListTotals(root, opts) == "Total declared methods: " + IntToString(Count(root, Classes, DECLARED)) + "\n"
  {
  }

  /* ---------------------------------------------------------------------
   * TREE
   * --------------------------------------------------------------------- */

  /** The four parts a tree line can show. */
  function ClassPart(n: Node): string {
    IntToString(ClassCount(n)) + " " + PluralizedClasses(ClassCount(n))
  }

  function MethodPart(n: Node): string {
    IntToString(MethodCount(n)) + " " + PluralizedMethods(MethodCount(n))
  }

  function FieldPart(n: Node): string {
    IntToString(FieldCount(n)) + " " + PluralizedFields(FieldCount(n))
  }

  function DeclaredPart(n: Node): string {
    IntToString(MethodCountDeclared(n)) + " declared " + PluralizedMethods(MethodCountDeclared(n))
    + ", " + IntToString(FieldCountDeclared(n)) + " declared " + PluralizedFields(FieldCountDeclared(n))
  }

  /** Appending the parts that are switched on, each preceded by ", " once
      something has been appended (the `appended` flag). */
  function Threaded(b1: bool, x1: string, b2: bool, x2: string, b3: bool, x3: string, b4: bool, x4: string): string {
    var s1 := if b1 then x1 else "";
    var a1 := b1;
    var s2 := if b2 then s1 + (if a1 then ", " else "") + x2 else s1;
    var a2 := a1 || b2;
    var s3 := if b3 then s2 + (if a2 then ", " else "") + x3 else s2;
    var a3 := a2 || b3;
    if b4 then s3 + (if a3 then ", " else "") + x4 else s3
  }

  /** The part x when switched on. */
  function Opt(b: bool, x: string): seq<string> {
    if b then [x] else []
  }

  /** The text inside the parentheses of a tree line. */
  function TreeCounts(n: Node, opts: PrintOptions): string {
    Threaded(opts.includeClassCount, ClassPart(n),
             opts.androidProject && opts.includeMethodCount, MethodPart(n),
             opts.androidProject && opts.includeFieldCount, FieldPart(n),
             opts.printDeclarations, DeclaredPart(n))
  }

  /** The parts `TreeCounts` prints, in order. */
  function TreeParts(n: Node, opts: PrintOptions): seq<string> {
    Opt(opts.includeClassCount, ClassPart(n))
    + Opt(opts.androidProject && opts.includeMethodCount, MethodPart(n))
    + Opt(opts.androidProject && opts.includeFieldCount, FieldPart(n))
    + Opt(opts.printDeclarations, DeclaredPart(n))
  }

  /** The parts separated by ", ". */
  function JoinComma(parts: seq<string>): string
    decreases |parts|
  {
    if parts == [] then ""
    else if |parts| == 1 then parts[0]
    else parts[0] + ", " + JoinComma(parts[1..])
  }

  /** Appending a part to a join: a separator exactly when the join was not empty. */
  lemma {:induction false} JoinCommaSnoc(parts: seq<string>, x: string)
    ensures JoinComma(parts + [x]) == JoinComma(parts) + (if parts == [] then "" else ", ") + x
    decreases |parts|
  {
    if |parts| >= 2 {
      assert (parts + [x])[0] == parts[0];
      assert (parts + [x])[1..] == parts[1..] + [x];
      JoinCommaSnoc(parts[1..], x);
    } else if |parts| == 1 {
      assert parts + [x] == [parts[0], x];
    }
  }

  /** One step of the threading is one more part of the join. */
  lemma ThreadStep(acc: seq<string>, b: bool, x: string)
    ensures JoinComma(acc + Opt(b, x)) == if b then JoinComma(acc) + (if acc == [] then "" else ", ") + x else JoinComma(acc)
  {
    if b {
      JoinCommaSnoc(acc, x);
    } else {
      assert acc + Opt(b, x) == acc;
    }
  }

  /** The `appended` flag threads exactly the separators of a join. */
  lemma ThreadedIsJoin(b1: bool, x1: string, b2: bool, x2: string, b3: bool, x3: string, b4: bool, x4: string)
    ensures Threaded(b1, x1, b2, x2, b3, x3, b4, x4) == JoinComma(Opt(b1, x1) + Opt(b2, x2) + Opt(b3, x3) + Opt(b4, x4))
  {
    var p1 := Opt(b1, x1);
    assert JoinComma(p1) == if b1 then x1 else "";
    ThreadStep(p1, b2, x2);
    ThreadStep(p1 + Opt(b2, x2), b3, x3);
    ThreadStep(p1 + Opt(b2, x2) + Opt(b3, x3), b4, x4);
  }

  lemma TreeCountsIsJoin(n: Node, opts: PrintOptions)
    ensures TreeCounts(n, opts) == JoinComma(TreeParts(n, opts))
  {
    ThreadedIsJoin(opts.includeClassCount, ClassPart(n),
                   opts.androidProject && opts.includeMethodCount, MethodPart(n),
                   opts.androidProject && opts.includeFieldCount, FieldPart(n),
                   opts.printDeclarations, DeclaredPart(n));
  }

  /** Whether a tree line has a parenthesised part. */
  predicate AnyCount(opts: PrintOptions) {
    opts.includeFieldCount || opts.includeMethodCount || opts.includeClassCount
  }

  /** One line of `printTreeRecursively`: indented name, then the counts in
      parentheses and a newline, but neither when no count flag is set. */
  function TreeLine(n: Node, depth: int, opts: PrintOptions): string {
    Spaces(depth) + n.name + (if AnyCount(opts) then " (" + TreeCounts(n, opts) + ")\n" else "")
  }

  function TreeNode(n: Node, depth: int, opts: PrintOptions): string
    decreases n, 1
  {
    if depth >= opts.maxTreeDepth then ""
    else TreeLine(n, depth, opts) + TreeChildren(n, GetChildren(n, opts), depth + 1, opts)
  }

  function TreeChildren(n: Node, ks: seq<string>, depth: int, opts: PrintOptions): string
    requires forall i | 0 <= i < |ks| :: ks[i] in n.children
    decreases n, 0, |ks|
  {
    if ks == [] then ""
    else TreeNode(n.children[ks[0]], depth, opts) + TreeChildren(n, ks[1..], depth, opts)
  }

  /** `printTree`: the top-level children at depth 0. */
  function PrintTree(root: Node, opts: PrintOptions): string {
    TreeChildren(root, GetChildren(root, opts), 0, opts)
  }

  lemma {:induction false} TreeIsWalk(n: Node, prefix: string, depth: int, opts: PrintOptions)
    ensures TreeNode(n, depth, opts) == Lines(TreeStyle, Walk(n, prefix, depth, opts), opts)
    decreases n, 1
  {
    if depth < opts.maxTreeDepth {
      var path := ChildPath(prefix, n.name);
      TreeChildrenIsWalk(n, GetChildren(n, opts), path, depth + 1, opts);
      TreeStep(n, prefix, depth, opts, WalkChildren(n, GetChildren(n, opts), path, depth + 1, opts));
    }
  }

  /** One level of `TreeIsWalk`, given the children's part. */
  lemma TreeStep(n: Node, prefix: string, depth: int, opts: PrintOptions, rest: seq<Visit>)
    requires depth < opts.maxTreeDepth
    requires rest == WalkChildren(n, GetChildren(n, opts), ChildPath(prefix, n.name), depth + 1, opts)
    requires TreeChildren(n, GetChildren(n, opts), depth + 1, opts) == Lines(TreeStyle, rest, opts)
    ensures TreeNode(n, depth, opts) == Lines(TreeStyle, Walk(n, prefix, depth, opts), opts)
  {
    LinesCons(TreeStyle, Visit(n, ChildPath(prefix, n.name), depth), rest, opts);
  }

  lemma {:induction false} TreeChildrenIsWalk(n: Node, ks: seq<string>, prefix: string, depth: int, opts: PrintOptions)
    requires forall i | 0 <= i < |ks| :: ks[i] in n.children
    ensures TreeChildren(n, ks, depth, opts) == Lines(TreeStyle, WalkChildren(n, ks, prefix, depth, opts), opts)
    decreases n, 0, |ks|
  {
    if ks != [] {
      var c := n.children[ks[0]];
      TreeIsWalk(c, prefix, depth, opts);
      TreeChildrenIsWalk(n, ks[1..], prefix, depth, opts);
      LinesAppend(TreeStyle, Walk(c, prefix, depth, opts), WalkChildren(n, ks[1..], prefix, depth, opts), opts);
    }
  }

  /** The list and the tree print the same nodes: one line each per visit of the
      same walk of the top-level children. */
  lemma ListAndTreeAgree(root: Node, opts: PrintOptions)
    ensures ListChildren(root, GetChildren(root, opts), "", 0, opts) == Lines(ListStyle, WalkChildren(root, GetChildren(root, opts), "", 0, opts), opts)
    ensures PrintTree(root, opts) == Lines(TreeStyle, WalkChildren(root, GetChildren(root, opts), "", 0, opts), opts)
  {
    ListChildrenIsWalk(root, GetChildren(root, opts), "", 0, opts);
    TreeChildrenIsWalk(root, GetChildren(root, opts), "", 0, opts);
  }

  /* ---------------------------------------------------------------------
   * JSON
   * --------------------------------------------------------------------- */

  /** The structure the JSON writer is driven through; the layout (indentation
      and escaping) is the writer's. */
  datatype Json = JObject(members: seq<Member>) | JArray(items: seq<Json>) | JString(str: string) | JNumber(num: int)
  datatype Member = Member(key: string, value: Json)

  /** The count members of one object, in the order they are written. */
  function JsonCounts(n: Node, opts: PrintOptions): seq<Member> {
    (if opts.includeClassCount then [Member("classes", JNumber(ClassCount(n)))] else [])
    + (if opts.androidProject then
         (if opts.includeMethodCount then [Member("methods", JNumber(MethodCount(n)))] else [])
         + (if opts.includeFieldCount then [Member("fields", JNumber(FieldCount(n)))] else [])
       else [])
    + (if opts.printDeclarations then
         [Member("declared_methods", JNumber(MethodCountDeclared(n))), Member("declared_fields", JNumber(FieldCountDeclared(n)))]
       else [])
  }

  /** `printJsonRecursively`: nothing at or beyond the depth limit, otherwise an
      object with the name, the counts and the array of the children's objects. */
  function JsonNode(n: Node, depth: int, opts: PrintOptions): Option<Json>
    decreases n, 1
  {
    if depth >= opts.maxTreeDepth then None
    else Some(JObject([Member("name", JString(n.name))] + JsonCounts(n, opts)
                      + [Member("children", JArray(JsonChildren(n, GetChildren(n, opts), depth + 1, opts)))]))
  }

  function JsonChildren(n: Node, ks: seq<string>, depth: int, opts: PrintOptions): seq<Json>
    requires forall i | 0 <= i < |ks| :: ks[i] in n.children
    decreases n, 0, |ks|
  {
    if ks == [] then []
    else
      (match JsonNode(n.children[ks[0]], depth, opts) case None => [] case Some(j) => [j])
      + JsonChildren(n, ks[1..], depth, opts)
  }

  /** `printJson`: unlike the other renderers, the root itself is an object. */
  function PrintJson(root: Node, opts: PrintOptions): Option<Json> {
    JsonNode(root, 0, opts)
  }

  /** The names of the objects of a JSON value in document order: an object whose
      first member is a string "name" contributes it, then its members' names. */
  function JsonNames(j: Json): seq<string>
    decreases j, 1
  {
    match j
    case JObject(ms) =>
      (if |ms| > 0 && ms[0].key == "name" && ms[0].value.JString? then [ms[0].value.str] else [])
      + MembersNames(j, ms)
    case JArray(items) => ItemsNames(j, items)
    case JString(_) => []
    case JNumber(_) => []
  }

  function MembersNames(j: Json, ms: seq<Member>): seq<string>
    requires j.JObject? && forall i | 0 <= i < |ms| :: ms[i] in j.members
    decreases j, 0, |ms|
  {
    if ms == [] then [] else JsonNames(ms[0].value) + MembersNames(j, ms[1..])
  }

  function ItemsNames(j: Json, items: seq<Json>): seq<string>
    requires j.JArray? && forall i | 0 <= i < |items| :: items[i] in j.items
    decreases j, 0, |items|
  {
    if items == [] then [] else JsonNames(items[0]) + ItemsNames(j, items[1..])
  }

  /** The names of the visits. */
  function VisitNames(vs: seq<Visit>): (r: seq<string>)
    ensures |r| == |vs|
    decreases |vs|
  {
    if vs == [] then [] else [vs[0].node.name] + VisitNames(vs[1..])
  }

  lemma {:induction false} VisitNamesAppend(a: seq<Visit>, b: seq<Visit>)
    ensures VisitNames(a + b) == VisitNames(a) + VisitNames(b)
    decreases |a|
  {
    if a != [] {
      assert (a + b)[0] == a[0];
      assert (a + b)[1..] == a[1..] + b;
      VisitNamesAppend(a[1..], b);
    } else {
      assert a + b == b;
    }
  }

  /** The members' names of a suffix of an object's members. */
  lemma {:induction false} MembersNamesSuffix(j: Json, ms: seq<Member>, k: nat)
    requires j.JObject? && forall i | 0 <= i < |ms| :: ms[i] in j.members
    requires k <= |ms|
    requires forall i | 0 <= i < k :: ms[i].value.JNumber? || ms[i].value.JString?
    ensures MembersNames(j, ms) == MembersNames(j, ms[k..])
    decreases k
  {
    if k > 0 {
      assert ms[1..][k - 1..] == ms[k..];
      MembersNamesSuffix(j, ms[1..], k - 1);
    }
  }

  /** An items list's names, split at its first item. */
  lemma {:induction false} ItemsNamesAppend(j: Json, a: seq<Json>, b: seq<Json>)
    requires j.JArray? && forall i | 0 <= i < |a + b| :: (a + b)[i] in j.items
    ensures forall i | 0 <= i < |a| :: a[i] in j.items
    ensures forall i | 0 <= i < |b| :: b[i] in j.items
    ensures ItemsNames(j, a + b) == ItemsNames(j, a) + ItemsNames(j, b)
    decreases |a|
  {
    forall i | 0 <= i < |a| ensures a[i] in j.items { assert (a + b)[i] == a[i]; }
    forall i | 0 <= i < |b| ensures b[i] in j.items { assert (a + b)[|a| + i] == b[i]; }
    if a != [] {
      assert (a + b)[0] == a[0];
      assert (a + b)[1..] == a[1..] + b;
      ItemsNamesAppend(j, a[1..], b);
    } else {
      assert a + b == b;
    }
  }

  /** An items list's names do not depend on the array it is read from. */
  lemma {:induction false} ItemsNamesAnyArray(j: Json, j': Json, items: seq<Json>)
    requires j.JArray? && forall i | 0 <= i < |items| :: items[i] in j.items
    requires j'.JArray? && forall i | 0 <= i < |items| :: items[i] in j'.items
    ensures ItemsNames(j, items) == ItemsNames(j', items)
    decreases |items|
  {
    if items != [] {
      ItemsNamesAnyArray(j, j', items[1..]);
    }
  }

  /** An object's names: its own, then those of the children array, when it
      starts with the name and its other members before the array are numbers. */
  lemma ObjectNames(name: string, counts: seq<Member>, kids: seq<Json>)
    requires forall i | 0 <= i < |counts| :: counts[i].value.JNumber?
    ensures var arr := JArray(kids);
      JsonNames(JObject([Member("name", JString(name))] + counts + [Member("children", arr)])) == [name] + ItemsNames(arr, kids)
  {
    var arr := JArray(kids);
    var ms := [Member("name", JString(name))] + counts + [Member("children", arr)];
    var j := JObject(ms);
    assert forall i | 0 <= i < |ms| :: ms[i] in j.members;
    MembersNamesSuffix(j, ms, 1 + |counts|);
    assert ms[1 + |counts|..] == [Member("children", arr)];
    assert MembersNames(j, [Member("children", arr)]) == JsonNames(arr) + MembersNames(j, []);
    assert forall i | 0 <= i < |kids| :: kids[i] in arr.items;
  }

  lemma JsonCountsAreNumbers(n: Node, opts: PrintOptions)
    ensures forall i | 0 <= i < |JsonCounts(n, opts)| :: JsonCounts(n, opts)[i].value.JNumber?
  {
  }

  /** The JSON document has one object per visit of the walk, named in walk order;
      it is empty exactly at or beyond the depth limit. */
  lemma {:induction false} JsonIsWalk(n: Node, prefix: string, depth: int, opts: PrintOptions)
    ensures JsonNode(n, depth, opts).None? <==> depth >= opts.maxTreeDepth
    ensures JsonNode(n, depth, opts).Some? ==> JsonNames(JsonNode(n, depth, opts).value) == VisitNames(Walk(n, prefix, depth, opts))
    decreases n, 2
  {
    if depth < opts.maxTreeDepth {
      JsonWithinLimit(n, prefix, depth, opts);
    }
  }

  /** `JsonIsWalk` for a node printed within the limit. */
  lemma {:induction false} JsonWithinLimit(n: Node, prefix: string, depth: int, opts: PrintOptions)
    requires depth < opts.maxTreeDepth
    ensures JsonNode(n, depth, opts).Some?
    ensures JsonNames(JsonNode(n, depth, opts).value) == VisitNames(Walk(n, prefix, depth, opts))
    decreases n, 1
  {
    JsonChildrenIsWalk(n, GetChildren(n, opts), ChildPath(prefix, n.name), depth + 1, opts);
    JsonStep(n, prefix, depth, opts);
  }

  /** One level of `JsonIsWalk`, given the children's part. */
  lemma JsonStep(n: Node, prefix: string, depth: int, opts: PrintOptions)
    requires depth < opts.maxTreeDepth
    requires var ks := GetChildren(n, opts);
      var kids := JsonChildren(n, ks, depth + 1, opts);
      ItemsNames(JArray(kids), kids) == VisitNames(WalkChildren(n, ks, ChildPath(prefix, n.name), depth + 1, opts))
    ensures JsonNode(n, depth, opts).Some?
    ensures JsonNames(JsonNode(n, depth, opts).value) == VisitNames(Walk(n, prefix, depth, opts))
  {
    var path := ChildPath(prefix, n.name);
    var ks := GetChildren(n, opts);
    var kids := JsonChildren(n, ks, depth + 1, opts);
    JsonCountsAreNumbers(n, opts);
    ObjectNames(n.name, JsonCounts(n, opts), kids);
    VisitNamesAppend([Visit(n, path, depth)], WalkChildren(n, ks, path, depth + 1, opts));
  }

  lemma {:induction false} JsonChildrenIsWalk(n: Node, ks: seq<string>, prefix: string, depth: int, opts: PrintOptions)
    requires forall i | 0 <= i < |ks| :: ks[i] in n.children
    ensures var kids := JsonChildren(n, ks, depth, opts);
      ItemsNames(JArray(kids), kids) == VisitNames(WalkChildren(n, ks, prefix, depth, opts))
    decreases n, 0, |ks|
  {
    var kids := JsonChildren(n, ks, depth, opts);
    if ks != [] {
      var c := n.children[ks[0]];
      var first := match JsonNode(c, depth, opts) case None => [] case Some(j) => [j];
      var rest := JsonChildren(n, ks[1..], depth, opts);
      assert kids == first + rest;
      JsonIsWalk(c, prefix, depth, opts);
      JsonChildrenIsWalk(n, ks[1..], prefix, depth, opts);
      ItemsNamesAppend(JArray(kids), first, rest);
      ItemsNamesAnyArray(JArray(kids), JArray(rest), rest);
      if first != [] {
        ItemsNamesAnyArray(JArray(kids), JArray(first), first);
        assert ItemsNames(JArray(first), first) == JsonNames(first[0]) + ItemsNames(JArray(first), []);
      }
      VisitNamesAppend(Walk(c, prefix, depth, opts), WalkChildren(n, ks[1..], prefix, depth, opts));
    }
  }

  /* ---------------------------------------------------------------------
   * YAML
   * --------------------------------------------------------------------- */

  /** The count lines, each behind the indent. */
  function YamlCounts(indent: string, n: Node, opts: PrintOptions): string {
    (if opts.includeClassCount then indent + "classes: " + IntToString(ClassCount(n)) + "\n" else "")
    + (if opts.androidProject then
         (if opts.includeMethodCount then indent + "methods: " + IntToString(MethodCount(n)) + "\n" else "")
         + (if opts.includeFieldCount then indent + "fields: " + IntToString(FieldCount(n)) + "\n" else "")
       else "")
    + (if opts.printDeclarations then
         indent + "declared_methods: " + IntToString(MethodCountDeclared(n)) + "\n"
         + indent + "declared_fields: " + IntToString(FieldCountDeclared(n)) + "\n"
       else "")
  }

  /** The children `printYamlRecursively` lists: none one level above the limit. */
  function YamlKids(n: Node, depth: int, opts: PrintOptions): (r: seq<string>)
    ensures forall i | 0 <= i < |r| :: r[i] in n.children
  {
    if depth + 1 == opts.maxTreeDepth then [] else GetChildren(n, opts)
  }

  /** What one node prints before its children: the name line, the count lines
      and the children line, "children: []" when it lists no children. */
  function YamlChunk(n: Node, depth: int, opts: PrintOptions): string {
    var indent := Spaces(2 * depth + 1);
    var inner := indent + "  ";
    indent + "- name: " + n.name + "\n" + YamlCounts(inner, n, opts)
    + inner + (if YamlKids(n, depth, opts) == [] then "children: []\n" else "children:\n")
  }

  /** `printYamlRecursively`: cut off only beyond the limit (`depth > max`). */
  function YamlNode(n: Node, depth: int, opts: PrintOptions): string
    decreases n, 1
  {
    if depth > opts.maxTreeDepth then ""
    else if YamlKids(n, depth, opts) == [] then YamlChunk(n, depth, opts)
    else YamlChunk(n, depth, opts) + YamlChildren(n, GetChildren(n, opts), depth + 1, opts)
  }

  function YamlChildren(n: Node, ks: seq<string>, depth: int, opts: PrintOptions): string
    requires forall i | 0 <= i < |ks| :: ks[i] in n.children
    decreases n, 0, |ks|
  {
    if ks == [] then ""
    else YamlNode(n.children[ks[0]], depth, opts) + YamlChildren(n, ks[1..], depth, opts)
  }

  /** `printYaml`: the document marker, the root's count lines, then the
      top-level children at depth 0. */
  function PrintYaml(root: Node, opts: PrintOptions): string {
    "---\n" + YamlCounts("", root, opts) + "counts:\n" + YamlChildren(root, GetChildren(root, opts), 0, opts)
  }

  /** A node prints something exactly when it is not beyond the limit. */
  lemma YamlNodeEmpty(n: Node, depth: int, opts: PrintOptions)
    ensures YamlNode(n, depth, opts) == "" <==> depth > opts.maxTreeDepth
  {
    if depth <= opts.maxTreeDepth {
      var indent := Spaces(2 * depth + 1);
      assert |YamlChunk(n, depth, opts)| >= |indent + "- name: "|;
    }
  }

  /** Beyond the limit a list of children prints nothing. */
  lemma {:induction false} YamlChildrenBeyond(n: Node, ks: seq<string>, depth: int, opts: PrintOptions)
    requires forall i | 0 <= i < |ks| :: ks[i] in n.children
    requires depth > opts.maxTreeDepth
    ensures YamlChildren(n, ks, depth, opts) == ""
    decreases |ks|
  {
    if ks != [] {
      YamlChildrenBeyond(n, ks[1..], depth, opts);
    }
  }

  /** Away from the limit itself, YAML prints one chunk per visit of the same walk
      as the other renderers. */
  lemma {:induction false} YamlIsWalk(n: Node, prefix: string, depth: int, opts: PrintOptions)
    requires depth != opts.maxTreeDepth
    ensures YamlNode(n, depth, opts) == Lines(YamlStyle, Walk(n, prefix, depth, opts), opts)
    decreases n, 2
  {
    if depth + 1 < opts.maxTreeDepth {
      YamlStep(n, prefix, depth, opts);
    } else if depth < opts.maxTreeDepth {
      YamlLastStep(n, prefix, depth, opts, WalkChildren(n, GetChildren(n, opts), ChildPath(prefix, n.name), depth + 1, opts));
    }
  }

  /** One level of `YamlIsWalk` above the last level. */
  lemma {:induction false} YamlStep(n: Node, prefix: string, depth: int, opts: PrintOptions)
    requires depth + 1 < opts.maxTreeDepth
    ensures YamlNode(n, depth, opts) == Lines(YamlStyle, Walk(n, prefix, depth, opts), opts)
    decreases n, 1
  {
    var path := ChildPath(prefix, n.name);
    YamlChildrenIsWalk(n, GetChildren(n, opts), path, depth + 1, opts);
    YamlJoin(n, prefix, depth, opts, WalkChildren(n, GetChildren(n, opts), path, depth + 1, opts));
  }

  /** The node's chunk followed by its children's part is the walk's text. */
  lemma YamlJoin(n: Node, prefix: string, depth: int, opts: PrintOptions, rest: seq<Visit>)
    requires depth + 1 < opts.maxTreeDepth
    requires rest == WalkChildren(n, GetChildren(n, opts), ChildPath(prefix, n.name), depth + 1, opts)
    requires YamlChildren(n, GetChildren(n, opts), depth + 1, opts) == Lines(YamlStyle, rest, opts)
    ensures YamlNode(n, depth, opts) == Lines(YamlStyle, Walk(n, prefix, depth, opts), opts)
  {
    var path := ChildPath(prefix, n.name);
    var chunk := YamlChunk(n, depth, opts);
    LinesCons(YamlStyle, Visit(n, path, depth), rest, opts);
    if GetChildren(n, opts) == [] {
      assert YamlNode(n, depth, opts) == chunk;
      assert rest == [];
    } else {
      assert YamlNode(n, depth, opts) == chunk + YamlChildren(n, GetChildren(n, opts), depth + 1, opts);
    }
  }

  /** The last level of `YamlIsWalk`: the node lists no children. */
  lemma YamlLastStep(n: Node, prefix: string, depth: int, opts: PrintOptions, rest: seq<Visit>)
    requires depth + 1 == opts.maxTreeDepth
    requires rest == WalkChildren(n, GetChildren(n, opts), ChildPath(prefix, n.name), depth + 1, opts)
    ensures YamlNode(n, depth, opts) == Lines(YamlStyle, Walk(n, prefix, depth, opts), opts)
  {
    WalkChildrenEmpty(n, GetChildren(n, opts), ChildPath(prefix, n.name), depth + 1, opts);
    LinesCons(YamlStyle, Visit(n, ChildPath(prefix, n.name), depth), rest, opts);
    assert YamlNode(n, depth, opts) == YamlChunk(n, depth, opts);
  }

  lemma {:induction false} YamlChildrenIsWalk(n: Node, ks: seq<string>, prefix: string, depth: int, opts: PrintOptions)
    requires forall i | 0 <= i < |ks| :: ks[i] in n.children
    requires depth != opts.maxTreeDepth
    ensures YamlChildren(n, ks, depth, opts) == Lines(YamlStyle, WalkChildren(n, ks, prefix, depth, opts), opts)
    decreases n, 0, |ks|
  {
    if ks != [] {
      var c := n.children[ks[0]];
      YamlIsWalk(c, prefix, depth, opts);
      YamlChildrenIsWalk(n, ks[1..], prefix, depth, opts);
      LinesAppend(YamlStyle, Walk(c, prefix, depth, opts), WalkChildren(n, ks[1..], prefix, depth, opts), opts);
    }
  }

  /** At or beyond the limit the walk of a list of children is empty. */
  lemma {:induction false} WalkChildrenEmpty(n: Node, ks: seq<string>, prefix: string, depth: int, opts: PrintOptions)
    requires forall i | 0 <= i < |ks| :: ks[i] in n.children
    requires depth >= opts.maxTreeDepth
    ensures WalkChildren(n, ks, prefix, depth, opts) == []
    decreases |ks|
  {
    if ks != [] {
      WalkChildrenEmpty(n, ks[1..], prefix, depth, opts);
    }
  }

  /** With a depth limit of 0 the list, the tree and the JSON print no node, but
      YAML still prints each top-level child: a child with printable children of
      its own gets a "children:" line with nothing under it. */
  lemma YamlDepthZero(n: Node, opts: PrintOptions)
    requires opts.maxTreeDepth == 0
    ensures Walk(n, "", 0, opts) == [] && JsonNode(n, 0, opts).None?
    ensures YamlNode(n, 0, opts) == YamlChunk(n, 0, opts)
    ensures GetChildren(n, opts) != [] ==> YamlChunk(n, 0, opts) == Spaces(1) + "- name: " + n.name + "\n" + YamlCounts(Spaces(1) + "  ", n, opts) + Spaces(1) + "  " + "children:\n"
  {
    if GetChildren(n, opts) != [] {
      YamlChildrenBeyond(n, GetChildren(n, opts), 1, opts);
    }
  }

  /* ---------------------------------------------------------------------
   * print
   * --------------------------------------------------------------------- */

  /** What `print` writes: text, or the document the JSON writer is driven with. */
  datatype Report = Text(text: string) | JsonReport(json: Option<Json>)

  /** `print(out, format, opts)`: the renderer of the format. */
  function Print(root: Node, format: OutputFormat, opts: PrintOptions): (r: Report)
    ensures r.JsonReport? <==> format == JSON
  {
    match format
    case LIST => Text(PrintPackageList(root, opts))
    case TREE => Text(PrintTree(root, opts))
    case JSON => JsonReport(PrintJson(root, opts))
    case YAML => Text(PrintYaml(root, opts))
  }
}
